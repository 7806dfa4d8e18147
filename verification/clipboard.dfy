/** The clipboard history domain: items and the bounded, most-recent-first,
    deduplicating history that owns them. */
module Clipboard {
  import opened Common
  import opened Seqs

  /** Creation times come from a clock outside the model. */
  type Timestamp = int

  datatype Item = Item(content: string, createdAt: Timestamp) {
    /** The one invariant construction enforces: content is never empty. */
    predicate Valid() {
      content != ""
    }
  }

  /** Building an item rejects empty content, as the constructor raises. */
  function NewItem(content: string, createdAt: Timestamp): (r: Result<Item, string>)
    ensures r.Success? <==> content != ""
    ensures r.Success? ==> r.value.Valid() && r.value.content == content && r.value.createdAt == createdAt
  {
    if content == "" then Failure("Clipboard item content cannot be empty")
    else Success(Item(content, createdAt))
  }

  const DefaultPreviewLength: int := 50

  predicate IsLineBreak(c: char) {
    c == '\n' || c == '\r'
  }

  /** Both line-break characters replaced by spaces. */
  function Flatten(s: string): (r: string)
    ensures |r| == |s|
    ensures forall i :: 0 <= i < |r| ==> !IsLineBreak(r[i])
    ensures forall i :: 0 <= i < |s| && IsLineBreak(s[i]) ==> r[i] == ' '
    ensures forall i :: 0 <= i < |s| && !IsLineBreak(s[i]) ==> r[i] == s[i]
  {
    seq(|s|, i requires 0 <= i < |s| => if IsLineBreak(s[i]) then ' ' else s[i])
  }

  /** Python's slice `s[:n]`: a negative `n` counts from the end. */
  function SlicePrefix(s: string, n: int): (r: string)
    ensures |r| <= |s| && r == s[..|r|]
    ensures 0 <= n ==> |r| == Min(n, |s|)
    ensures n < 0 ==> |r| == if |s| + n < 0 then 0 else |s| + n
  {
    if 0 <= n then s[..Min(n, |s|)]
    else if |s| + n < 0 then []
    else s[..|s| + n]
  }

  /** The one-line preview shown for an item. */
  function Preview(item: Item, maxLength: int): (r: string)
    ensures forall i :: 0 <= i < |r| ==> !IsLineBreak(r[i])
    ensures |Flatten(item.content)| <= maxLength ==> r == Flatten(item.content)
    ensures 3 <= maxLength < |Flatten(item.content)| ==>
      && |r| == maxLength
      && r[maxLength - 3..] == "..."
      && r[..maxLength - 3] == Flatten(item.content)[..maxLength - 3]
    ensures maxLength < 3 && maxLength < |Flatten(item.content)| ==>
      |r| == 3 + (if |item.content| + maxLength - 3 < 0 then 0 else |item.content| + maxLength - 3)
  {
    var flat := Flatten(item.content);
    if |flat| > maxLength then SlicePrefix(flat, maxLength - 3) + "..." else flat
  }

  /** Limits below three lengthen the preview instead of bounding it: the
      prefix slice counts from the end. */
  lemma PreviewOvershootsSmallLimit()
    ensures |Preview(Item("abcdef", 0), 2)| == 8
  {
  }

  const DefaultMaxItems: int := 1000

  predicate DistinctContents(s: seq<Item>) {
    forall i, j :: 0 <= i < j < |s| ==> s[i].content != s[j].content
  }

  datatype History = History(items: seq<Item>, maxItems: int) {
    /** What construction and every mutation maintain. */
    predicate Valid() {
      && maxItems > 0
      && |items| <= maxItems
      && forall i :: 0 <= i < |items| ==> items[i].Valid()
    }

    /** No two items share their content. */
    predicate Distinct() {
      DistinctContents(items)
    }
  }

  /** Keeping the first `maxItems` items when there are more. */
  function EnforceLimit(items: seq<Item>, maxItems: int): (r: seq<Item>)
    requires maxItems >= 0
    ensures |r| == Min(|items|, maxItems)
    ensures r == items[..|r|]
  {
    if |items| > maxItems then items[..maxItems] else items
  }

  /** Building a history rejects a non-positive capacity and keeps only the
      first `maxItems` of the given items. */
  function NewHistory(items: seq<Item>, maxItems: int): (r: Result<History, string>)
    requires forall i :: 0 <= i < |items| ==> items[i].Valid()
    ensures r.Success? <==> maxItems > 0
    ensures r.Success? ==>
      && r.value.Valid()
      && r.value.maxItems == maxItems
      && |r.value.items| == Min(|items|, maxItems)
      && r.value.items == items[..|r.value.items|]
  {
    if maxItems <= 0 then Failure("Max items must be positive")
    else Success(History(EnforceLimit(items, maxItems), maxItems))
  }

  /** The items whose content differs from `content`, in their order. */
  function Without(items: seq<Item>, content: string): (r: seq<Item>)
    ensures forall i :: 0 <= i < |r| ==> r[i].content != content
    ensures forall x :: x in r <==> x in items && x.content != content
  {
    var r := Filter(items, (it: Item) => it.content != content);
    assert forall i :: 0 <= i < |r| ==> r[i] in r;
    r
  }

  /** The kept items stay in their original order. */
  lemma WithoutIsSubsequence(items: seq<Item>, content: string)
    ensures IsSubsequence(Without(items, content), items)
  {
    FilterIsSubsequence(items, (it: Item) => it.content != content);
  }

  /** Nothing is dropped when no item carries the content. */
  lemma WithoutAbsent(items: seq<Item>, content: string)
    requires forall i :: 0 <= i < |items| ==> items[i].content != content
    ensures Without(items, content) == items
  {
    FilterKeepsAll(items, (it: Item) => it.content != content);
  }

  /** The kept items are all valid when the originals are. */
  lemma WithoutKeepsValid(items: seq<Item>, content: string)
    requires forall i :: 0 <= i < |items| ==> items[i].Valid()
    ensures forall i :: 0 <= i < |Without(items, content)| ==> Without(items, content)[i].Valid()
  {
    var kept := Without(items, content);
    forall i | 0 <= i < |kept| ensures kept[i].Valid() {
      assert kept[i] in kept;
      var k :| 0 <= k < |items| && items[k] == kept[i];
    }
  }

  /** Cutting a list with a new head to a positive capacity keeps the head
      and cuts the rest to one less. */
  lemma EnforceLimitFront(x: Item, rest: seq<Item>, maxItems: int)
    requires maxItems > 0
    ensures EnforceLimit([x] + rest, maxItems) == [x] + rest[..Min(|rest|, maxItems - 1)]
  {
  }

  /** Recording a copied text: move it to the front as a fresh item, drop any
      older entry with the same content, and cut the tail to the capacity. */
  function AddItem(h: History, content: string, now: Timestamp): (r: History)
    requires h.Valid()
    ensures r.Valid()
    ensures r.maxItems == h.maxItems
    ensures content == "" ==> r == h
    ensures content != "" ==>
      && |r.items| >= 1
      && r.items[0] == Item(content, now)
      && (forall i :: 1 <= i < |r.items| ==> r.items[i].content != content)
      && |r.items| == Min(|Without(h.items, content)| + 1, h.maxItems)
      && r.items[1..] == Without(h.items, content)[..|r.items| - 1]
  {
    if content == "" then h
    else
      var kept := Without(h.items, content);
      WithoutKeepsValid(h.items, content);
      var items := EnforceLimit([Item(content, now)] + kept, h.maxItems);
      EnforceLimitFront(Item(content, now), kept, h.maxItems);
      History(items, h.maxItems)
  }

  /** Emptying the history keeps its capacity. */
  function Clear(h: History): (r: History)
    ensures r.items == [] && r.maxItems == h.maxItems
  {
    h.(items := [])
  }

  /** Removing the item at `index`; the flag says whether the index was valid. */
  function RemoveItemByIndex(h: History, index: int): (r: (bool, History))
    ensures r.0 <==> 0 <= index < |h.items|
    ensures !r.0 ==> r.1 == h
    ensures r.0 ==>
      && r.1.maxItems == h.maxItems
      && |r.1.items| == |h.items| - 1
      && r.1.items == h.items[..index] + h.items[index + 1..]
  {
    if 0 <= index < |h.items| then (true, h.(items := h.items[..index] + h.items[index + 1..]))
    else (false, h)
  }

  /** The contents of a list of items, in order. */
  function Contents(items: seq<Item>): (r: seq<string>)
    ensures |r| == |items|
    ensures forall i :: 0 <= i < |r| ==> r[i] == items[i].content
  {
    seq(|items|, i requires 0 <= i < |items| => items[i].content)
  }

  /** The contents of the history's items, in history order. */
  function ContentList(h: History): (r: seq<string>)
    ensures |r| == |h.items|
    ensures forall i :: 0 <= i < |r| ==> r[i] == h.items[i].content
  {
    Contents(h.items)
  }

  /** Projecting to contents keeps a subsequence a subsequence. */
  lemma {:induction false} ContentsKeepSubsequence(a: seq<Item>, b: seq<Item>)
    requires IsSubsequence(a, b)
    ensures IsSubsequence(Contents(a), Contents(b))
    decreases |b|
  {
    if b != [] {
      assert Contents(b)[1..] == Contents(b[1..]);
      if a != [] && a[0] == b[0] && IsSubsequence(a[1..], b[1..]) {
        ContentsKeepSubsequence(a[1..], b[1..]);
        assert Contents(a)[1..] == Contents(a[1..]);
      } else {
        ContentsKeepSubsequence(a, b[1..]);
      }
    }
  }

  /** A content is listed exactly when some item carries it. */
  lemma ContentListMembership(h: History, c: string)
    ensures c in ContentList(h) <==> exists i :: 0 <= i < |h.items| && h.items[i].content == c
  {
    var cs := ContentList(h);
    if c in cs {
      var k :| 0 <= k < |cs| && cs[k] == c;
      assert h.items[k].content == c;
    }
  }

  /** Adding keeps the contents pairwise distinct. */
  lemma AddItemKeepsDistinct(h: History, content: string, now: Timestamp)
    requires h.Valid() && h.Distinct()
    ensures AddItem(h, content, now).Distinct()
  {
    if content != "" {
      var r := AddItem(h, content, now);
      var kept := Without(h.items, content);
      WithoutIsSubsequence(h.items, content);
      SubsequenceDistinct(kept, h.items);
      var tail := r.items[1..];
      assert tail == kept[..|tail|];
      forall i, j | 0 <= i < j < |r.items|
        ensures r.items[i].content != r.items[j].content
      {
        if i > 0 {
          assert r.items[i] == kept[i - 1] && r.items[j] == kept[j - 1];
        }
      }
    }
  }

  /** A subsequence of a content-distinct sequence is content-distinct. */
  lemma SubsequenceDistinct(a: seq<Item>, b: seq<Item>)
    requires IsSubsequence(a, b) && DistinctContents(b)
    ensures DistinctContents(a)
  {
    forall i, j | 0 <= i < j < |a| ensures a[i].content != a[j].content {
      SubsequenceKeepsDistinct(a, b, i, j);
    }
  }

  /** Two positions of a subsequence of a content-distinct sequence carry
      different contents. */
  lemma {:induction false} SubsequenceKeepsDistinct(a: seq<Item>, b: seq<Item>, i: int, j: int)
    requires IsSubsequence(a, b) && DistinctContents(b)
    requires 0 <= i < j < |a|
    ensures a[i].content != a[j].content
    decreases |b|
  {
    if a[0] == b[0] && IsSubsequence(a[1..], b[1..]) {
      if i == 0 {
        assert a[j] in b[1..] by { SubsequenceMembers(a[1..], b[1..], j - 1); }
        var k :| 0 <= k < |b[1..]| && b[1..][k] == a[j];
        assert b[k + 1] == a[j];
      } else {
        SubsequenceKeepsDistinct(a[1..], b[1..], i - 1, j - 1);
      }
    } else {
      SubsequenceKeepsDistinct(a, b[1..], i, j);
    }
  }

  /** Every element of a subsequence occurs in the whole sequence. */
  lemma {:induction false} SubsequenceMembers<T>(a: seq<T>, b: seq<T>, i: int)
    requires IsSubsequence(a, b) && 0 <= i < |a|
    ensures a[i] in b
    decreases |b|
  {
    if a[0] == b[0] && IsSubsequence(a[1..], b[1..]) {
      if i > 0 {
        SubsequenceMembers(a[1..], b[1..], i - 1);
      }
    } else {
      SubsequenceMembers(a, b[1..], i);
    }
  }

  /** Removing an item keeps the remaining items in their order, and the
      removed item is the only one missing. */
  lemma RemoveItemKeepsOrder(h: History, index: int)
    requires 0 <= index < |h.items|
    ensures IsSubsequence(RemoveItemByIndex(h, index).1.items, h.items)
    ensures multiset(RemoveItemByIndex(h, index).1.items) + multiset{h.items[index]} == multiset(h.items)
  {
    DeleteAtIsSubsequence(h.items, index);
    var s := h.items;
    assert s == s[..index] + [s[index]] + s[index + 1..];
  }

  /** Removal keeps the history invariant and distinctness. */
  lemma RemoveItemKeepsInvariant(h: History, index: int)
    requires h.Valid()
    ensures RemoveItemByIndex(h, index).1.Valid()
    ensures h.Distinct() ==> RemoveItemByIndex(h, index).1.Distinct()
  {
    if 0 <= index < |h.items| {
      var r := RemoveItemByIndex(h, index).1;
      forall i | 0 <= i < |r.items| ensures r.items[i].Valid() {
        if i >= index { assert r.items[i] == h.items[i + 1]; }
      }
      if h.Distinct() {
        forall i, j | 0 <= i < j < |r.items| ensures r.items[i].content != r.items[j].content {
          var i' := if i < index then i else i + 1;
          var j' := if j < index then j else j + 1;
          assert r.items[i] == h.items[i'] && r.items[j] == h.items[j'];
        }
      }
    }
  }

  /** Adding the same text twice in a row leaves one entry for it, at the
      front, carrying the second timestamp. */
  lemma AddTwiceKeepsOneEntry(h: History, c: string, t1: Timestamp, t2: Timestamp)
    requires h.Valid() && c != ""
    ensures var r := AddItem(AddItem(h, c, t1), c, t2);
      && r.items[0] == Item(c, t2)
      && forall i :: 1 <= i < |r.items| ==> r.items[i].content != c
  {
  }

  /** Adding a text the history does not hold puts it in front of all items. */
  lemma AddAbsent(h: History, c: string, t: Timestamp)
    requires h.Valid() && c != ""
    requires forall i :: 0 <= i < |h.items| ==> h.items[i].content != c
    ensures |h.items| < h.maxItems ==> AddItem(h, c, t) == History([Item(c, t)] + h.items, h.maxItems)
    ensures |h.items| == h.maxItems ==>
      AddItem(h, c, t) == History([Item(c, t)] + h.items[..|h.items| - 1], h.maxItems)
  {
    WithoutAbsent(h.items, c);
  }

  /** The history after the clipboard delivers `texts` in order, all at time `t`. */
  function Replay(h: History, texts: seq<string>, t: Timestamp): (r: History)
    requires h.Valid()
    ensures r.Valid() && r.maxItems == h.maxItems
    decreases |texts|
  {
    if texts == [] then h else Replay(AddItem(h, texts[0], t), texts[1..], t)
  }

  /** The first two steps of the eviction scenario. */
  lemma EvictionFirstSteps(t: Timestamp)
    ensures AddItem(History([], 3), "a", t) == History([Item("a", t)], 3)
    ensures AddItem(History([Item("a", t)], 3), "b", t) == History([Item("b", t), Item("a", t)], 3)
  {
    AddAbsent(History([], 3), "a", t);
    AddAbsent(History([Item("a", t)], 3), "b", t);
  }

  /** The third step fills the history to its capacity. */
  lemma EvictionThirdStep(t: Timestamp)
    ensures AddItem(History([Item("b", t), Item("a", t)], 3), "c", t)
         == History([Item("c", t), Item("b", t), Item("a", t)], 3)
  {
    AddAbsent(History([Item("b", t), Item("a", t)], 3), "c", t);
  }

  /** The fourth step evicts the oldest text. */
  lemma EvictionFourthStep(t: Timestamp)
    ensures AddItem(History([Item("c", t), Item("b", t), Item("a", t)], 3), "d", t)
         == History([Item("d", t), Item("c", t), Item("b", t)], 3)
  {
    var h3 := History([Item("c", t), Item("b", t), Item("a", t)], 3);
    AddAbsent(h3, "d", t);
    assert h3.items[..2] == [Item("c", t), Item("b", t)];
  }

  /** Replaying the eviction scenario from its third history on. */
  lemma EvictionReplayFromThird(t: Timestamp)
    ensures Replay(History([Item("c", t), Item("b", t), Item("a", t)], 3), ["d"], t)
         == History([Item("d", t), Item("c", t), Item("b", t)], 3)
  {
    EvictionFourthStep(t);
    assert ["d"][1..] == [];
  }

  /** Replaying the eviction scenario from its second history on. */
  lemma EvictionReplayFromSecond(t: Timestamp)
    ensures Replay(History([Item("b", t), Item("a", t)], 3), ["c", "d"], t)
         == History([Item("d", t), Item("c", t), Item("b", t)], 3)
  {
    EvictionThirdStep(t);
    EvictionReplayFromThird(t);
    assert ["c", "d"][1..] == ["d"];
  }

  /** Replaying the eviction scenario from its first history on. */
  lemma EvictionReplayFromFirst(t: Timestamp)
    ensures Replay(History([Item("a", t)], 3), ["b", "c", "d"], t)
         == History([Item("d", t), Item("c", t), Item("b", t)], 3)
  {
    EvictionFirstSteps(t);
    EvictionReplayFromSecond(t);
    assert ["b", "c", "d"][1..] == ["c", "d"];
  }

  /** What the eviction scenario's final history displays. */
  lemma EvictionContents(t: Timestamp)
    ensures ContentList(History([Item("d", t), Item("c", t), Item("b", t)], 3)) == ["d", "c", "b"]
  {
    var r := ContentList(History([Item("d", t), Item("c", t), Item("b", t)], 3));
    assert r[0] == "d" && r[1] == "c" && r[2] == "b";
  }

  /** Capacity three, texts "a" to "d" copied in turn: the newest three remain,
      newest first. */
  lemma EvictionScenario(t: Timestamp)
    ensures ContentList(Replay(History([], 3), ["a", "b", "c", "d"], t)) == ["d", "c", "b"]
  {
    var h4 := History([Item("d", t), Item("c", t), Item("b", t)], 3);
    EvictionFirstSteps(t);
    EvictionReplayFromFirst(t);
    assert ["a", "b", "c", "d"][1..] == ["b", "c", "d"];
    assert Replay(History([], 3), ["a", "b", "c", "d"], t) == h4;
    EvictionContents(t);
  }

  /** Re-copying an older text moves it to the front without duplicating it. */
  lemma RecopyScenario(t: Timestamp, t': Timestamp)
    ensures
      var h := AddItem(History([Item("b", t), Item("a", t)], DefaultMaxItems), "a", t');
      ContentList(h) == ["a", "b"]
  {
    var items := [Item("b", t), Item("a", t)];
    assert items[1..] == [Item("a", t)];
    assert items[1..][1..] == [];
    assert Without(items, "a") == [Item("b", t)];
  }
}
