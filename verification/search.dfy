/** The two search adapters: case-normalised substring filtering and the
    approximate matcher with its short-query carve-out. */
module Search {
  import opened Text
  import opened Seqs
  import opened Levenshtein
  import opened Clipboard

  /** The configured search port: the plain substring adapter or the
      approximate one with its maximum edit distance. */
  datatype Matcher =
    | SimpleMatcher(caseSensitive: bool)
    | FuzzyMatcher(maxLDist: nat, caseSensitive: bool)

  /** Constructor defaults of the two adapters. */
  const DefaultSimple: Matcher := SimpleMatcher(false)
  const DefaultFuzzy: Matcher := FuzzyMatcher(1, false)

  /** Queries this short (after normalisation) are only matched exactly. */
  const ShortQueryLength: nat := 2

  /** The text compared: verbatim when case-sensitive, lower-cased otherwise. */
  function Normalize(caseSensitive: bool, s: string): (r: string)
    ensures |r| == |s|
    ensures caseSensitive ==> r == s
    ensures !caseSensitive ==> r == Lower(s)
  {
    if caseSensitive then s else Lower(s)
  }

  /** Whether one item passes the filter for `query`. */
  function IsMatch(m: Matcher, item: Item, query: string): (r: bool)
    ensures query == "" ==> r
    ensures query != "" && (m.SimpleMatcher? || |query| <= ShortQueryLength) ==>
      (r <==> IsSubstring(Normalize(m.caseSensitive, query), Normalize(m.caseSensitive, item.content)))
    ensures query != "" && m.FuzzyMatcher? && |query| > ShortQueryLength ==>
      (r <==> NearMatch(Normalize(m.caseSensitive, query), Normalize(m.caseSensitive, item.content), m.maxLDist))
  {
    if query == "" then true
    else
      var content := Normalize(m.caseSensitive, item.content);
      var q := Normalize(m.caseSensitive, query);
      match m
      case SimpleMatcher(_) => IsSubstring(q, content)
      case FuzzyMatcher(maxLDist, _) =>
        if |q| <= ShortQueryLength then IsSubstring(q, content) else NearMatch(q, content, maxLDist)
  }

  /** The items that match `query`, in their original order; an empty query
      returns every item. */
  function Search(m: Matcher, items: seq<Item>, query: string): (r: seq<Item>)
    ensures query == "" ==> r == items
    ensures |r| <= |items|
    ensures forall x :: x in r <==> x in items && IsMatch(m, x, query)
    ensures forall x :: multiset(r)[x] == if IsMatch(m, x, query) then multiset(items)[x] else 0
  {
    if query == "" then
      FilterKeepsAll(items, (it: Item) => IsMatch(m, it, query));
      items
    else Filter(items, (it: Item) => IsMatch(m, it, query))
  }

  /** The result of a search is a subsequence of the searched items. */
  lemma SearchKeepsOrder(m: Matcher, items: seq<Item>, query: string)
    ensures IsSubsequence(Search(m, items, query), items)
  {
    if query == "" {
      SubsequenceReflexive(items);
    } else {
      FilterIsSubsequence(items, (it: Item) => IsMatch(m, it, query));
    }
  }

  /** An exact occurrence of the normalised query matches under either adapter. */
  lemma ExactOccurrenceMatches(m: Matcher, item: Item, query: string)
    requires IsSubstring(Normalize(m.caseSensitive, query), Normalize(m.caseSensitive, item.content))
    ensures IsMatch(m, item, query)
  {
    if m.FuzzyMatcher? && |query| > ShortQueryLength {
      ExactOccurrenceIsNearMatch(Normalize(m.caseSensitive, query), Normalize(m.caseSensitive, item.content), m.maxLDist);
    }
  }

  /** The approximate adapter accepts every item the substring adapter accepts
      under the same case mode. */
  lemma FuzzyAcceptsSimpleMatches(k: nat, cs: bool, item: Item, query: string)
    requires IsMatch(SimpleMatcher(cs), item, query)
    ensures IsMatch(FuzzyMatcher(k, cs), item, query)
  {
    if query != "" {
      ExactOccurrenceMatches(FuzzyMatcher(k, cs), item, query);
    }
  }

  /** With a maximum distance of zero the approximate adapter is the
      substring adapter. */
  lemma FuzzyZeroIsSimple(cs: bool, item: Item, query: string)
    ensures IsMatch(FuzzyMatcher(0, cs), item, query) <==> IsMatch(SimpleMatcher(cs), item, query)
  {
    NearMatchZeroIsOccurrence(Normalize(cs, query), Normalize(cs, item.content));
  }

  /** Lower-casing both strings never increases their distance. */
  lemma {:induction false} LowerShrinksDistance(a: string, b: string)
    ensures Distance(Lower(a), Lower(b)) <= Distance(a, b)
    decreases |a| + |b|
  {
    if |a| > 0 && |b| > 0 {
      assert Lower(a)[1..] == Lower(a[1..]);
      assert Lower(b)[1..] == Lower(b[1..]);
      LowerShrinksDistance(a[1..], b);
      LowerShrinksDistance(a, b[1..]);
      LowerShrinksDistance(a[1..], b[1..]);
    }
  }

  /** An approximate occurrence survives lower-casing both strings. */
  lemma LowerKeepsNearMatch(q: string, s: string, k: nat)
    requires NearMatch(q, s, k)
    ensures NearMatch(Lower(q), Lower(s), k)
  {
    var i, j :| 0 <= i <= j <= |s| && Distance(q, s[i..j]) <= k;
    assert Lower(s)[i..j] == Lower(s[i..j]);
    LowerShrinksDistance(q, s[i..j]);
  }

  /** Switching case sensitivity off never loses a match. */
  lemma InsensitiveAcceptsSensitiveMatches(m: Matcher, item: Item, query: string)
    requires m.caseSensitive && IsMatch(m, item, query)
    ensures IsMatch(m.(caseSensitive := false), item, query)
  {
    if query != "" {
      if m.SimpleMatcher? || |query| <= ShortQueryLength {
        LowerPreservesSubstring(query, item.content);
      } else {
        LowerKeepsNearMatch(query, item.content, m.maxLDist);
      }
    }
  }

  /** Lower-casing the strings of the adapter's own test cases. */
  lemma LowerTestStrings()
    ensures Lower("Hello World") == "hello world"
    ensures Lower("Hello") == "hello"
    ensures Lower("H") == "h" && Lower("He") == "he" && Lower("XY") == "xy"
    ensures Lower("Helo") == "helo" && Lower("Wrld") == "wrld" && Lower("Hxllo") == "hxllo"
    ensures Lower("Hexo") == "hexo"
  {
  }

  /** One and two character queries are plain substring tests. */
  lemma ShortQueriesAreExact(t: Timestamp)
    ensures IsMatch(DefaultFuzzy, Item("Hello World", t), "H")
    ensures IsMatch(DefaultFuzzy, Item("Hello World", t), "He")
    ensures !IsMatch(DefaultFuzzy, Item("Hello World", t), "XY")
  {
    var s := "hello world";
    LowerTestStrings();
    assert OccursAt("h", s, 0) && OccursAt("he", s, 0);
    assert forall i :: 0 <= i < |s| ==> s[i] != 'x';
    forall i | 0 <= i <= |s| - 2 ensures !OccursAt("xy", s, i) {
      assert s[i..i + 2][0] == s[i];
    }
  }

  /** A longer query that occurs exactly matches. */
  lemma ExactLongQueryMatches(t: Timestamp)
    ensures IsMatch(DefaultFuzzy, Item("Hello World", t), "Hello")
  {
    LowerTestStrings();
    assert OccursAt("hello", "hello world", 0);
    ExactOccurrenceIsNearMatch("hello", "hello world", 1);
  }

  /** A query missing one letter still matches: "Helo". */
  lemma MissingLetterMatches(t: Timestamp)
    ensures IsMatch(DefaultFuzzy, Item("Hello World", t), "Helo")
  {
    var s := "hello world";
    LowerTestStrings();
    assert s[0..5] == "hello";
    OneInsertionApart("helo", "hello", "lo", 2);
    assert Distance("helo", s[0..5]) <= 1;
  }

  /** A query missing an inner letter of the second word matches: "Wrld". */
  lemma MissingInnerLetterMatches(t: Timestamp)
    ensures IsMatch(DefaultFuzzy, Item("Hello World", t), "Wrld")
  {
    var s := "hello world";
    LowerTestStrings();
    assert s[6..11] == "world";
    OneInsertionApart("wrld", "world", "rld", 1);
    assert Distance("wrld", s[6..11]) <= 1;
  }

  /** A query with one wrong letter still matches: "Hxllo". */
  lemma WrongLetterMatches(t: Timestamp)
    ensures IsMatch(DefaultFuzzy, Item("Hello World", t), "Hxllo")
  {
    var s := "hello world";
    LowerTestStrings();
    assert s[0..5] == "hello";
    OneSubstitutionApart("hxllo", "hello", "llo", 1);
    assert Distance("hxllo", s[0..5]) <= 1;
  }

  /** `b` is `a` with one character inserted at `k`, both sharing `suffix`. */
  lemma {:induction false} OneInsertionApart(a: string, b: string, suffix: string, k: nat)
    requires k < |b| && |a| == |b| - 1
    requires a[..k] == b[..k] && a[k..] == suffix && b[k + 1..] == suffix
    ensures Distance(a, b) <= 1
    decreases k
  {
    if k == 0 {
      DistanceToSelf(suffix);
      assert b[1..] == suffix;
      assert a == suffix;
    } else {
      assert a[0] == b[0];
      OneInsertionApart(a[1..], b[1..], suffix, k - 1);
    }
  }

  /** `b` is `a` with the character at `k` replaced, both sharing `suffix`. */
  lemma {:induction false} OneSubstitutionApart(a: string, b: string, suffix: string, k: nat)
    requires k < |a| && |a| == |b|
    requires a[..k] == b[..k] && a[k + 1..] == suffix && b[k + 1..] == suffix
    ensures Distance(a, b) <= 1
    decreases k
  {
    if k == 0 {
      DistanceToSelf(suffix);
      assert a[1..] == suffix && b[1..] == suffix;
    } else {
      assert a[0] == b[0];
      OneSubstitutionApart(a[1..], b[1..], suffix, k - 1);
    }
  }

  /** Two edits are too many under the default tolerance: "Hexo" does not
      match "Hello". */
  lemma HexoIsTooFar(t: Timestamp)
    ensures !IsMatch(DefaultFuzzy, Item("Hello", t), "Hexo")
  {
    var s := "hello";
    var q := "hexo";
    LowerTestStrings();
    forall i, j | 0 <= i <= j <= |s| ensures Distance(q, s[i..j]) > 1 {
      if j - i >= 3 {
        if i == 0 && j == 3 {
          HexoFarFromHel();
        } else {
          HexoFarFromDoubleL(i, j);
        }
      }
    }
  }

  /** "hel" holds neither 'x' nor 'o', both of which "hexo" holds. */
  lemma HexoFarFromHel()
    ensures Distance("hexo", "hello"[0..3]) > 1
  {
    var q := "hexo";
    var xo := {'x', 'o'};
    assert "hello"[0..3] == "hel";
    assert CountIn(xo, "hel") == 0 by { assert "hel"[1..] == "el" && "el"[1..] == "l"; }
    assert CountIn(xo, q) == 2 by {
      assert q[1..] == "exo" && q[1..][1..] == "xo" && q[1..][1..][1..] == "o";
    }
    DistanceBoundsCountGap(xo, q, "hel");
  }

  /** A longer stretch of "hello" holds two letters 'l', which "hexo" lacks. */
  lemma HexoFarFromDoubleL(i: int, j: int)
    requires 0 <= i <= j <= 5 && j - i >= 3 && !(i == 0 && j == 3)
    ensures Distance("hexo", "hello"[i..j]) > 1
  {
    var q := "hexo";
    var ls := {'l'};
    assert CountIn(ls, q) == 0 by {
      assert q[1..] == "exo" && q[1..][1..] == "xo" && q[1..][1..][1..] == "o";
    }
    LetterLCount(i, j);
    DistanceBoundsCountGap(ls, q, "hello"[i..j]);
  }

  /** Every stretch of "hello" of length three or more, other than "hel",
      holds both of its letters 'l'. */
  lemma LetterLCount(i: int, j: int)
    requires 0 <= i <= j <= 5 && j - i >= 3 && !(i == 0 && j == 3)
    ensures CountIn({'l'}, "hello"[i..j]) >= 2
  {
    var s := "hello";
    var ls := {'l'};
    assert CountIn(ls, "llo") == 2 by { assert "llo"[1..] == "lo" && "lo"[1..] == "o" && "o"[1..] == []; }
    assert CountIn(ls, "ll") == 2 by { assert "ll"[1..] == "l" && "l"[1..] == []; }
    if i == 0 {
      assert CountIn(ls, s[i..j]) == CountIn(ls, s[1..j]) by { assert s[i..j][1..] == s[1..j]; }
      assert CountIn(ls, s[1..j]) == CountIn(ls, s[2..j]) by { assert s[1..j][1..] == s[2..j]; }
    } else if i == 1 {
      assert CountIn(ls, s[i..j]) == CountIn(ls, s[2..j]) by { assert s[i..j][1..] == s[2..j]; }
    }
    if j == 5 {
      assert s[2..j] == "llo";
    } else {
      assert s[2..j] == "ll";
    }
  }

  /** With no tolerance at all "Helo" does not match "Hello". */
  lemma ZeroToleranceRejectsTypo(t: Timestamp)
    ensures !IsMatch(FuzzyMatcher(0, false), Item("Hello", t), "Helo")
  {
    var s := "hello";
    LowerTestStrings();
    NearMatchZeroIsOccurrence("helo", s);
    forall i | 0 <= i <= |s| - 4 ensures !OccursAt("helo", s, i) {
      assert s[i..i + 4][3] == s[i + 3];
    }
  }
}
