/** Levenshtein (edit) distance and approximate substring occurrence, the
    predicate the fuzzy matcher decides. */
module Levenshtein {
  import opened Text

  function Min3(a: int, b: int, c: int): (m: int)
    ensures m <= a && m <= b && m <= c
    ensures m == a || m == b || m == c
  {
    if a <= b && a <= c then a else if b <= c then b else c
  }

  function Max(a: int, b: int): int {
    if a >= b then a else b
  }

  /** The least number of single-character insertions, deletions and
      substitutions turning `a` into `b`. */
  function Distance(a: string, b: string): (d: nat)
    ensures d <= Max(|a|, |b|)
    ensures d >= |a| - |b| && d >= |b| - |a|
    decreases |a| + |b|
  {
    if |a| == 0 then |b|
    else if |b| == 0 then |a|
    else Min3(Distance(a[1..], b) + 1,
              Distance(a, b[1..]) + 1,
              Distance(a[1..], b[1..]) + (if a[0] == b[0] then 0 else 1))
  }

  /** A string is at distance zero from itself. */
  lemma {:induction false} DistanceToSelf(a: string)
    ensures Distance(a, a) == 0
    decreases |a|
  {
    if |a| > 0 {
      DistanceToSelf(a[1..]);
    }
  }

  /** Distance zero means the strings are equal. */
  lemma {:induction false} DistanceZeroMeansEqual(a: string, b: string)
    requires Distance(a, b) == 0
    ensures a == b
    decreases |a| + |b|
  {
    if |a| > 0 && |b| > 0 {
      DistanceZeroMeansEqual(a[1..], b[1..]);
      assert a == [a[0]] + a[1..] && b == [b[0]] + b[1..];
    }
  }

  /** How many characters of `s` belong to `cs`. */
  function CountIn(cs: set<char>, s: string): (n: nat)
    ensures n <= |s|
    decreases |s|
  {
    if s == [] then 0 else (if s[0] in cs then 1 else 0) + CountIn(cs, s[1..])
  }

  /** One edit changes the number of characters from any set by at most one,
      so the distance bounds every such difference. */
  lemma {:induction false} DistanceBoundsCountGap(cs: set<char>, a: string, b: string)
    ensures Distance(a, b) >= CountIn(cs, a) - CountIn(cs, b)
    ensures Distance(a, b) >= CountIn(cs, b) - CountIn(cs, a)
    decreases |a| + |b|
  {
    if |a| > 0 && |b| > 0 {
      DistanceBoundsCountGap(cs, a[1..], b);
      DistanceBoundsCountGap(cs, a, b[1..]);
      DistanceBoundsCountGap(cs, a[1..], b[1..]);
    }
  }

  /** Some stretch of `s` is within distance `k` of `q`: the predicate the
      external approximate-search library answers. */
  predicate NearMatch(q: string, s: string, k: nat) {
    exists i, j :: 0 <= i <= j <= |s| && Distance(q, s[i..j]) <= k
  }

  /** An exact occurrence is a match at distance zero, whatever the tolerance. */
  lemma ExactOccurrenceIsNearMatch(q: string, s: string, k: nat)
    requires IsSubstring(q, s)
    ensures NearMatch(q, s, k)
  {
    var i :| 0 <= i <= |s| - |q| && OccursAt(q, s, i);
    DistanceToSelf(q);
    assert Distance(q, s[i..i + |q|]) == 0;
  }

  /** With tolerance zero, approximate matching is exact occurrence. */
  lemma NearMatchZeroIsOccurrence(q: string, s: string)
    ensures NearMatch(q, s, 0) <==> IsSubstring(q, s)
  {
    if NearMatch(q, s, 0) {
      var i, j :| 0 <= i <= j <= |s| && Distance(q, s[i..j]) <= 0;
      DistanceZeroMeansEqual(q, s[i..j]);
      assert OccursAt(q, s, i);
    }
    if IsSubstring(q, s) {
      ExactOccurrenceIsNearMatch(q, s, 0);
    }
  }
}
