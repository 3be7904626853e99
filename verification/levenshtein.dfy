/** `levenshtein_distance`: the edit distance (single-character insertions,
    deletions and substitutions) computed with two rows of the dynamic
    programming table. `EditDistance` is the recursive definition the
    row-by-row method is proved against. */
module Levenshtein {

  function Min3(a: nat, b: nat, c: nat): (r: nat)
    ensures r <= a && r <= b && r <= c
    ensures r == a || r == b || r == c
  {
    if a <= b && a <= c then a else if b <= c then b else c
  }

  /** The edit distance between `a` and `b`, by recursion on the last
      characters: drop one from `a`, drop one from `b`, or match/substitute. */
  function EditDistance(a: string, b: string): nat
    decreases |a| + |b|
  {
    if |a| == 0 then |b|
    else if |b| == 0 then |a|
    else
      var a' := a[..|a| - 1];
      var b' := b[..|b| - 1];
      Min3(EditDistance(a', b) + 1,
           EditDistance(a, b') + 1,
           EditDistance(a', b') + (if a[|a| - 1] == b[|b| - 1] then 0 else 1))
  }

  /** One cell of the table in terms of its three neighbours, in the
      prefix form the row-by-row method uses. */
  lemma EditDistanceCell(s1: string, s2: string, i: nat, j: nat)
    requires i < |s1| && j < |s2|
    ensures EditDistance(s1[..i + 1], s2[..j + 1]) ==
      Min3(EditDistance(s1[..i], s2[..j + 1]) + 1,
           EditDistance(s1[..i + 1], s2[..j]) + 1,
           EditDistance(s1[..i], s2[..j]) + (if s1[i] == s2[j] then 0 else 1))
  {
    var a := s1[..i + 1];
    var b := s2[..j + 1];
    assert a[..|a| - 1] == s1[..i];
    assert b[..|b| - 1] == s2[..j];
  }

  /** The source's algorithm: make `s1` the longer string, then keep one
      row of the table, `previous[j]` being the distance between the first
      `i` characters of `s1` and the first `j` characters of `s2`. */
  method LevenshteinDistance(s1: string, s2: string) returns (d: nat)
    ensures d == EditDistance(s1, s2)
    ensures d == EditDistance(s2, s1)
    decreases if |s1| < |s2| then 1 else 0
  {
    EditDistanceSymmetric(s1, s2);
    if |s1| < |s2| {
      d := LevenshteinDistance(s2, s1);
      return;
    }
    if |s2| == 0 {
      return |s1|;
    }
    var previous: seq<nat> := seq(|s2| + 1, j => j);
    assert s1[..0] == "";
    var i := 0;
    while i < |s1|
      invariant 0 <= i <= |s1|
      invariant |previous| == |s2| + 1
      invariant forall j :: 0 <= j <= |s2| ==> previous[j] == EditDistance(s1[..i], s2[..j])
    {
      previous := NextRow(s1, s2, i, previous);
      i := i + 1;
    }
    assert s1[..|s1|] == s1 && s2[..|s2|] == s2;
    d := previous[|s2|];
  }

  /** The inner loop: row `i + 1` of the table from row `i`. */
  method NextRow(s1: string, s2: string, i: nat, previous: seq<nat>) returns (current: seq<nat>)
    requires i < |s1| && |previous| == |s2| + 1
    requires forall j :: 0 <= j <= |s2| ==> previous[j] == EditDistance(s1[..i], s2[..j])
    ensures |current| == |s2| + 1
    ensures forall j :: 0 <= j <= |s2| ==> current[j] == EditDistance(s1[..i + 1], s2[..j])
  {
    var c1 := s1[i];
    current := [i + 1];
    assert s2[..0] == "";
    var j := 0;
    while j < |s2|
      invariant 0 <= j <= |s2|
      invariant |current| == j + 1
      invariant forall k :: 0 <= k <= j ==> current[k] == EditDistance(s1[..i + 1], s2[..k])
    {
      var insertions := previous[j + 1] + 1;
      var deletions := current[j] + 1;
      var substitutions := previous[j] + (if c1 != s2[j] then 1 else 0);
      EditDistanceCell(s1, s2, i, j);
      current := current + [Min3(insertions, deletions, substitutions)];
      j := j + 1;
    }
  }

  /** Swapping the arguments does not change the distance. */
  lemma {:induction false} EditDistanceSymmetric(a: string, b: string)
    ensures EditDistance(a, b) == EditDistance(b, a)
    decreases |a| + |b|
  {
    if |a| > 0 && |b| > 0 {
      var a' := a[..|a| - 1];
      var b' := b[..|b| - 1];
      EditDistanceSymmetric(a', b);
      EditDistanceSymmetric(a, b');
      EditDistanceSymmetric(a', b');
    }
  }

  /** Distance to the empty string is the length, from either side. */
  lemma EditDistanceToEmpty(s: string)
    ensures EditDistance(s, "") == |s|
    ensures EditDistance("", s) == |s|
  {
  }

  /** The distance is zero exactly for equal strings. */
  lemma {:induction false} EditDistanceZeroIff(a: string, b: string)
    ensures EditDistance(a, b) == 0 <==> a == b
    decreases |a| + |b|
  {
    if |a| > 0 && |b| > 0 {
      var a' := a[..|a| - 1];
      var b' := b[..|b| - 1];
      EditDistanceZeroIff(a', b');
      assert a == a' + [a[|a| - 1]];
      assert b == b' + [b[|b| - 1]];
      if a == b {
        assert a' == b';
      }
    }
  }

  /** Editing never costs more than rewriting the longer string. */
  lemma {:induction false} EditDistanceUpperBound(a: string, b: string)
    ensures EditDistance(a, b) <= if |a| < |b| then |b| else |a|
    decreases |a| + |b|
  {
    if |a| > 0 && |b| > 0 {
      EditDistanceUpperBound(a[..|a| - 1], b[..|b| - 1]);
    }
  }

  /** Every edit changes the length by at most one. */
  lemma {:induction false} EditDistanceLowerBound(a: string, b: string)
    ensures EditDistance(a, b) >= |a| - |b| && EditDistance(a, b) >= |b| - |a|
    decreases |a| + |b|
  {
    if |a| > 0 && |b| > 0 {
      EditDistanceLowerBound(a[..|a| - 1], b);
      EditDistanceLowerBound(a, b[..|b| - 1]);
      EditDistanceLowerBound(a[..|a| - 1], b[..|b| - 1]);
    }
  }
}
