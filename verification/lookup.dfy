/** The index of existing records by normalised name and
    `find_existing_item`, which looks a name up in it: an exact key first,
    then the closest key by edit distance within a length-dependent bound.
    Python dicts iterate in insertion order, and the fuzzy search breaks
    ties by that order, so a dict is a sequence of key/value pairs. */
module Lookup {
  import opened Wrappers
  import opened Text
  import opened Names
  import opened Levenshtein
  import opened Catalog

  // ---------------------------------------------------------------------
  // Insertion-ordered dictionaries

  function KeysOf<T>(d: seq<(string, T)>): (r: seq<string>)
    ensures |r| == |d|
    ensures forall i :: 0 <= i < |d| ==> r[i] == d[i].0
  {
    seq(|d|, i requires 0 <= i < |d| => d[i].0)
  }

  predicate DistinctKeys<T>(d: seq<(string, T)>) {
    forall i, j :: 0 <= i < j < |d| ==> d[i].0 != d[j].0
  }

  /** `d.get(k)`. */
  function Get<T>(d: seq<(string, T)>, k: string): (r: Option<T>)
    ensures r.None? <==> forall i :: 0 <= i < |d| ==> d[i].0 != k
    ensures DistinctKeys(d) ==> forall i :: 0 <= i < |d| && d[i].0 == k ==> r == Some(d[i].1)
    ensures r.Some? ==> exists i :: 0 <= i < |d| && d[i] == (k, r.value)
    decreases |d|
  {
    if |d| == 0 then None
    else if d[0].0 == k then Some(d[0].1)
    else
      assert forall i :: 1 <= i < |d| ==> d[1..][i - 1] == d[i];
      Get(d[1..], k)
  }

  /** `d[k] = v`: a key already present keeps its place and takes the new
      value; a new key goes to the end. */
  function Put<T>(d: seq<(string, T)>, k: string, v: T): (r: seq<(string, T)>)
    ensures k in KeysOf(d) ==> KeysOf(r) == KeysOf(d)
    ensures k !in KeysOf(d) ==> KeysOf(r) == KeysOf(d) + [k]
    ensures DistinctKeys(d) ==> DistinctKeys(r)
    decreases |d|
  {
    if |d| == 0 then [(k, v)]
    else if d[0].0 == k then
      PutHead(d, k, v);
      [(k, v)] + d[1..]
    else
      var rest := Put(d[1..], k, v);
      PutTail(d, k, rest);
      [d[0]] + rest
  }

  /** The key facts `Put` promises about its result `r`. */
  ghost predicate PutKeys<T>(d: seq<(string, T)>, k: string, r: seq<(string, T)>) {
    && (k in KeysOf(d) ==> KeysOf(r) == KeysOf(d))
    && (k !in KeysOf(d) ==> KeysOf(r) == KeysOf(d) + [k])
    && (DistinctKeys(d) ==> DistinctKeys(r))
  }

  lemma PutHead<T>(d: seq<(string, T)>, k: string, v: T)
    requires |d| > 0 && d[0].0 == k
    ensures PutKeys(d, k, [(k, v)] + d[1..])
  {
    assert [d[0]] + d[1..] == d;
    KeysOfCons(d[0], d[1..]);
    DistinctKeysCons(d[0], d[1..]);
    KeysOfCons((k, v), d[1..]);
    DistinctKeysCons((k, v), d[1..]);
  }

  lemma PutTail<T>(d: seq<(string, T)>, k: string, rest: seq<(string, T)>)
    requires |d| > 0 && d[0].0 != k
    requires PutKeys(d[1..], k, rest)
    ensures PutKeys(d, k, [d[0]] + rest)
  {
    assert [d[0]] + d[1..] == d;
    KeysOfCons(d[0], d[1..]);
    KeysOfCons(d[0], rest);
    PutTailKeys(d[0].0, KeysOf(d[1..]), k, KeysOf(rest));
    if DistinctKeys(d) {
      DistinctKeysCons(d[0], d[1..]);
      DistinctKeysCons(d[0], rest);
    }
  }

  /** The key sequences of `[x] + d` and `[x] + rest`, where `rest` is
      `d` after the assignment of `k`, with `x.0 != k`. */
  lemma PutTailKeys(x: string, tail: seq<string>, k: string, keys: seq<string>)
    requires x != k
    requires k in tail ==> keys == tail
    requires k !in tail ==> keys == tail + [k]
    ensures k in [x] + tail ==> [x] + keys == [x] + tail
    ensures k !in [x] + tail ==> [x] + keys == ([x] + tail) + [k]
    ensures x !in tail ==> x !in keys
  {
  }

  lemma KeysOfCons<T>(x: (string, T), d: seq<(string, T)>)
    ensures KeysOf([x] + d) == [x.0] + KeysOf(d)
  {
  }

  lemma DistinctKeysCons<T>(x: (string, T), d: seq<(string, T)>)
    ensures DistinctKeys([x] + d) <==> x.0 !in KeysOf(d) && DistinctKeys(d)
  {
    if x.0 !in KeysOf(d) && DistinctKeys(d) {
      forall i, j | 0 <= i < j < |d| + 1 ensures ([x] + d)[i].0 != ([x] + d)[j].0 {
        assert ([x] + d)[j] == d[j - 1];
        if i > 0 {
          assert ([x] + d)[i] == d[i - 1];
        } else {
          assert KeysOf(d)[j - 1] == d[j - 1].0;
        }
      }
    }
    if DistinctKeys([x] + d) {
      forall i | 0 <= i < |d| ensures KeysOf(d)[i] != x.0 {
        assert ([x] + d)[0] == x && ([x] + d)[i + 1] == d[i];
      }
      forall i, j | 0 <= i < j < |d| ensures d[i].0 != d[j].0 {
        assert ([x] + d)[i + 1] == d[i] && ([x] + d)[j + 1] == d[j];
      }
    }
  }

  /** After `d[k] = v`, `k` maps to `v` and every other key is unchanged. */
  lemma {:induction false} PutGet<T>(d: seq<(string, T)>, k: string, v: T, k': string)
    ensures Get(Put(d, k, v), k') == if k' == k then Some(v) else Get(d, k')
    decreases |d|
  {
    if |d| > 0 && d[0].0 != k {
      PutGet(d[1..], k, v, k');
    }
  }

  lemma PutGetAll<T>(d: seq<(string, T)>, k: string, v: T)
    ensures forall k' :: Get(Put(d, k, v), k') == if k' == k then Some(v) else Get(d, k')
  {
    forall k' ensures Get(Put(d, k, v), k') == if k' == k then Some(v) else Get(d, k') {
      PutGet(d, k, v, k');
    }
  }

  // ---------------------------------------------------------------------
  // existing_by_name

  /** The key an existing record is indexed under; `""` means not indexed. */
  function KeyOf(e: ExistingItem): string {
    NormalizeName(e.name.GetOr(""))
  }

  /** The non-empty keys of the records, in order, repeats included. */
  function NonEmptyKeys(items: seq<ExistingItem>): (r: seq<string>)
    ensures forall x :: x in r <==> exists i :: 0 <= i < |items| && KeyOf(items[i]) == x && x != ""
    decreases |items|
  {
    if |items| == 0 then []
    else
      var init := items[..|items| - 1];
      assert forall i :: 0 <= i < |init| ==> init[i] == items[i];
      var k := KeyOf(items[|items| - 1]);
      NonEmptyKeys(init) + (if k != "" then [k] else [])
  }

  /** The first occurrence of each element, in order. */
  function FirstOccurrences(s: seq<string>): (r: seq<string>)
    ensures forall x :: x in r <==> x in s
    ensures forall i, j :: 0 <= i < j < |r| ==> r[i] != r[j]
    decreases |s|
  {
    if |s| == 0 then []
    else
      var init := s[..|s| - 1];
      var x := s[|s| - 1];
      assert s == init + [x];
      if x in init then FirstOccurrences(init) else FirstOccurrences(init) + [x]
  }

  /** The last record whose name normalises to the non-empty key `k`. */
  function LastWithKey(items: seq<ExistingItem>, k: string): (r: Option<ExistingItem>)
    ensures r.Some? ==> r.value in items && KeyOf(r.value) == k && k != ""
    decreases |items|
  {
    if |items| == 0 then None
    else if k != "" && KeyOf(items[|items| - 1]) == k then Some(items[|items| - 1])
    else LastWithKey(items[..|items| - 1], k)
  }

  /** The loop that builds `existing_by_name`: every record with a
      non-empty key is stored under it, a later record replacing an earlier
      one with the same key. So the keys are the distinct non-empty keys in
      order of first appearance, and each maps to the last record with that
      key. */
  function BuildIndex(items: seq<ExistingItem>): (d: seq<(string, ExistingItem)>)
    ensures DistinctKeys(d)
    ensures KeysOf(d) == FirstOccurrences(NonEmptyKeys(items))
    ensures forall k :: Get(d, k) == LastWithKey(items, k)
    decreases |items|
  {
    if |items| == 0 then []
    else
      var init := items[..|items| - 1];
      var e := items[|items| - 1];
      var prev := BuildIndex(init);
      var k := KeyOf(e);
      assert forall k' :: LastWithKey(items, k') == if k' == k && k != "" then Some(e) else LastWithKey(init, k');
      if k != "" then
        var keys := NonEmptyKeys(init) + [k];
        assert NonEmptyKeys(items) == keys;
        assert keys[..|keys| - 1] == NonEmptyKeys(init);
        assert k in KeysOf(prev) <==> k in NonEmptyKeys(init);
        PutGetAll(prev, k, e);
        Put(prev, k, e)
      else
        assert NonEmptyKeys(items) == NonEmptyKeys(init) + [];
        assert NonEmptyKeys(init) + [] == NonEmptyKeys(init);
        prev
  }

  // ---------------------------------------------------------------------
  // find_existing_item

  /** A key is close enough when its distance to the normalised name is at
      most `max(3, 0.2 * len(name))`, stated over the integers. */
  predicate Admissible(norm: string, key: string) {
    var dist := EditDistance(norm, key);
    dist <= 3 || 5 * dist <= |norm|
  }

  /** Among the first `n` entries, entry `p` is admissible, no admissible
      entry is strictly closer, and every admissible entry before it is
      strictly farther: the first closest admissible entry. */
  predicate IsBestUpTo<T>(norm: string, d: seq<(string, T)>, n: nat, p: nat)
    requires n <= |d|
  {
    && p < n
    && Admissible(norm, d[p].0)
    && (forall j :: 0 <= j < n && Admissible(norm, d[j].0) ==>
          EditDistance(norm, d[p].0) <= EditDistance(norm, d[j].0))
    && (forall j :: 0 <= j < p && Admissible(norm, d[j].0) ==>
          EditDistance(norm, d[p].0) < EditDistance(norm, d[j].0))
  }

  predicate NoneAdmissibleUpTo<T>(norm: string, d: seq<(string, T)>, n: nat)
    requires n <= |d|
  {
    forall j :: 0 <= j < n ==> !Admissible(norm, d[j].0)
  }

  /** The fuzzy loop from entry `i` on, `best` being the entry it holds so
      far: an entry replaces it only when admissible and strictly closer. */
  function FuzzyScan<T>(norm: string, d: seq<(string, T)>, i: nat, best: Option<nat>): (r: Option<nat>)
    requires i <= |d|
    requires best.Some? ==> IsBestUpTo(norm, d, i, best.value)
    requires best.None? ==> NoneAdmissibleUpTo(norm, d, i)
    ensures r.Some? ==> IsBestUpTo(norm, d, |d|, r.value)
    ensures r.None? ==> NoneAdmissibleUpTo(norm, d, |d|)
    decreases |d| - i
  {
    if i == |d| then best
    else
      var dist := EditDistance(norm, d[i].0);
      var closer := match best
        case None => true
        case Some(p) => dist < EditDistance(norm, d[p].0);
      if closer && Admissible(norm, d[i].0) then FuzzyScan(norm, d, i + 1, Some(i))
      else FuzzyScan(norm, d, i + 1, best)
  }

  /** The search `find_existing_item` runs for the normalised name `norm`:
      the exact key first, then the first closest admissible key. */
  function FindByKey<T>(norm: string, d: seq<(string, T)>): (r: Option<T>)
    ensures Get(d, norm).Some? ==> r == Get(d, norm)
    ensures Get(d, norm).None? ==> (r.None? <==> NoneAdmissibleUpTo(norm, d, |d|))
    ensures Get(d, norm).None? && r.Some? ==>
      exists p: nat :: IsBestUpTo(norm, d, |d|, p) && r.value == d[p].1
    ensures r.Some? ==> exists i :: 0 <= i < |d| && d[i].1 == r.value
  {
    match Get(d, norm)
    case Some(item) => Some(item)
    case None =>
      match FuzzyScan(norm, d, 0, None)
      case Some(p) => Some(d[p].1)
      case None => None
  }

  /** `find_existing_item`: the search for the normalised name. Whatever
      it finds is a record of the index, and an empty index finds nothing. */
  function FindExistingItem<T>(name: string, d: seq<(string, T)>): (r: Option<T>)
    ensures r == FindByKey(NormalizeName(name), d)
    ensures r.Some? ==> exists i :: 0 <= i < |d| && d[i].1 == r.value
    ensures |d| == 0 ==> r.None?
  {
    FindByKey(NormalizeName(name), d)
  }

  /** Matching ignores letter case: a lower-cased name finds the same
      record. */
  lemma FindIgnoresCase<T>(name: string, d: seq<(string, T)>)
    ensures FindExistingItem(Lower(name), d) == FindExistingItem(name, d)
  {
    NormalizeIgnoresCase(name);
  }

  /** The first closest admissible entry is unique, so the fuzzy search
      has exactly one correct answer. */
  lemma BestIsUnique<T>(norm: string, d: seq<(string, T)>, n: nat, p: nat, q: nat)
    requires n <= |d|
    requires IsBestUpTo(norm, d, n, p) && IsBestUpTo(norm, d, n, q)
    ensures p == q
  {
  }

  /** The exact lookup is a shortcut: in an index with distinct keys, the
      fuzzy search on its own would return the same entry, since only the
      exact key is at distance zero. */
  lemma ExactMatchIsFuzzyBest<T>(norm: string, d: seq<(string, T)>, p: nat)
    requires DistinctKeys(d)
    requires p < |d| && d[p].0 == norm
    ensures FuzzyScan(norm, d, 0, None) == Some(p)
  {
    EditDistanceZeroIff(norm, d[p].0);
    forall j | 0 <= j < |d| && j != p
      ensures EditDistance(norm, d[j].0) > 0
    {
      EditDistanceZeroIff(norm, d[j].0);
    }
    assert IsBestUpTo(norm, d, |d|, p);
    var r := FuzzyScan(norm, d, 0, None);
    BestIsUnique(norm, d, |d|, p, r.value);
  }
}
