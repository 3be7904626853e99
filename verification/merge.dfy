/** The pure part of the script's `main`: the id-to-name table, the merge
    loop with its updated/added/skipped counts, and the final sort by
    lower-cased name. */
module Merge {
  import opened Wrappers
  import opened Text
  import opened Catalog
  import opened Transform
  import opened Lookup

  // ---------------------------------------------------------------------
  // The id-to-name table

  predicate DistinctIds(src: seq<SourceItem>) {
    forall i, j :: 0 <= i < j < |src| ==> src[i].id != src[j].id
  }

  /** The English name of every upstream id that has a non-empty one. */
  function IdToNameMap(src: seq<SourceItem>): (m: map<string, string>)
    ensures forall id :: id in m ==> m[id] != ""
    ensures forall id :: id in m <==> exists i :: 0 <= i < |src| && src[i].id == id && TextOf(src[i].name) != ""
    ensures DistinctIds(src) ==>
      forall i :: 0 <= i < |src| && TextOf(src[i].name) != "" ==> m[src[i].id] == TextOf(src[i].name)
    decreases |src|
  {
    if |src| == 0 then map[]
    else
      var init := src[..|src| - 1];
      var s := src[|src| - 1];
      assert forall i :: 0 <= i < |init| ==> init[i] == src[i];
      var m := IdToNameMap(init);
      var name := TextOf(s.name);
      if name != "" then m[s.id := name] else m
  }

  // ---------------------------------------------------------------------
  // The merge loop

  datatype MergeReport = MergeReport(items: seq<CatalogItem>, updated: nat, added: nat, skipped: nat)

  /** The upstream records that have a name, in order. */
  function Named(src: seq<SourceItem>): (r: seq<SourceItem>)
    ensures |r| <= |src|
    ensures forall i :: 0 <= i < |r| ==> TextOf(r[i].name) != "" && r[i] in src
    decreases |src|
  {
    if |src| == 0 then []
    else
      var init := src[..|src| - 1];
      var s := src[|src| - 1];
      assert forall x :: x in init ==> x in src;
      Named(init) + (if TextOf(s.name) != "" then [s] else [])
  }

  /** The existing record a named upstream record is matched with. */
  function MatchOf(s: SourceItem, index: seq<(string, ExistingItem)>): Option<ExistingItem> {
    FindExistingItem(TextOf(s.name), index)
  }

  /** How many of the records find an existing record. */
  function CountMatched(src: seq<SourceItem>, index: seq<(string, ExistingItem)>): (n: nat)
    ensures n <= |src|
    decreases |src|
  {
    if |src| == 0 then 0
    else CountMatched(src[..|src| - 1], index) + (if MatchOf(src[|src| - 1], index).Some? then 1 else 0)
  }

  lemma CountMatchedSnoc(xs: seq<SourceItem>, s: SourceItem, index: seq<(string, ExistingItem)>)
    ensures CountMatched(xs + [s], index) == CountMatched(xs, index) + (if MatchOf(s, index).Some? then 1 else 0)
  {
    assert (xs + [s])[..|xs|] == xs;
  }

  /** `f` applied to each element, in order. */
  function MapSeq<A, B>(xs: seq<A>, f: A -> B): (r: seq<B>)
    ensures |r| == |xs| && forall i :: 0 <= i < |xs| ==> r[i] == f(xs[i])
  {
    seq(|xs|, i requires 0 <= i < |xs| => f(xs[i]))
  }

  lemma MapSeqSnoc<A, B>(xs: seq<A>, x: A, f: A -> B)
    ensures MapSeq(xs + [x], f) == MapSeq(xs, f) + [f(x)]
  {
    var a, b := MapSeq(xs + [x], f), MapSeq(xs, f) + [f(x)];
    forall i | 0 <= i < |a| ensures a[i] == b[i] {
      if i < |xs| {
        assert (xs + [x])[i] == xs[i];
      }
    }
  }

  /** A record transformed against its match. */
  function MergeOne(names: map<string, string>, index: seq<(string, ExistingItem)>): SourceItem -> CatalogItem {
    s => TransformItem(s, names, MatchOf(s, index))
  }

  /** Each record transformed against its match, in order. */
  function TransformAll(xs: seq<SourceItem>, names: map<string, string>, index: seq<(string, ExistingItem)>)
    : (r: seq<CatalogItem>)
    ensures |r| == |xs|
    ensures forall i :: 0 <= i < |xs| ==> r[i] == TransformItem(xs[i], names, MatchOf(xs[i], index))
  {
    MapSeq(xs, MergeOne(names, index))
  }

  lemma TransformAllSnoc(xs: seq<SourceItem>, s: SourceItem, names: map<string, string>, index: seq<(string, ExistingItem)>)
    ensures TransformAll(xs + [s], names, index) ==
      TransformAll(xs, names, index) + [TransformItem(s, names, MatchOf(s, index))]
  {
    MapSeqSnoc(xs, s, MergeOne(names, index));
  }

  /** Only records with a name are transformed, so every output has one. */
  lemma TransformAllNamed(xs: seq<SourceItem>, names: map<string, string>, index: seq<(string, ExistingItem)>)
    requires forall i :: 0 <= i < |xs| ==> TextOf(xs[i].name) != ""
    ensures forall c :: c in TransformAll(xs, names, index) ==> c.name != ""
  {
    var r := TransformAll(xs, names, index);
    forall c | c in r ensures c.name != "" {
      var i :| 0 <= i < |r| && r[i] == c;
      assert c == TransformItem(xs[i], names, MatchOf(xs[i], index));
    }
  }

  /** One pass over the upstream records in order: a record without a name
      is skipped; any other one is matched against the index, transformed,
      and counted as updated when it matched and as added otherwise. The
      result is the transform of every named record, in order. */
  function MergeLoop(src: seq<SourceItem>, names: map<string, string>, index: seq<(string, ExistingItem)>)
    : (rep: MergeReport)
    ensures rep.updated + rep.added + rep.skipped == |src|
    ensures |rep.items| == rep.updated + rep.added
    ensures rep.skipped == |src| - |Named(src)|
    ensures rep.updated == CountMatched(Named(src), index)
    ensures rep.items == TransformAll(Named(src), names, index)
    decreases |src|
  {
    if |src| == 0 then MergeReport([], 0, 0, 0)
    else
      var init := src[..|src| - 1];
      var s := src[|src| - 1];
      var rep := MergeLoop(init, names, index);
      var name := TextOf(s.name);
      if name == "" then
        assert Named(src) == Named(init) + [] == Named(init);
        rep.(skipped := rep.skipped + 1)
      else
        var existing := MatchOf(s, index);
        var merged := TransformItem(s, names, existing);
        assert Named(src) == Named(init) + [s];
        TransformAllSnoc(Named(init), s, names, index);
        CountMatchedSnoc(Named(init), s, index);
        if existing.Some? then rep.(items := rep.items + [merged], updated := rep.updated + 1)
        else rep.(items := rep.items + [merged], added := rep.added + 1)
  }

  // ---------------------------------------------------------------------
  // Sorting by lower-cased name

  function SortKey(c: CatalogItem): string { Lower(c.name) }

  predicate SortedByName(s: seq<CatalogItem>) {
    forall i, j :: 0 <= i < j < |s| ==> LexLe(SortKey(s[i]), SortKey(s[j]))
  }

  /** Places `x` after every element whose key is not greater than its own,
      so records with equal keys keep their relative order. */
  function Insert(x: CatalogItem, s: seq<CatalogItem>): (r: seq<CatalogItem>)
    requires SortedByName(s)
    ensures SortedByName(r)
    ensures multiset(r) == multiset(s) + multiset{x}
    decreases |s|
  {
    if |s| == 0 then [x]
    else if !LexLe(SortKey(s[0]), SortKey(x)) then
      LexLeTotal(SortKey(s[0]), SortKey(x));
      forall j | 0 <= j < |s| ensures LexLe(SortKey(x), SortKey(s[j])) {
        if j > 0 {
          LexLeTransitive(SortKey(x), SortKey(s[0]), SortKey(s[j]));
        }
      }
      SortedCons(x, s);
      [x] + s
    else
      var rest := Insert(x, s[1..]);
      assert s == [s[0]] + s[1..];
      forall j | 0 <= j < |rest| ensures LexLe(SortKey(s[0]), SortKey(rest[j])) {
        assert rest[j] in multiset(s[1..]) + multiset{x};
        if rest[j] != x {
          assert rest[j] in s[1..];
        }
      }
      SortedCons(s[0], rest);
      [s[0]] + rest
  }

  /** A record whose key is at most every key of a sorted list can go in
      front of it. */
  lemma SortedCons(h: CatalogItem, s: seq<CatalogItem>)
    requires SortedByName(s)
    requires forall j :: 0 <= j < |s| ==> LexLe(SortKey(h), SortKey(s[j]))
    ensures SortedByName([h] + s)
  {
    forall i, j | 0 <= i < j < |s| + 1 ensures LexLe(SortKey(([h] + s)[i]), SortKey(([h] + s)[j])) {
      assert ([h] + s)[j] == s[j - 1];
      if i > 0 {
        assert ([h] + s)[i] == s[i - 1];
      }
    }
  }

  /** `list.sort(key=lambda x: x["name"].lower())`, as an insertion sort. */
  function SortByName(s: seq<CatalogItem>): (r: seq<CatalogItem>)
    ensures SortedByName(r)
    ensures multiset(r) == multiset(s)
    decreases |s|
  {
    if |s| == 0 then []
    else
      assert s == s[..|s| - 1] + [s[|s| - 1]];
      Insert(s[|s| - 1], SortByName(s[..|s| - 1]))
  }

  // ---------------------------------------------------------------------
  // The whole merge

  /** Phases 2 to 4 of `main`: build the id-to-name table and the index of
      existing records, run the merge loop, and sort its output. Every
      upstream record is accounted for exactly once, only named records are
      emitted, and the output is a permutation of the loop's records in
      name order. */
  function MergeCatalog(src: seq<SourceItem>, existing: seq<ExistingItem>): (rep: MergeReport)
    ensures rep.updated + rep.added + rep.skipped == |src|
    ensures rep.skipped == |src| - |Named(src)|
    ensures rep.updated == CountMatched(Named(src), BuildIndex(existing))
    ensures |rep.items| == rep.updated + rep.added
    ensures SortedByName(rep.items)
    ensures multiset(rep.items) == multiset(MergeLoop(src, IdToNameMap(src), BuildIndex(existing)).items)
    ensures forall c :: c in rep.items ==> c.name != ""
  {
    var loop := MergeLoop(src, IdToNameMap(src), BuildIndex(existing));
    var sorted := SortByName(loop.items);
    TransformAllNamed(Named(src), IdToNameMap(src), BuildIndex(existing));
    assert forall c :: c in sorted ==> c in multiset(sorted);
    assert forall c :: c in multiset(loop.items) ==> c in loop.items;
    loop.(items := sorted)
  }
}
