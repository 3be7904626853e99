/** `transform_item` and its helpers: turning one upstream record into a
    record of the local catalog, keeping the hand-maintained fields of the
    matching existing record. */
module Transform {
  import opened Wrappers
  import opened Text
  import opened Catalog
  import opened Recommend
  import opened Lookup

  /** `CATEGORY_MAP`: upstream item type to local category. */
  const CategoryMap: map<string, string> := map[
    "Basic Material" := "Material",
    "Refined Material" := "Component",
    "Consumable" := "Consumable",
    "Quick Use" := "Consumable",
    "Tool" := "Material",
    "Weapon" := "Weapon",
    "Attachment" := "Attachment",
    "Key" := "Quest",
    "Quest Item" := "Quest",
    "Armor" := "Armor",
    "Armor Plate" := "Armor",
    "Helmet Plate" := "Armor",
    "Blueprint" := "Blueprint",
    "Color" := "Cosmetic",
    "Valuable" := "Valuable",
    "Ammo" := "Ammo",
    "Grenade" := "Consumable",
    "Trap" := "Consumable",
    "Food" := "Consumable",
    "Drink" := "Consumable"
  ]

  /** Every category a merged record can carry. */
  const Categories: set<string> := {
    "Material", "Component", "Consumable", "Weapon", "Attachment", "Quest",
    "Armor", "Blueprint", "Cosmetic", "Valuable", "Ammo"
  }

  /** The category for an upstream type; a missing type reads as
      `"Material"`, and a type outside the table falls back to
      `"Material"` too. */
  function CategoryOf(itemType: Option<string>): (r: string)
    ensures r in Categories
    ensures itemType.GetOr("Material") in CategoryMap ==> r == CategoryMap[itemType.GetOr("Material")]
    ensures itemType.GetOr("Material") !in CategoryMap ==> r == "Material"
  {
    var t := itemType.GetOr("Material");
    if t in CategoryMap then CategoryMap[t] else "Material"
  }

  /** Only the two quest types land in the Quest category, and only the
      Valuable type in the Valuable category. */
  lemma CategoryInverse(t: string)
    ensures t in CategoryMap && CategoryMap[t] == "Quest" <==> IsQuestType(t)
    ensures t in CategoryMap && CategoryMap[t] == "Valuable" <==> t == "Valuable"
  {
  }

  /** `id_to_display_name`: the upstream name of an item id when it has
      one, otherwise the id with underscores turned into spaces and
      title-cased. */
  function IdToDisplayName(id: string, names: map<string, string>): (r: string)
    ensures id in names ==> r == names[id]
    ensures id !in names ==> |r| == |id| && '_' !in r
    ensures id !in names ==> Lower(r) == Lower(ReplaceChar(id, '_', ' '))
    ensures id !in names ==> forall i :: 0 <= i < |id| && !IsLetter(id[i]) ==>
      r[i] == if id[i] == '_' then ' ' else id[i]
    ensures id !in names ==> forall i :: 0 <= i < |id| && IsLetter(id[i]) && (i == 0 || !IsLetter(id[i - 1])) ==>
      r[i] == UpperChar(id[i])
    ensures id !in names ==> forall i :: 0 < i < |id| && IsLetter(id[i]) && IsLetter(id[i - 1]) ==>
      r[i] == LowerChar(id[i])
  {
    if id in names then names[id]
    else
      var spaced := ReplaceChar(id, '_', ' ');
      TitleProperties(spaced);
      Title(spaced)
  }

  // ---------------------------------------------------------------------
  // recycleOutputs

  /** The dict the recycle loop builds when entry `i` is stored under
      `keys[i]`: entries with a count of zero or less are skipped, and a
      later entry with the same key overwrites the count of an earlier one
      while the key keeps the place it was first given. */
  function CollectBy(entries: seq<(string, int)>, keys: seq<string>): (d: seq<(string, int)>)
    requires |keys| == |entries|
    ensures DistinctKeys(d)
    ensures KeysOf(d) == FirstOccurrences(PositiveKeys(entries, keys))
    ensures forall k :: Get(d, k) == LastPositive(entries, keys, k)
    decreases |entries|
  {
    if |entries| == 0 then []
    else
      var n := |entries| - 1;
      var prev := CollectBy(entries[..n], keys[..n]);
      var k, v := keys[n], entries[n].1;
      LastPositiveSnoc(entries, keys);
      PositiveKeysSnoc(entries, keys);
      if v > 0 then
        FirstOccurrencesSnoc(PositiveKeys(entries[..n], keys[..n]), k);
        PutGetAll(prev, k, v);
        Put(prev, k, v)
      else
        assert PositiveKeys(entries[..n], keys[..n]) + [] == PositiveKeys(entries[..n], keys[..n]);
        prev
  }

  /** The key list grows by the last entry's key when its count is positive. */
  lemma PositiveKeysSnoc(entries: seq<(string, int)>, keys: seq<string>)
    requires |keys| == |entries| > 0
    ensures var n := |entries| - 1;
      PositiveKeys(entries, keys) ==
        PositiveKeys(entries[..n], keys[..n]) + (if entries[n].1 > 0 then [keys[n]] else [])
  {
  }

  /** A positive last entry decides the value of its own key; every other
      key is decided by the earlier entries. */
  lemma LastPositiveSnoc(entries: seq<(string, int)>, keys: seq<string>)
    requires |keys| == |entries| > 0
    ensures forall k :: LastPositive(entries, keys, k) == LastPositiveStep(entries, keys, k)
  {
  }

  lemma FirstOccurrencesSnoc(s: seq<string>, x: string)
    ensures FirstOccurrences(s + [x]) == if x in s then FirstOccurrences(s) else FirstOccurrences(s) + [x]
  {
    assert (s + [x])[..|s|] == s;
  }

  /** The keys of the entries with a positive count, in order, repeats
      included. */
  function PositiveKeys(entries: seq<(string, int)>, keys: seq<string>): (r: seq<string>)
    requires |keys| == |entries|
    ensures forall x :: x in r <==> exists i :: 0 <= i < |entries| && entries[i].1 > 0 && keys[i] == x
    decreases |entries|
  {
    if |entries| == 0 then []
    else
      var n := |entries| - 1;
      assert forall i :: 0 <= i < n ==> entries[..n][i] == entries[i] && keys[..n][i] == keys[i];
      PositiveKeys(entries[..n], keys[..n]) + (if entries[n].1 > 0 then [keys[n]] else [])
  }

  /** The count of the last entry with a positive count under key `k`. */
  function LastPositive(entries: seq<(string, int)>, keys: seq<string>, k: string): (r: Option<int>)
    requires |keys| == |entries|
    ensures r.None? <==> forall i :: 0 <= i < |entries| && entries[i].1 > 0 ==> keys[i] != k
    ensures r.Some? ==> r.value > 0
    ensures forall i :: 0 <= i < |entries| && entries[i].1 > 0 && keys[i] == k && LastFor(entries, keys, i) ==>
      r == Some(entries[i].1)
    decreases |entries|
  {
    if |entries| == 0 then None
    else
      var n := |entries| - 1;
      if entries[n].1 > 0 && keys[n] == k then Some(entries[n].1)
      else
        var r := LastPositive(entries[..n], keys[..n], k);
        LastPositiveNone(entries, keys, k, r);
        LastPositiveLast(entries, keys, k, r);
        r
  }

  /** `LastPositive` unfolded once: the last entry, or the earlier ones. */
  function LastPositiveStep(entries: seq<(string, int)>, keys: seq<string>, k: string): Option<int>
    requires |keys| == |entries| > 0
  {
    var n := |entries| - 1;
    if k == keys[n] && entries[n].1 > 0 then Some(entries[n].1) else LastPositive(entries[..n], keys[..n], k)
  }

  lemma LastPositiveNone(entries: seq<(string, int)>, keys: seq<string>, k: string, r: Option<int>)
    requires |keys| == |entries| > 0
    requires !(entries[|entries| - 1].1 > 0 && keys[|entries| - 1] == k)
    requires var n := |entries| - 1;
      r.None? <==> forall i :: 0 <= i < n && entries[..n][i].1 > 0 ==> keys[..n][i] != k
    ensures r.None? <==> forall i :: 0 <= i < |entries| && entries[i].1 > 0 ==> keys[i] != k
  {
    var n := |entries| - 1;
    assert forall i :: 0 <= i < n ==> entries[..n][i] == entries[i] && keys[..n][i] == keys[i];
  }

  lemma LastPositiveLast(entries: seq<(string, int)>, keys: seq<string>, k: string, r: Option<int>)
    requires |keys| == |entries| > 0
    requires !(entries[|entries| - 1].1 > 0 && keys[|entries| - 1] == k)
    requires var n := |entries| - 1;
      forall i :: 0 <= i < n && entries[..n][i].1 > 0 && keys[..n][i] == k && LastFor(entries[..n], keys[..n], i) ==>
        r == Some(entries[..n][i].1)
    ensures forall i :: 0 <= i < |entries| && entries[i].1 > 0 && keys[i] == k && LastFor(entries, keys, i) ==>
      r == Some(entries[i].1)
  {
    var n := |entries| - 1;
    var es, ks := entries[..n], keys[..n];
    forall i | 0 <= i < |entries| && entries[i].1 > 0 && keys[i] == k && LastFor(entries, keys, i)
      ensures r == Some(entries[i].1)
    {
      assert i < n;
      assert es[i] == entries[i] && ks[i] == keys[i];
      assert LastFor(es, ks, i) by {
        forall l | i < l < n && es[l].1 > 0 ensures ks[l] != ks[i] {
          assert es[l] == entries[l] && ks[l] == keys[l];
        }
      }
    }
  }

  /** No later entry with a positive count has the same key as entry `i`. */
  predicate LastFor(entries: seq<(string, int)>, keys: seq<string>, i: int)
    requires |keys| == |entries| && 0 <= i < |entries|
  {
    forall l :: i < l < |entries| && entries[l].1 > 0 ==> keys[l] != keys[i]
  }

  /** The display name of every entry's item id. */
  function DisplayKeys(entries: seq<(string, int)>, names: map<string, string>): (r: seq<string>)
    ensures |r| == |entries|
    ensures forall i :: 0 <= i < |entries| ==> r[i] == IdToDisplayName(entries[i].0, names)
  {
    seq(|entries|, i requires 0 <= i < |entries| => IdToDisplayName(entries[i].0, names))
  }

  /** The recycle outputs keyed by display name, as the loop builds them:
      the display names of the entries with a positive count, each once, in
      the order they first appear, each with the count of the last such
      entry. */
  function CollectOutputs(entries: seq<(string, int)>, names: map<string, string>): (m: seq<(string, int)>)
    ensures DistinctKeys(m)
    ensures forall i :: 0 <= i < |m| ==> m[i].1 > 0
    ensures KeysOf(m) == FirstOccurrences(PositiveKeys(entries, DisplayKeys(entries, names)))
    ensures forall k :: k in KeysOf(m) <==>
      exists i :: 0 <= i < |entries| && entries[i].1 > 0 && IdToDisplayName(entries[i].0, names) == k
    ensures forall i :: 0 <= i < |entries| && entries[i].1 > 0 && LastFor(entries, DisplayKeys(entries, names), i) ==>
      Get(m, IdToDisplayName(entries[i].0, names)) == Some(entries[i].1)
  {
    var keys := DisplayKeys(entries, names);
    var m := CollectBy(entries, keys);
    PositiveCounts(m, entries, keys);
    m
  }

  /** Every count the loop stores is positive. */
  lemma PositiveCounts(m: seq<(string, int)>, entries: seq<(string, int)>, keys: seq<string>)
    requires |keys| == |entries|
    requires DistinctKeys(m) && forall k :: Get(m, k) == LastPositive(entries, keys, k)
    ensures forall i :: 0 <= i < |m| ==> m[i].1 > 0
  {
    forall i | 0 <= i < |m| ensures m[i].1 > 0 {
      assert Get(m, m[i].0) == Some(m[i].1);
      assert LastPositive(entries, keys, m[i].0).value > 0;
    }
  }

  /** `recycleOutputs` of a merged record: absent exactly when no entry has
      a positive count, otherwise the non-empty dict the loop builds. */
  function RecycleOutputs(entries: seq<(string, int)>, names: map<string, string>): (r: Option<seq<(string, int)>>)
    ensures r.None? <==> forall i :: 0 <= i < |entries| ==> entries[i].1 <= 0
    ensures r.Some? ==> r.value != [] && r.value == CollectOutputs(entries, names)
    ensures r.Some? ==> forall i :: 0 <= i < |r.value| ==> r.value[i].1 > 0
  {
    if |entries| > 0 then
      var m := CollectOutputs(entries, names);
      assert m == [] <==> forall i :: 0 <= i < |entries| ==> entries[i].1 <= 0 by {
        if m != [] {
          assert KeysOf(m)[0] in KeysOf(m);
        }
        if exists i :: 0 <= i < |entries| && entries[i].1 > 0 {
          var i :| 0 <= i < |entries| && entries[i].1 > 0;
          assert IdToDisplayName(entries[i].0, names) in KeysOf(m);
        }
      }
      if m == [] then None
      else Some(m)
    else None
  }

  // ---------------------------------------------------------------------
  // foundIn

  /** The stripped pieces that are not empty, in order. */
  function StrippedNonEmpty(parts: seq<string>): (r: seq<string>)
    ensures |r| <= |parts|
    ensures forall k :: 0 <= k < |r| ==> IsTrimmedText(r[k])
    decreases |parts|
  {
    if |parts| == 0 then []
    else
      var p := Strip(parts[0]);
      var rest := StrippedNonEmpty(parts[1..]);
      if p != "" then
        TrimmedCons(p, rest);
        [p] + rest
      else rest
  }

  /** The pieces kept are exactly the stripped pieces that are not blank,
      in their order: `StrippedNonEmpty(parts)[k]` is the stripped piece
      `idx[k]`, the positions `idx` increase, and every piece that does not
      strip to `""` is among them. */
  lemma {:induction false} StrippedNonEmptyKeeps(parts: seq<string>)
    ensures exists idx :: KeptPieces(StrippedAll(parts), StrippedNonEmpty(parts), idx)
    decreases |parts|
  {
    if |parts| == 0 {
      assert StrippedNonEmpty(parts) == [];
      assert KeptPieces(StrippedAll(parts), [], []);
    } else {
      StrippedNonEmptyKeeps(parts[1..]);
      StrippedAllTail(parts);
      KeptPiecesCons(StrippedAll(parts), StrippedNonEmpty(parts[1..]));
      StrippedNonEmptyCons(parts);
    }
  }

  lemma StrippedNonEmptyCons(parts: seq<string>)
    requires |parts| > 0
    ensures var p := StrippedAll(parts)[0];
      StrippedNonEmpty(parts) == if p != "" then [p] + StrippedNonEmpty(parts[1..]) else StrippedNonEmpty(parts[1..])
  {
  }

  lemma StrippedAllTail(parts: seq<string>)
    requires |parts| > 0
    ensures StrippedAll(parts)[1..] == StrippedAll(parts[1..])
  {
  }

  /** Every piece, stripped. */
  function StrippedAll(parts: seq<string>): (r: seq<string>)
    ensures |r| == |parts| && forall i :: 0 <= i < |parts| ==> r[i] == Strip(parts[i])
  {
    seq(|parts|, i requires 0 <= i < |parts| => Strip(parts[i]))
  }

  /** `r` lists the pieces of `sp` at the increasing positions `idx`, and
      every piece that is not blank has its position in `idx`. */
  ghost predicate KeptPieces(sp: seq<string>, r: seq<string>, idx: seq<nat>) {
    PiecesAt(sp, r, idx) && Increasing(idx) && CoversNonBlank(sp, idx)
  }

  ghost predicate PiecesAt(sp: seq<string>, r: seq<string>, idx: seq<nat>) {
    |idx| == |r| && forall k :: 0 <= k < |idx| ==> idx[k] < |sp| && r[k] == sp[idx[k]]
  }

  ghost predicate Increasing(idx: seq<nat>) {
    forall k, l :: 0 <= k < l < |idx| ==> idx[k] < idx[l]
  }

  ghost predicate CoversNonBlank(sp: seq<string>, idx: seq<nat>) {
    forall i :: 0 <= i < |sp| && sp[i] != "" ==> i in idx
  }

  /** Every position moved one further on. */
  function Shifted(idx: seq<nat>): (r: seq<nat>)
    ensures |r| == |idx| && forall k :: 0 <= k < |idx| ==> r[k] == idx[k] + 1
  {
    seq(|idx|, k requires 0 <= k < |idx| => idx[k] + 1)
  }

  /** One more piece in front: it is kept when it is not blank. */
  lemma KeptPiecesCons(sp: seq<string>, rest: seq<string>)
    requires |sp| > 0 && exists idx :: KeptPieces(sp[1..], rest, idx)
    ensures sp[0] != "" ==> exists idx :: KeptPieces(sp, [sp[0]] + rest, idx)
    ensures sp[0] == "" ==> exists idx :: KeptPieces(sp, rest, idx)
  {
    var idx :| KeptPieces(sp[1..], rest, idx);
    KeptPiecesStep(sp, rest, idx);
  }

  /** The same with the positions: the front piece, when kept, is at
      position 0, and the other positions move one further on. */
  lemma KeptPiecesStep(sp: seq<string>, rest: seq<string>, idx: seq<nat>)
    requires |sp| > 0 && KeptPieces(sp[1..], rest, idx)
    ensures sp[0] != "" ==> KeptPieces(sp, [sp[0]] + rest, [0] + Shifted(idx))
    ensures sp[0] == "" ==> KeptPieces(sp, rest, Shifted(idx))
  {
    ShiftedPieces(sp, rest, idx);
    ShiftedCovers(sp, idx);
    if sp[0] != "" {
      ConsPieces(sp, rest, Shifted(idx));
      ConsIncreasing(Shifted(idx));
      ConsCovers(sp, Shifted(idx));
    }
  }

  lemma ShiftedPieces(sp: seq<string>, rest: seq<string>, idx: seq<nat>)
    requires |sp| > 0 && PiecesAt(sp[1..], rest, idx)
    ensures PiecesAt(sp, rest, Shifted(idx))
  {
    var sh := Shifted(idx);
    forall k | 0 <= k < |idx| ensures sh[k] < |sp| && rest[k] == sp[sh[k]] {
      assert sp[1..][idx[k]] == sp[sh[k]];
    }
  }

  lemma ShiftedCovers(sp: seq<string>, idx: seq<nat>)
    requires |sp| > 0 && CoversNonBlank(sp[1..], idx)
    ensures forall i :: 0 < i < |sp| && sp[i] != "" ==> i in Shifted(idx)
  {
    var sh := Shifted(idx);
    forall i | 0 < i < |sp| && sp[i] != "" ensures i in sh {
      assert sp[1..][i - 1] == sp[i];
      var k :| 0 <= k < |idx| && idx[k] == i - 1;
      assert sh[k] == i;
    }
  }

  lemma ConsPieces(sp: seq<string>, rest: seq<string>, sh: seq<nat>)
    requires |sp| > 0 && PiecesAt(sp, rest, sh)
    ensures PiecesAt(sp, [sp[0]] + rest, [0] + sh)
  {
    var r, ix := [sp[0]] + rest, [0] + sh;
    forall k | 0 < k < |ix| ensures ix[k] < |sp| && r[k] == sp[ix[k]] {
      assert ix[k] == sh[k - 1] && r[k] == rest[k - 1];
    }
  }

  lemma ConsIncreasing(sh: seq<nat>)
    requires Increasing(sh) && forall k :: 0 <= k < |sh| ==> sh[k] > 0
    ensures Increasing([0] + sh)
  {
    var ix := [0] + sh;
    forall k, l | 0 <= k < l < |ix| ensures ix[k] < ix[l] {
      assert ix[l] == sh[l - 1];
      if k > 0 {
        assert ix[k] == sh[k - 1];
      }
    }
  }

  lemma ConsCovers(sp: seq<string>, sh: seq<nat>)
    requires |sp| > 0
    requires forall i :: 0 < i < |sp| && sp[i] != "" ==> i in sh
    ensures CoversNonBlank(sp, [0] + sh)
  {
    forall i | 0 <= i < |sp| && sp[i] != "" ensures i in [0] + sh {
      if i > 0 {
        assert i in sh;
      }
    }
  }

  lemma TrimmedCons(p: string, rest: seq<string>)
    requires IsTrimmedText(p)
    requires forall k :: 0 <= k < |rest| ==> IsTrimmedText(rest[k])
    ensures forall k :: 0 <= k < |rest| + 1 ==> IsTrimmedText(([p] + rest)[k])
  {
    forall k | 0 < k < |rest| + 1 ensures IsTrimmedText(([p] + rest)[k]) {
      assert ([p] + rest)[k] == rest[k - 1];
    }
  }

  /** Stripping keeps pieces comma-free. */
  lemma {:induction false} StrippedNonEmptyCommaFree(parts: seq<string>)
    requires forall k :: 0 <= k < |parts| ==> ',' !in parts[k]
    ensures forall k :: 0 <= k < |StrippedNonEmpty(parts)| ==> ',' !in StrippedNonEmpty(parts)[k]
    decreases |parts|
  {
    if |parts| > 0 {
      StripKeepsOut(parts[0], ',');
      StrippedNonEmptyCommaFree(parts[1..]);
    }
  }

  /** Text that is not empty and has no white space at either end. */
  predicate IsTrimmedText(s: string) {
    s != "" && !IsSpace(s[0]) && !IsSpace(s[|s| - 1])
  }

  /** A location as `parse_found_in` emits it: trimmed, non-empty text
      without a comma. */
  predicate IsCleanLocation(s: string) {
    IsTrimmedText(s) && ',' !in s
  }

  /** Stripping only removes characters. */
  lemma StripKeepsOut(s: string, c: char)
    ensures c !in s ==> c !in Strip(s)
  {
    var r := Strip(s);
    StripSlice(s);
    var lo :| TrimmedAt(s, lo, r);
    forall k | 0 <= k < |r| ensures r[k] in s {
      assert r[k] == s[lo + k];
    }
  }

  /** `parse_found_in`: the comma-separated pieces, stripped, with blank
      ones dropped and the others kept in order. */
  function ParseFoundIn(s: string): (r: seq<string>)
    ensures s == "" ==> r == []
    ensures forall k :: 0 <= k < |r| ==> IsCleanLocation(r[k])
    ensures |r| <= |Split(s, ',')|
    ensures exists idx :: KeptPieces(StrippedAll(Split(s, ',')), r, idx)
  {
    StrippedNonEmptyKeeps(Split(s, ','));
    if s == "" then
      assert StrippedNonEmpty(Split(s, ',')) == [];
      []
    else
      StrippedNonEmptyCommaFree(Split(s, ','));
      StrippedNonEmpty(Split(s, ','))
  }

  /** Writing clean locations as a comma-separated list and parsing it again
      gives back the locations. */
  lemma ParseFoundInJoin(locs: seq<string>)
    requires forall k :: 0 <= k < |locs| ==> IsCleanLocation(locs[k])
    ensures ParseFoundIn(Join(locs, ',')) == locs
  {
    if |locs| > 0 {
      SplitJoin(locs, ',');
      assert Join(locs, ',') != "" by {
        if |locs| > 1 {
          assert Join(locs, ',') == locs[0] + [','] + Join(locs[1..], ',');
        }
      }
      StrippedNonEmptyOfClean(locs);
    }
  }

  lemma {:induction false} StrippedNonEmptyOfClean(locs: seq<string>)
    requires forall k :: 0 <= k < |locs| ==> IsTrimmedText(locs[k])
    ensures StrippedNonEmpty(locs) == locs
    decreases |locs|
  {
    if |locs| > 0 {
      StripOfStripped(locs[0]);
      StrippedNonEmptyOfClean(locs[1..]);
      assert [locs[0]] + locs[1..] == locs;
    }
  }

  // ---------------------------------------------------------------------
  // transform_item

  /** The data fields of merged record `r` are those of the upstream record
      `src`: the English name and description, the category from
      `CATEGORY_MAP` (a missing type read as `"Material"`, an unknown one
      giving `"Material"`), rarity, value, weight and stack size with the
      defaults `"Common"`, 0, 0.1 and 1, the recycle outputs under display
      names, the parsed locations (`None` when there are none) and the image
      file name. */
  predicate UpstreamFields(src: SourceItem, names: map<string, string>, r: CatalogItem) {
    var t := src.itemType.GetOr("Material");
    var locs := ParseFoundIn(src.foundIn);
    && r.name == TextOf(src.name)
    && r.description == TextOf(src.description)
    && (t in CategoryMap ==> r.category == CategoryMap[t])
    && (t !in CategoryMap ==> r.category == "Material")
    && r.rarity == src.rarity.GetOr("Common")
    && r.value == src.value.GetOr(0)
    && r.weight == src.weightKg.GetOr(0.1)
    && r.stackSize == src.stackSize.GetOr(1)
    && r.recycleOutputs == RecycleOutputs(src.recyclesInto, names)
    && (r.foundIn.None? <==> locs == [])
    && (r.foundIn.Some? ==> r.foundIn.value == locs)
    && r.imageUrl == src.imageFilename
  }

  /** The facts about each data field that follow from how it is computed:
      the category is a catalog category, recycle outputs are present only
      with positive counts, and locations only when there is at least one
      clean one. */
  lemma UpstreamShape(src: SourceItem, names: map<string, string>, r: CatalogItem)
    requires UpstreamFields(src, names, r)
    ensures r.category in Categories
    ensures r.recycleOutputs.None? <==> forall i :: 0 <= i < |src.recyclesInto| ==> src.recyclesInto[i].1 <= 0
    ensures r.recycleOutputs.Some? ==>
      && r.recycleOutputs.value != []
      && forall i :: 0 <= i < |r.recycleOutputs.value| ==> r.recycleOutputs.value[i].1 > 0
    ensures r.foundIn.Some? ==>
      && |r.foundIn.value| > 0
      && forall k :: 0 <= k < |r.foundIn.value| ==> IsCleanLocation(r.foundIn.value[k])
  {
  }

  /** The hand-maintained fields of a catalog record. */
  datatype HandFields = HandFields(
    projectUses: seq<string>,
    workshopUses: seq<string>,
    keepForQuests: bool,
    questUses: seq<string>,
    recommendation: string,
    recycleValuePercent: Option<int>)

  /** The hand-maintained fields a merged record gets: those of the matching
      existing record, each missing one at its default, or for a new record
      empty lists, no `keepForQuests`, no recycle value and the automatic
      recommendation. */
  function HandFieldsOf(src: SourceItem, existing: Option<ExistingItem>): HandFields {
    match existing
    case Some(e) =>
      HandFields(
        projectUses := e.projectUses.GetOr([]),
        workshopUses := e.workshopUses.GetOr([]),
        keepForQuests := e.keepForQuests.GetOr(false),
        questUses := e.questUses.GetOr([]),
        recommendation := e.recommendation.GetOr("Either"),
        recycleValuePercent := if e.recycleValuePercent.Some? then e.recycleValuePercent else None)
    case None =>
      HandFields([], [], false, [], AutoRecommend(src).Label(), None)
  }

  /** The record built from the upstream data fields and the given
      hand-maintained fields. */
  function BaseRecord(src: SourceItem, names: map<string, string>, hand: HandFields): (r: CatalogItem)
    ensures UpstreamFields(src, names, r)
    ensures r.projectUses == hand.projectUses && r.workshopUses == hand.workshopUses
    ensures r.keepForQuests == hand.keepForQuests && r.questUses == hand.questUses
    ensures r.recommendation == hand.recommendation && r.recycleValuePercent == hand.recycleValuePercent
  {
    var foundIn := ParseFoundIn(src.foundIn);
    CatalogItem(
      name := TextOf(src.name),
      category := CategoryOf(src.itemType),
      rarity := src.rarity.GetOr("Common"),
      value := src.value.GetOr(0),
      description := TextOf(src.description),
      weight := src.weightKg.GetOr(0.1),
      stackSize := src.stackSize.GetOr(1),
      recycleValuePercent := hand.recycleValuePercent,
      recycleOutputs := RecycleOutputs(src.recyclesInto, names),
      foundIn := if foundIn != [] then Some(foundIn) else None,
      imageUrl := src.imageFilename,
      projectUses := hand.projectUses,
      workshopUses := hand.workshopUses,
      keepForQuests := hand.keepForQuests,
      questUses := hand.questUses,
      recommendation := hand.recommendation)
  }

  /** The merged record for an upstream record. Data fields come from the
      upstream record; the hand-maintained fields come from the matching
      existing record when there is one, and are initialised otherwise,
      with a recommendation from `AutoRecommend`. */
  function TransformItem(src: SourceItem, names: map<string, string>, existing: Option<ExistingItem>): (r: CatalogItem)
    ensures UpstreamFields(src, names, r)
    ensures r.name == TextOf(src.name)
    ensures r.category in Categories
    ensures r.recycleOutputs.None? <==> forall i :: 0 <= i < |src.recyclesInto| ==> src.recyclesInto[i].1 <= 0
    ensures r.recycleOutputs.Some? ==>
      && r.recycleOutputs.value != []
      && forall i :: 0 <= i < |r.recycleOutputs.value| ==> r.recycleOutputs.value[i].1 > 0
    ensures r.foundIn.Some? ==>
      && |r.foundIn.value| > 0
      && forall k :: 0 <= k < |r.foundIn.value| ==> IsCleanLocation(r.foundIn.value[k])
    ensures existing.Some? ==>
      var e := existing.value;
      && r.projectUses == e.projectUses.GetOr([])
      && r.workshopUses == e.workshopUses.GetOr([])
      && r.keepForQuests == e.keepForQuests.GetOr(false)
      && r.questUses == e.questUses.GetOr([])
      && r.recommendation == e.recommendation.GetOr("Either")
      && r.recycleValuePercent == e.recycleValuePercent
    ensures existing.None? ==>
      && r.projectUses == [] && r.workshopUses == [] && r.questUses == []
      && !r.keepForQuests
      && r.recycleValuePercent.None?
      && r.recommendation == AutoRecommend(src).Label()
  {
    var r := BaseRecord(src, names, HandFieldsOf(src, existing));
    UpstreamShape(src, names, r);
    r
  }

  /** Merging an upstream record against the record a previous merge wrote
      for it changes nothing: the hand-maintained fields survive a second
      run. */
  lemma TransformIsStable(src: SourceItem, names: map<string, string>, existing: Option<ExistingItem>)
    ensures var first := TransformItem(src, names, existing);
      TransformItem(src, names, Some(AsExisting(first))) == first
  {
  }

  /** The advice counts every `recyclesInto` entry while the recycle
      outputs keep only positive counts, so an ordinary new record whose
      entries all have count zero or less is advised Recycle and yet has
      no recycle outputs. */
  lemma RecycleAdviceWithoutOutputs(src: SourceItem, names: map<string, string>)
    requires |src.recyclesInto| > 0
    requires forall i :: 0 <= i < |src.recyclesInto| ==> src.recyclesInto[i].1 <= 0
    requires TypeOf(src) == "" && RarityOf(src) == "Common"
    ensures TransformItem(src, names, None).recommendation == "Recycle"
    ensures TransformItem(src, names, None).recycleOutputs.None?
  {
  }

  /** A new record's advice agrees with its category: Quest-category records
      are kept and Valuable-category records are sold. */
  lemma NewRecordAdviceMatchesCategory(src: SourceItem, names: map<string, string>)
    ensures var r := TransformItem(src, names, None);
      && (r.category == "Quest" ==> r.recommendation == "Keep")
      && (r.category == "Valuable" ==> r.recommendation == "Sell")
  {
    CategoryInverse(src.itemType.GetOr("Material"));
  }
}
