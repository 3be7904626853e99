# Item merge: a Dafny model

`Tools/merge_items.py` builds the app's item catalog (`items.json`). It merges
the upstream item records of the RaidTheory data set into the local catalog.
Each upstream record is matched by name against the existing catalog: first an
exact match on a normalised key, then a fuzzy match by edit distance. The
upstream data fields are then taken over. The hand-maintained fields
(`projectUses`, `workshopUses`, `keepForQuests`, `questUses`, `recommendation`,
`recycleValuePercent`) of the matched record are kept. A record with no match
gets empty defaults and an automatic keep/sell/recycle recommendation. The
merged catalog is sorted by lower-cased name and counted as
updated/added/skipped.

This project models the pure part of that script:

- `Names`: `normalize_name`.
- `Levenshtein`: `levenshtein_distance`, as a method proved equal to a
  recursive definition of edit distance.
- `Lookup`:
  - the `existing_by_name` index;
  - `find_existing_item`, with its first-closest tie-break.
- `Recommend`: `auto_recommend`.
- `Transform`:
  - `CATEGORY_MAP`;
  - `id_to_display_name`;
  - `parse_found_in`;
  - the recycle-output conversion;
  - `transform_item`.
- `Merge`: the id-to-name table, the merge loop with its counters, and the final
  sort.
- `Text` and `Catalog` hold what these share:
  - Python's white space, `strip`, `split`/`join`;
  - ASCII `lower`/`title`;
  - string order;
  - the record types.

Python dicts keep insertion order. The fuzzy search breaks ties by that order,
and `json.dump` writes the recycle outputs in that order. So these two dicts,
the name index and each record's `recycleOutputs`, are modelled as sequences of
key/value pairs with distinct keys. Assigning to a present key keeps its place;
a new key goes to the end. The id-to-name table is only ever looked up, so it is
a Dafny `map`.

The admissibility bound `distance <= max(3, len * 0.2)` is stated over the
integers as `d <= 3 || 5 * d <= len`. The two agree for every length below
2^50, which covers every name:

- If `5 * d <= len`, the script admits the key too. The double nearest 0.2
  is slightly above 1/5, so `len * 0.2` is at least `d` before rounding.
  Rounding to nearest cannot then fall below the representable integer `d`.
- If `5 * d > len`, then `d - len / 5 >= 0.2`. Below 2^50 the excess of the
  double 0.2 over 1/5, times `len`, plus half an ulp of the product, stays
  under 0.2, so the script rejects the key too.
- For longer lengths the converse can fail. At `len = 9007199254740794` and
  `d = 1801439850948159` the double product admits `d` although `5 * d > len`.

## Model

| member | source | states |
|---|---|---|
| Names.NormalizeName | Tools/merge_items.py:193-197 | the key is empty for an empty name, is no longer than the name, and consists only of `a`-`z` and `0`-`9`; what becomes of each character is stated by `FoldChar` and the lemmas below |
| Names.FoldChar | Tools/merge_items.py:197 | one character's share of the key: an ASCII letter in lower case, a digit as it is, U+212A as `k`, U+0130 as `i`, and nothing for every other character |
| Names.NormalizeDrops | Tools/merge_items.py:197 | a character that is not an ASCII letter, a digit or one of the two special letters is deleted wherever it stands, so "Scrap-Metal" and "scrap metal" share a key |
| Names.NormalizeKeeps | Tools/merge_items.py:197 | an ASCII letter or digit stays in its place, in lower case |
| Names.NormalizeConcat | Tools/merge_items.py:197 | normalisation works character by character: the key of a concatenation is the concatenation of the keys |
| Names.NormalizeFixedPoint | Tools/merge_items.py:193-197 | a string is its own key exactly when it already consists of lower-case ASCII letters and digits |
| Names.NormalizeIdempotent | Tools/merge_items.py:193-197 | normalising a key again changes nothing, so stored keys and looked-up keys live in the same space |
| Names.NormalizeIgnoresCase | Tools/merge_items.py:197 | names that differ only in ASCII letter case get the same key |
| Levenshtein.LevenshteinDistance | Tools/merge_items.py:312-329 | the two-row algorithm, including the swap to make `s1` the longer string, returns the edit distance, in either argument order |
| Levenshtein.NextRow | Tools/merge_items.py:320-327 | one pass of the inner loop turns row `i` of the edit-distance table into row `i + 1` |
| Levenshtein.EditDistanceCell | Tools/merge_items.py:323-326 | each table cell is the minimum of the insertion, deletion and substitution costs of its neighbours |
| Levenshtein.EditDistanceSymmetric | Tools/merge_items.py:314-315 | swapping the arguments does not change the distance, which is why the source may swap them |
| Levenshtein.EditDistanceToEmpty | Tools/merge_items.py:316-317 | the distance to the empty string is the other string's length |
| Levenshtein.EditDistanceZeroIff | Tools/merge_items.py:312-329 | the distance is zero exactly when the strings are equal |
| Levenshtein.EditDistanceUpperBound | Tools/merge_items.py:312-329 | the distance is at most the longer length |
| Levenshtein.EditDistanceLowerBound | Tools/merge_items.py:312-329 | the distance is at least the difference of the lengths |
| Lookup.Get | Tools/merge_items.py:337-338 | a dict lookup misses exactly when no entry has the key; a hit is the value of an entry with that key, and the key's value when keys are distinct |
| Lookup.Put | Tools/merge_items.py:390 | assignment keeps the key order of a present key, appends a new key, and keeps keys distinct |
| Lookup.PutGet | Tools/merge_items.py:390 | after `d[k] = v`, `k` maps to `v` and every other key maps to what it did before |
| Lookup.BuildIndex | Tools/merge_items.py:386-390 | the index holds every non-empty key once, in order of first appearance, each mapped to the last existing record with that key; records with an empty key are not indexed |
| Lookup.FuzzyScan | Tools/merge_items.py:341-352 | the fuzzy loop returns an admissible entry that no admissible entry beats, and that is strictly closer than every admissible entry before it; it returns nothing only when no entry is admissible |
| Lookup.FindByKey | Tools/merge_items.py:336-352 | for a normalised name: an exact key hit is returned as is; otherwise the result is absent exactly when no key is within `max(3, 0.2 * len)` edits, and else is the first closest such entry; any result is a record of the index |
| Lookup.FindExistingItem | Tools/merge_items.py:332-334 | the lookup searches under the normalised name; whatever it finds is a record of the index, and an empty index finds nothing |
| Lookup.FindIgnoresCase | Tools/merge_items.py:334 | matching ignores ASCII letter case: a lower-cased name finds the same record |
| Lookup.BestIsUnique | Tools/merge_items.py:344-350 | the first closest admissible entry is unique, so the fuzzy search has one correct answer |
| Lookup.ExactMatchIsFuzzyBest | Tools/merge_items.py:336-338 | in an index with distinct keys, the fuzzy search alone would find the exact key too, so the exact lookup is only a shortcut |
| Recommend.AutoRecommend | Tools/merge_items.py:215-245 | the rule chain as a flat table: Sell exactly for valuables; Recycle and Either exactly under the listed conditions; Keep exactly for quest items, rare-plus, consumables, and gear without recycle outputs |
| Recommend.RecycleOutputsOnlyDecideOrdinaryItems | Tools/merge_items.py:220-235 | for quest items, valuables, rare-plus items and consumables the recycle entries do not affect the advice |
| Transform.CategoryOf | Tools/merge_items.py:258-260 | the category comes from the type table, a missing or unknown type giving `Material`, and is always one of the eleven catalog categories |
| Transform.CategoryInverse | Tools/merge_items.py:45-66 | only `Key` and `Quest Item` map to `Quest`, and only `Valuable` maps to `Valuable` |
| Transform.IdToDisplayName | Tools/merge_items.py:200-205 | a known id gives its upstream name; an unknown id gives, character by character, a space for `_`, every other non-letter as it is, a letter that starts a word in upper case and a letter after a letter in lower case |
| Text.TitleProperties | Tools/merge_items.py:205 | title-casing changes only letter case: a letter at the start of a word becomes upper case, a letter after a letter lower case, and all other characters stay |
| Transform.CollectBy | Tools/merge_items.py:266-270 | the loop over `recyclesInto` with a key per entry: the dict's keys are distinct and are the keys of the entries with a positive count in order of first appearance, and each key's value is the count of the last such entry |
| Transform.PositiveKeys | Tools/merge_items.py:267-268 | the keys listed are exactly those of entries with a positive count |
| Transform.LastPositive | Tools/merge_items.py:267-270 | the value stored under a key is absent exactly when no entry with a positive count has it, is positive, and is the count of the last such entry |
| Transform.CollectOutputs | Tools/merge_items.py:266-270 | the dict has distinct keys in order of first appearance, exactly the display names of the entries with a positive count, all counts positive, and each display name holds the count of its last such entry |
| Transform.RecycleOutputs | Tools/merge_items.py:262-272 | the outputs are absent exactly when no entry has a positive count, and otherwise are that non-empty dict |
| Transform.StrippedNonEmpty | Tools/merge_items.py:212 | the stripped pieces kept are non-empty, have no white space at either end, and are no more than the pieces |
| Transform.StrippedNonEmptyKeeps | Tools/merge_items.py:212 | the result is the stripped pieces at increasing positions, and every piece that does not strip to `""` is among them, so it is exactly the non-blank stripped pieces in order |
| Transform.StrippedNonEmptyCommaFree | Tools/merge_items.py:212 | stripping comma-free pieces leaves them comma-free |
| Transform.ParseFoundIn | Tools/merge_items.py:208-212 | an empty string gives no locations; every location is non-empty, trimmed and comma-free; the locations are the stripped comma-separated pieces that are not blank, in order |
| Transform.ParseFoundInJoin | Tools/merge_items.py:208-212 | writing clean locations comma-separated and parsing them gives back the same list |
| Text.StripSlice | Tools/merge_items.py:212 | `strip()` returns a contiguous slice of its input, and is empty exactly when the input is all white space |
| Text.StripOfStripped | Tools/merge_items.py:212 | stripping already trimmed text changes nothing |
| Text.JoinSplit | Tools/merge_items.py:212 | joining the pieces of `split(",")` with commas gives back the string |
| Text.SplitJoin | Tools/merge_items.py:212 | splitting comma-free pieces joined with commas gives back the pieces |
| Transform.BaseRecord | Tools/merge_items.py:274-290 | the data fields come from the upstream record: name and description, the category from `CATEGORY_MAP` with `Material` for a missing or unknown type, rarity `Common`, value 0, weight 0.1 and stack size 1 when missing, the recycle outputs, the parsed locations or `None` when there are none, and the image file name; the hand-maintained fields are the given ones |
| Transform.TransformItem | Tools/merge_items.py:248-309 | every data field as for `BaseRecord`, with the category one of the catalog's, recycle outputs and locations as above; a matched record's hand-maintained fields are copied, with the defaults for missing ones; a new record gets empty lists, no `keepForQuests`, no recycle value and the automatic recommendation |
| Transform.TransformIsStable | Tools/merge_items.py:293-307 | merging an upstream record against the record an earlier merge wrote for it changes nothing |
| Transform.RecycleAdviceWithoutOutputs | Tools/merge_items.py:237-239 | the advice counts entries whatever their count, so an ordinary new record whose counts are all zero or less is advised Recycle while having no recycle outputs |
| Transform.NewRecordAdviceMatchesCategory | Tools/merge_items.py:220-226 | a new record in the Quest category is advised Keep, and one in the Valuable category Sell |
| Merge.IdToNameMap | Tools/merge_items.py:370-375 | exactly the ids with a non-empty English name are mapped, each to that name |
| Merge.MergeLoop | Tools/merge_items.py:398-413 | every upstream record is counted once as updated, added or skipped; skipped counts the records without a name; updated counts the matched ones; the output is the transform of each named record, in order, against its match |
| Merge.Insert | Tools/merge_items.py:416 | inserting into a name-sorted list keeps it sorted and adds exactly the one record |
| Merge.SortByName | Tools/merge_items.py:416 | the result is sorted by lower-cased name and is a permutation of the input |
| Merge.MergeCatalog | Tools/merge_items.py:396-416 | the counts add up to the number of upstream records; skipped counts the records without a name and updated those named records that match an existing record, so added counts the new ones; the output has one record per updated or added item, is sorted by lower-cased name, is a permutation of the merge loop's records, and holds only named records |
| Text.LexLeTotal | Tools/merge_items.py:416 | Python's string order is total, so any two sort keys are comparable |
| Text.LexLeTransitive | Tools/merge_items.py:416 | Python's string order is transitive |

## Left out

- Downloading, retrying, rate limiting and caching (`get_github_token`, `make_request`, `fetch_raw_file`, `get_item_list`, `download_all_items`, lines 69-190): network and file I/O. The model takes the downloaded records as an input sequence.
- Argument parsing, progress printing, the merge report printout, reading and writing `items.json`, and the dry-run preview of new items (lines 355-440): I/O. The counts the report prints are modelled by `Merge.MergeReport`.
- Duplicate upstream ids: `download_all_items` keys each record by its own `id` field, falling back to the file name without `.json` (line 183); `SourceItem.id` is that key. The input sequence stands for the items of that dict in download order, so its ids are taken to be distinct. When a later file repeats an id, the dict keeps the later record in the earlier one's place; `MergeLoop` and `MergeCatalog` do not model that replacement.
- JSON `null`: a field holding `null` is treated as a missing field (`Option.None`). The script's `.get(key, default)` would return `None` for it instead of the default.
- Name values that are not objects: `str(name_obj)` is taken as already-converted text (`LocalizedText.Plain`). Python's `str()` of numbers or lists is not modelled.
- Unicode case mapping in `lower()` and `title()`: both are ASCII-only, so the sort key and the fallback display name of non-ASCII ids may differ from Python. `normalize_name` is exact, because the only non-ASCII characters whose lower-case form survives its filter are U+212A and U+0130, and both are modelled.
- Numbers: `weightKg` is a `real`, and `value`, `stackSize` and recycle counts are integers. JSON floats in those integer fields are not modelled.
- Merge.SortByName: states sortedness and permutation but not stability. The insertion sort is stable by construction, as Python's sort is, but no lemma states it.
- Merge.IdToNameMap: the value of each id is stated for distinct ids only. Ids are the keys of a Python dict, so they are always distinct there.
- The fields of an existing record that `transform_item` does not read are not modelled. The merged record replaces it entirely.
- The app's own item resolver matches names by a normalised similarity of at least 0.60. It lives in the app's C# code, which is not part of this model. The script uses the absolute edit-distance bound above, and the model follows the script.
