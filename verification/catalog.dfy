/** The records the merge script reads and writes, with the JSON keys the
    script consults as fields. A key that is missing, or present with the
    value `null`, is `None`. */
module Catalog {
  import opened Wrappers

  /** A name or description field of a source record. When it is an object
      the script reads its `"en"` entry; any other value is taken through
      `str()`, and `Plain` carries that text. A missing field reads as an
      empty object. */
  datatype LocalizedText = Localized(en: Option<string>) | Plain(text: string)

  /** The English text, `""` when there is none. */
  function TextOf(t: LocalizedText): string {
    match t
    case Localized(en) => en.GetOr("")
    case Plain(s) => s
  }

  /** One record of the upstream item data set, under its item id. A missing
      or `null` `recyclesInto` is the empty list of entries, a missing or
      `null` `foundIn` the empty string. */
  datatype SourceItem = SourceItem(
    id: string,
    name: LocalizedText,
    description: LocalizedText,
    itemType: Option<string>,
    rarity: Option<string>,
    value: Option<int>,
    weightKg: Option<real>,
    stackSize: Option<int>,
    recyclesInto: seq<(string, int)>,
    foundIn: string,
    imageFilename: Option<string>)

  /** The fields of a record already in the local catalog that the merge
      reads: its name and the hand-maintained fields it preserves. */
  datatype ExistingItem = ExistingItem(
    name: Option<string>,
    projectUses: Option<seq<string>>,
    workshopUses: Option<seq<string>>,
    keepForQuests: Option<bool>,
    questUses: Option<seq<string>>,
    recommendation: Option<string>,
    recycleValuePercent: Option<int>)

  /** A record of the merged catalog. */
  datatype CatalogItem = CatalogItem(
    name: string,
    category: string,
    rarity: string,
    value: int,
    description: string,
    weight: real,
    stackSize: int,
    recycleValuePercent: Option<int>,
    recycleOutputs: Option<seq<(string, int)>>,
    foundIn: Option<seq<string>>,
    imageUrl: Option<string>,
    projectUses: seq<string>,
    workshopUses: seq<string>,
    keepForQuests: bool,
    questUses: seq<string>,
    recommendation: string)

  /** How a merged record reads back as an existing record the next time the
      merge runs on the catalog it wrote. */
  function AsExisting(c: CatalogItem): ExistingItem {
    ExistingItem(
      name := Some(c.name),
      projectUses := Some(c.projectUses),
      workshopUses := Some(c.workshopUses),
      keepForQuests := Some(c.keepForQuests),
      questUses := Some(c.questUses),
      recommendation := Some(c.recommendation),
      recycleValuePercent := c.recycleValuePercent)
  }
}
