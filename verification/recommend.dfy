/** `auto_recommend`: the keep/sell/recycle advice given to records that
    have no hand-written recommendation yet. */
module Recommend {
  import opened Wrappers
  import opened Catalog

  datatype Recommendation = Keep | Sell | Recycle | Either {
    function Label(): string {
      match this
      case Keep => "Keep"
      case Sell => "Sell"
      case Recycle => "Recycle"
      case Either => "Either"
    }
  }

  /** The type the rules look at; a missing type is `""`. */
  function TypeOf(item: SourceItem): string { item.itemType.GetOr("") }

  /** The rarity the rules look at; a missing rarity is `"Common"`. */
  function RarityOf(item: SourceItem): string { item.rarity.GetOr("Common") }

  predicate IsQuestType(t: string) { t == "Key" || t == "Quest Item" }

  predicate IsRarePlus(rarity: string) { rarity == "Rare" || rarity == "Epic" || rarity == "Legendary" }

  predicate IsConsumableType(t: string) { t == "Quick Use" || t == "Consumable" }

  predicate IsGearType(t: string) {
    t == "Weapon" || t == "Armor" || t == "Armor Plate" || t == "Helmet Plate" || t == "Attachment"
  }

  /** The rules in priority order: quest items, valuables, rare and better,
      consumables, anything that recycles into something, gear, the rest.
      The contract is the same rule set as a flat decision table: each
      recommendation together with the exact inputs that produce it. */
  function AutoRecommend(item: SourceItem): (r: Recommendation)
    ensures r == Sell <==> TypeOf(item) == "Valuable"
    ensures r == Recycle <==>
      && !IsQuestType(TypeOf(item)) && TypeOf(item) != "Valuable"
      && !IsRarePlus(RarityOf(item)) && !IsConsumableType(TypeOf(item))
      && |item.recyclesInto| > 0
    ensures r == Either <==>
      && !IsQuestType(TypeOf(item)) && TypeOf(item) != "Valuable"
      && !IsRarePlus(RarityOf(item)) && !IsConsumableType(TypeOf(item))
      && |item.recyclesInto| == 0 && !IsGearType(TypeOf(item))
    ensures r == Keep <==>
      || IsQuestType(TypeOf(item))
      || (TypeOf(item) != "Valuable"
          && (|| IsRarePlus(RarityOf(item))
              || IsConsumableType(TypeOf(item))
              || (|item.recyclesInto| == 0 && IsGearType(TypeOf(item)))))
  {
    var t := TypeOf(item);
    if IsQuestType(t) then Keep
    else if t == "Valuable" then Sell
    else if IsRarePlus(RarityOf(item)) then Keep
    else if IsConsumableType(t) then Keep
    else if |item.recyclesInto| > 0 then Recycle
    else if IsGearType(t) then Keep
    else Either
  }

  /** For quest items, valuables, items of rarity Rare or better and
      consumables the advice does not depend on the recycle outputs. */
  lemma RecycleOutputsOnlyDecideOrdinaryItems(item: SourceItem, entries: seq<(string, int)>)
    requires || IsQuestType(TypeOf(item)) || TypeOf(item) == "Valuable"
             || IsRarePlus(RarityOf(item)) || IsConsumableType(TypeOf(item))
    ensures AutoRecommend(item.(recyclesInto := entries)) == AutoRecommend(item)
  {
  }
}
