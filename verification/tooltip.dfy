/** The tooltip's content for a hovered item: the bonus comparison against
    the item worn in its slot, then the consumable preview. */
module Tooltip {
  import opened Common
  import opened GameState
  import opened BonusDiff
  import opened EdiblePreview

  datatype TooltipBody = TooltipBody(bonuses: seq<BonusLine>, edibles: seq<EdibleFragment>)

  function Compose(def: ItemDef, player: Player): (b: TooltipBody)
    ensures b.bonuses == Diff(def.equippable, EquippedEffects(player.loadout, def.equipmentType))
    ensures |def.equippable| == 0 ==> b.bonuses == []
    // nothing to compare with: every bonus is listed at its own amount
    ensures def.equipmentType.None? ==>
              && |b.bonuses| == |def.equippable|
              && forall i :: 0 <= i < |b.bonuses| ==>
                   b.bonuses[i].skill == def.equippable[i].skill && b.bonuses[i].delta == def.equippable[i].amount
    ensures |b.edibles| == |def.edible|
    ensures forall i :: 0 <= i < |b.edibles| ==>
              b.edibles[i] == FragmentOf(def.edible[i], MergeTables(player.combatSkills, player.generalSkills),
                                         CurrentHp(player), MaxHp(player))
  {
    var equipped := EquippedEffects(player.loadout, def.equipmentType);
    TooltipBody(
      Diff(def.equippable, equipped),
      Preview(def.edible, MergeTables(player.combatSkills, player.generalSkills), CurrentHp(player), MaxHp(player)))
  }

  /** Hovering a copy of the worn item shows no change, when it repeats no skill. */
  lemma WornCopyShowsNoChange(def: ItemDef, player: Player, slot: int)
    requires def.equipmentType == Some(slot) && At(player.loadout, slot) == Some(def)
    requires DistinctSkills(def.equippable)
    ensures forall l :: l in Compose(def, player).bonuses ==> l.delta == 0 && l.style == Neutral
  {
  }
}
