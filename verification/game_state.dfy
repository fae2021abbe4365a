/** The host's game state, reduced to the plain values the tooltip logic
    reads, and the small lookups into it: which item tables are enabled,
    which item a hovered cell stands for, what the player wears in a slot,
    and what a skill is called. */
module GameState {
  import opened Common
  import Text

  /** A stat bonus an item grants while worn. */
  datatype Effect = Effect(skill: int, amount: int)

  /** A stat change applied when the item is eaten; an amount that is not a
      whole number is a fraction of the skill's current level. */
  datatype EdibleEffect = EdibleEffect(skill: int, amount: real)

  /** The static definition of an item: absent effect lists are empty, and
      `equipmentType` is the loadout slot of an equippable item. */
  datatype ItemDef = ItemDef(
    equippable: seq<Effect>,
    edible: seq<EdibleEffect>,
    equipmentType: Option<int>)

  /** One entry of a skill table; `level` is absent when the entry has none. */
  datatype SkillEntry = SkillEntry(level: Option<int>)

  /** A skill table indexed by skill id; holes are `None`. */
  type SkillTable = seq<Option<SkillEntry>>

  datatype Hitpoints = Hitpoints(currentLevel: Option<int>, level: Option<int>)

  /** The main player: hitpoints, the combat and the general skill tables,
      and the worn items indexed by equipment slot. */
  datatype Player = Player(
    hitpoints: Option<Hitpoints>,
    combatSkills: SkillTable,
    generalSkills: SkillTable,
    loadout: seq<Option<ItemDef>>)

  /** Current hitpoints, 0 when unknown. */
  function CurrentHp(p: Player): (hp: int)
    ensures p.hitpoints.Some? && p.hitpoints.value.currentLevel.Some? ==> hp == p.hitpoints.value.currentLevel.value
    ensures p.hitpoints.None? || p.hitpoints.value.currentLevel.None? ==> hp == 0
  {
    match p.hitpoints
    case Some(h) => h.currentLevel.GetOr(0)
    case None => 0
  }

  /** Maximum hitpoints, 0 when unknown. */
  function MaxHp(p: Player): (hp: int)
    ensures p.hitpoints.Some? && p.hitpoints.value.level.Some? ==> hp == p.hitpoints.value.level.value
    ensures p.hitpoints.None? || p.hitpoints.value.level.None? ==> hp == 0
  {
    match p.hitpoints
    case Some(h) => h.level.GetOr(0)
    case None => 0
  }

  datatype TableKind = Inventory | Bank | Shop

  /** The three tooltip toggles. */
  datatype Settings = Settings(enable: bool, bankTooltips: bool, shopTooltips: bool)

  /** Whether hovering a cell of a table of this kind may show a tooltip:
      the inventory needs only `enable`, bank and shop need their own toggle too. */
  function TableEnabled(kind: TableKind, s: Settings): (b: bool)
    ensures b ==> s.enable
    ensures kind == Inventory ==> (b <==> s.enable)
    ensures kind == Bank ==> (b <==> s.enable && s.bankTooltips)
    ensures kind == Shop ==> (b <==> s.enable && s.shopTooltips)
  {
    match kind
    case Inventory => s.enable
    case Bank => s.enable && s.bankTooltips
    case Shop => s.enable && s.shopTooltips
  }

  /** The table kinds whose cell selector is joined into the hover selector,
      in the order they are pushed. */
  function SelectorKinds(s: Settings): (kinds: seq<TableKind>)
    ensures |kinds| == 0 <==> !s.enable
    ensures forall k :: k in kinds <==> TableEnabled(k, s)
    ensures forall i, j :: 0 <= i < j < |kinds| ==> kinds[i] != kinds[j]
    ensures |kinds| > 0 ==> kinds[0] == Inventory
  {
    (if s.enable then [Inventory] else [])
    + (if s.enable && s.bankTooltips then [Bank] else [])
    + (if s.enable && s.shopTooltips then [Shop] else [])
  }

  /** The item tables the host keeps, indexed by slot. */
  datatype ItemTables = ItemTables(
    inventory: seq<Option<ItemDef>>,
    bank: seq<Option<ItemDef>>,
    shop: seq<Option<ItemDef>>)

  function ItemsOf(tables: ItemTables, kind: TableKind): seq<Option<ItemDef>> {
    match kind
    case Inventory => tables.inventory
    case Bank => tables.bank
    case Shop => tables.shop
  }

  /** An item-table cell under the pointer: the kind of its table and its
      `data-slot` attribute, absent when missing, empty or not a number. */
  datatype Cell = Cell(kind: TableKind, slot: Option<int>)

  /** The definition of the hovered item, or `None` when the hover is to be
      ignored. */
  function ResolveHover(target: Option<Cell>, s: Settings, tables: ItemTables): (r: Option<ItemDef>)
    ensures r.Some? ==> && target.Some?
                        && TableEnabled(target.value.kind, s)
                        && target.value.slot.Some?
                        && At(ItemsOf(tables, target.value.kind), target.value.slot.value) == r
    ensures (target.Some? && TableEnabled(target.value.kind, s) && target.value.slot.Some?)
            ==> r == At(ItemsOf(tables, target.value.kind), target.value.slot.value)
  {
    var kinds := SelectorKinds(s);
    if |kinds| == 0 then None
    else
      match target
      case None => None
      case Some(cell) =>
        if cell.kind !in kinds then None
        else
          match cell.slot
          case None => None
          case Some(i) => At(ItemsOf(tables, cell.kind), i)
  }

  /** With the plugin disabled no hover resolves to an item, whatever the
      bank and shop toggles say. */
  lemma DisabledResolvesNothing(target: Option<Cell>, s: Settings, tables: ItemTables)
    requires !s.enable
    ensures ResolveHover(target, s, tables) == None
  {
  }

  /** The equippable effects of the item worn in `slot`, empty when the
      slot is unknown or nothing is worn there. */
  function EquippedEffects(loadout: seq<Option<ItemDef>>, slot: Option<int>): (r: seq<Effect>)
    ensures (slot.Some? && At(loadout, slot.value).Some?) ==> r == At(loadout, slot.value).value.equippable
    ensures (slot.None? || At(loadout, slot.value).None?) ==> r == []
  {
    match slot
    case None => []
    case Some(i) =>
      match At(loadout, i)
      case None => []
      case Some(d) => d.equippable
  }

  const FallbackPrefix: string := "Skill "

  /** The display name of a skill: the lookup table's entry, else "Skill <id>". */
  function SkillName(names: seq<Option<string>>, id: int): (r: string)
    ensures At(names, id).Some? ==> r == At(names, id).value
    ensures At(names, id).None? ==> |r| > |FallbackPrefix| && r[..|FallbackPrefix|] == FallbackPrefix
    // the fallback's remainder is the id's decimal text: it reads back as the id
    ensures At(names, id).None? ==>
              && (r[|FallbackPrefix|] == '-' || Text.IsDigit(r[|FallbackPrefix|]))
              && Text.AllDigits(r[|FallbackPrefix| + 1..])
              && Text.SignedValue(r[|FallbackPrefix|..]) == id
              && r[|FallbackPrefix|..] == Text.IntText(id)
  {
    match At(names, id)
    case Some(n) => n
    case None =>
      var digits := Text.IntText(id);
      Text.IntTextRoundTrip(id);
      assert (FallbackPrefix + digits)[|FallbackPrefix|..] == digits;
      FallbackPrefix + digits
  }

  /** Two skills missing from the lookup table never share a fallback name. */
  lemma FallbackNamesDistinct(names: seq<Option<string>>, a: int, b: int)
    requires At(names, a).None? && At(names, b).None?
    requires a != b
    ensures SkillName(names, a) != SkillName(names, b)
  {
  }
}
