# Inventory tooltips — a Dafny model

This project models the computation inside the `InventoryTooltips` game-client
plugin (`src/InventoryTooltips.ts`): what its item tooltip says and where it
goes. The browser and the host game are replaced by plain values:

- The hovered item's definition and the player's state become datatypes
  (`GameState`).
- Equipment and consumable effects become sequences of `{skill, amount}`.
- The skill tables are sequences of optional entries.
- Pointer position and tooltip size are integers.

The model has these parts:

- `BonusDiff`: the equipment bonus comparison. There is one signed change per
  bonus of the hovered item. Each is compared with the first bonus of the same
  skill on the item worn in that slot. Then comes one loss line per worn bonus
  whose skill the hovered item lacks. Each line carries a positive, negative or
  no styling class.
- `EdiblePreview`: the consumable preview. The combat and general skill tables
  are merged, with general entries overriding. A non-whole amount is a share of
  the skill's level, rounded half up and shown as at least 1, with its
  percentage printed beside it. Every effect gets exactly one of three classes:
  harmful, overheal or normal heal.
- `TooltipPosition`: the placement rule. The tooltip flips right at the left
  edge and upward at the bottom of the game container, and both coordinates
  are clamped to 5 px.
- `Lifecycle`: the start/stop and show/tear-down protocol. It keeps at most one
  mousemove listener and one tooltip container live, and ignores hovers while
  the plugin is stopped.
- `GameState`: the table-enable selector, the hovered-item lookup, the worn
  item lookup and skill names with the "Skill <id>" fallback.
- `Tooltip`: puts the bonus comparison and the consumable preview together
  for one item.
- `Text`: how integral numbers print, with a proof that the printed form reads
  back to the same number.

Some properties hold only under extra conditions, and lemmas state them that
way:

- "every skill is listed once" (`BonusDiff.DiffListsSkillsOnce`) needs items
  that do not repeat a skill;
- "an item compared with itself shows no change"
  (`BonusDiff.IdenticalItemsShowNoChange`) needs the same.
  The first holds because every hovered bonus gets a line and every worn bonus
  whose skill the hovered item lacks gets a loss line, so a repeated skill is
  listed twice. The second holds because `Array.find` compares every hovered
  bonus with the first worn bonus of its skill, and
  `BonusDiff.RepeatedSkillShowsChange` shows a repeated skill giving a change.
- The minimum magnitude of 1 applies to every level-relative effect, negative
  ones included, so a level-relative loss always prints 1
  (`EdiblePreview.NegativePercentShowsOne`). The model follows the code here.

## Model

| member | source | states |
|---|---|---|
| `Text.IntText` | src/InventoryTooltips.ts:209 | an integral number prints with a leading '-' exactly when it is negative, followed by digits only, in canonical form: no leading zero and no "-0" |
| `Text.NatTextRoundTrip` | src/InventoryTooltips.ts:209 | the printed digits of a natural number read back as that number |
| `Text.IntTextRoundTrip` | src/InventoryTooltips.ts:209 | the printed form of every integer, sign included, reads back as that integer |
| `Text.IntTextInjective` | src/InventoryTooltips.ts:325 | two different numbers never print alike |
| `GameState.SelectorKinds` | src/InventoryTooltips.ts:126-133 | no table is selectable unless `enable` is on; a table kind is selected exactly when its toggles allow it; inventory comes first and no kind repeats |
| `GameState.TableEnabled` | src/InventoryTooltips.ts:127-132 | a table kind is enabled only with `enable` on; inventory needs nothing more, bank and shop each need their own toggle as well |
| `GameState.ResolveHover` | src/InventoryTooltips.ts:122-161 | a hover yields an item only for a cell of an enabled table with a slot attribute, and then it yields exactly the table's entry at that slot (absent when out of range or empty) |
| `GameState.DisabledResolvesNothing` | src/InventoryTooltips.ts:127-133 | with the plugin disabled no hover finds an item, whatever the bank and shop toggles say |
| `GameState.EquippedEffects` | src/InventoryTooltips.ts:187-190 | the comparison uses the worn item's bonuses for the hovered item's slot, and none when the slot is unknown or empty |
| `GameState.CurrentHp` | src/InventoryTooltips.ts:231 | current hitpoints are the player's current hitpoint level, 0 when the hitpoints or the level are missing |
| `GameState.MaxHp` | src/InventoryTooltips.ts:232 | maximum hitpoints are the player's hitpoint level, 0 when the hitpoints or the level are missing |
| `GameState.SkillName` | src/InventoryTooltips.ts:324-326 | a skill's name is its lookup entry when present, otherwise "Skill " followed by the id's decimal text, which reads back as the id |
| `GameState.FallbackNamesDistinct` | src/InventoryTooltips.ts:324-326 | two different skills missing from the lookup never get the same fallback name |
| `BonusDiff.FirstWithSkill` | src/InventoryTooltips.ts:200-202 | finds the first worn bonus with the skill, and finds nothing only when no worn bonus has it |
| `BonusDiff.HoveredLine` | src/InventoryTooltips.ts:198-210 | a hovered bonus's change is its amount minus the first same-skill worn amount, or its own amount when none is worn; the class follows the sign |
| `BonusDiff.HoveredLines` | src/InventoryTooltips.ts:198-211 | exactly one line per hovered bonus, in the hovered order |
| `BonusDiff.LossLine` | src/InventoryTooltips.ts:218-219 | a lost bonus shows the negated worn amount, classed by its sign |
| `BonusDiff.LossLines` | src/InventoryTooltips.ts:213-222 | loss lines never exceed the worn bonuses, name only skills the hovered item lacks, and are classed by sign |
| `BonusDiff.LossLinesSound` | src/InventoryTooltips.ts:213-222 | every loss line is the loss of some worn bonus |
| `BonusDiff.LossLinesComplete` | src/InventoryTooltips.ts:213-222 | every worn bonus whose skill the hovered item lacks has its loss line |
| `BonusDiff.LossLinesAppend` | src/InventoryTooltips.ts:214-222 | loss lines keep the worn order: an earlier part of the worn list gives earlier lines |
| `BonusDiff.LossLinesEmptyWhenCovered` | src/InventoryTooltips.ts:214-215 | a worn item with only skills the hovered item has gives no losses |
| `BonusDiff.LossLinesDistinct` | src/InventoryTooltips.ts:214-222 | a worn item that repeats no skill gives loss lines that repeat no skill |
| `BonusDiff.Diff` | src/InventoryTooltips.ts:185-224 | no lines at all without hovered bonuses (not even losses); otherwise hovered lines first, each with its compared change, then exactly the loss lines of skills the hovered item lacks, in worn order, covering every such worn bonus; every class follows its sign |
| `BonusDiff.LossLinesSkills` | src/InventoryTooltips.ts:213-222 | the loss lines name exactly the worn skills the hovered item lacks |
| `BonusDiff.DiffCoversSkills` | src/InventoryTooltips.ts:193-222 | with hovered bonuses, the listed skills are exactly the union of hovered and worn skills |
| `BonusDiff.DiffListsSkillsOnce` | src/InventoryTooltips.ts:196-222 | when neither item repeats a skill, no skill is listed twice |
| `BonusDiff.IdenticalItemsShowNoChange` | src/InventoryTooltips.ts:198-222 | an item without repeated skills compared with itself lists every bonus once with change 0 and no class, and no losses |
| `BonusDiff.RepeatedSkillShowsChange` | src/InventoryTooltips.ts:200-205 | with a repeated skill, an item compared with itself can show a nonzero change: [1:5, 1:3] gives -2 on its second line |
| `BonusDiff.ExampleComparison` | src/InventoryTooltips.ts:185-224 | hovered {1:5} against worn {1:2, 2:3} lists +3 for skill 1 and then -3 for skill 2 |
| `BonusDiff.DeltaText` | src/InventoryTooltips.ts:209 | a printed change starts with '+' exactly for a gain and with '-' exactly for a loss, is "0" for no change, and its number (after any '+') is the change's canonical decimal text and reads back as the change |
| `EdiblePreview.RoundHalfUp` | src/InventoryTooltips.ts:266 | rounding lands within a half of the value, with halves going up |
| `EdiblePreview.RoundHalfUpMonotone` | src/InventoryTooltips.ts:266 | rounding never reverses order |
| `EdiblePreview.Store` | src/InventoryTooltips.ts:239-245 | an array write sets one index, extends the length to cover it, and leaves every other index as it was |
| `EdiblePreview.Overlay` | src/InventoryTooltips.ts:242-248 | the general-table loop overrides an index exactly where the general entry is present, and otherwise keeps the earlier entry |
| `EdiblePreview.MergeTables` | src/InventoryTooltips.ts:235-248 | the merged table reads as the general entry where present and the combat entry otherwise, and it is at least as long as the combat table |
| `EdiblePreview.IsIntegerMeansWhole` | src/InventoryTooltips.ts:255 | the integrality test behind the percent rule holds of every whole number and fails for every value strictly between two consecutive whole numbers |
| `EdiblePreview.LevelOf` | src/InventoryTooltips.ts:258-265 | the scaled level is current hitpoints for skill 0, else the merged table's level for the skill, and 1 when the entry or its level is missing |
| `EdiblePreview.PercentMagnitude` | src/InventoryTooltips.ts:266-277 | a level-relative magnitude is the rounded share of the level when that is at least 1, and exactly 1 otherwise |
| `EdiblePreview.PercentMagnitudeMonotone` | src/InventoryTooltips.ts:258-266 | for a gain, a higher level never shows a smaller magnitude |
| `EdiblePreview.NegativePercentShowsOne` | src/InventoryTooltips.ts:266-277 | a level-relative loss prints magnitude 1 at any non-negative level |
| `EdiblePreview.FragmentOf` | src/InventoryTooltips.ts:249-277 | a whole amount shows itself with no percentage; a non-whole one shows the level-relative magnitude (current hitpoints for skill 0, table level or 1 otherwise) and its rounded percentage; the prefix is '-' exactly for a negative amount; harmful exactly when negative, overheal exactly when non-negative on skill 0 with current hitpoints plus amount above the maximum |
| `EdiblePreview.Preview` | src/InventoryTooltips.ts:228-279 | one fragment per edible effect, in the item's order |
| `EdiblePreview.PercentHealOverhealsOnlyWhenFull` | src/InventoryTooltips.ts:269-275 | since the test adds the raw multiplier, a level-relative hitpoint heal with a multiplier strictly between 0 and 1 is styled overheal exactly when hitpoints are at or above the maximum |
| `EdiblePreview.PercentHealOverhealUnflagged` | src/InventoryTooltips.ts:255-275 | a half-hitpoints heal at 39 of 40 prints 20 yet is styled as a normal heal |
| `EdiblePreview.ShownTextAsWritten` | src/InventoryTooltips.ts:277 | the printed magnitude is the sign prefix followed by the shown number's own canonical decimal text, which starts with '-' exactly when the number is negative and reads back as the number |
| `EdiblePreview.NegativeIntegerPrintsTwoMinusSigns` | src/InventoryTooltips.ts:277 | an edible amount of -5 prints as "--5" |
| `EdiblePreview.NegativeWholeAmountsPrintTwoMinusSigns` | src/InventoryTooltips.ts:277 | every whole negative edible amount prints with two leading minus signs |
| `EdiblePreview.ShownText` | src/InventoryTooltips.ts:277 | the intended printed magnitude is the sign prefix followed by the canonical decimal digits of the magnitude's size, which read back as that size |
| `EdiblePreview.ShownTextReadsBack` | src/InventoryTooltips.ts:277 | with the intended printing, a whole amount carries one sign, '-' exactly when negative, and reads back as the amount |
| `EdiblePreview.PercentSuffix` | src/InventoryTooltips.ts:277 | nothing without a percentage; otherwise " (", the percentage's canonical decimal text reading back as the percentage, then "%)" |
| `EdiblePreview.FragmentText` | src/InventoryTooltips.ts:277 | the printed value starts with the intended magnitude; a whole amount prints only that, a level-relative one follows it with exactly the percentage suffix, ending in "%)" |
| `EdiblePreview.ExampleHalfHitpoints` | src/InventoryTooltips.ts:231-277 | a half-hitpoints effect at 40 hitpoints shows 20, percentage 50, printed "+20 (50%)" |
| `TooltipPosition.Resolve` | src/InventoryTooltips.ts:376-406 | left and top are never below 5; with room on the left the tooltip's right edge is 5 px right of the pointer, otherwise it starts 5 px right of it; with room below it starts 5 px under the pointer, otherwise it ends 5 px above it or is pinned at the top |
| `TooltipPosition.FitsVertically` | src/InventoryTooltips.ts:382-402 | a tooltip that fits in the container, for a pointer above the bottom margin, stays between the top padding and the bottom margin |
| `TooltipPosition.RightEdgeUnchecked` | src/InventoryTooltips.ts:385-393 | for a pointer left of the tooltip's width, the tooltip starts 5 px right of the pointer and crosses the right edge of any container narrower than pointer, gap and width together, though the tooltip alone fits |
| `TooltipPosition.ExamplePlacement` | src/InventoryTooltips.ts:379-402 | pointer (1000, 50) with a 200x80 tooltip is placed at (805, 55) |
| `Lifecycle.RemoveTooltip` | src/InventoryTooltips.ts:307-317 | afterwards no handler or container is held, only the held listener and container left the page, and nothing else changed |
| `Lifecycle.ShowTooltip` | src/InventoryTooltips.ts:178-301 | tears down first, then holds exactly one new listener and one new container, none of them previously live, with the tooltip placed by the position rule |
| `Lifecycle.Run` | src/InventoryTooltips.ts:178-317 | over any event sequence identifiers only grow, and every listener or container live at the end was live at the start or was issued during the run |
| `Lifecycle.Step` | src/InventoryTooltips.ts:102-170 | while started, a hover that finds an item opens a tooltip; any other hover changes nothing; starting only registers the hover handlers and stopping unregisters them; a move re-places the tooltip by the position rule exactly when a listener is live; a leave is exactly the tear-down and keeps the plugin started, a stop is the tear-down plus stopping, and both leave nothing live; every event keeps at most one listener and container, and anything newly live was freshly issued |
| `Lifecycle.RunKeepsAtMostOne` | src/InventoryTooltips.ts:178-317 | over any event sequence the page holds at most one listener and one container, the ones the plugin holds |
| `Lifecycle.StoppedIgnoresHovers` | src/InventoryTooltips.ts:112-116 | after a stop, no event sequence without a new start opens a tooltip or re-registers the hover handlers |
| `Lifecycle.EndsHiddenAfterTeardown` | src/InventoryTooltips.ts:307-317 | after any events ending in a pointer-leave or a stop, no listener, container or handler remains |
| `Tooltip.Compose` | src/InventoryTooltips.ts:184-280 | the bonus lines are the comparison with the item worn in the hovered item's slot (none for an item without equippable effects; each bonus at its own amount for an item without a slot); one consumable fragment per edible effect, computed from the merged skill table and the player's hitpoints |
| `Tooltip.WornCopyShowsNoChange` | src/InventoryTooltips.ts:187-208 | hovering a copy of the worn item, without repeated skills, shows every change as 0 with no class |

## Left out

- DOM and event plumbing: adding and removing document listeners, `closest`
  selector matching, `getBoundingClientRect` and element creation. The model
  keeps only the values these produce or consume: the hovered cell, the
  tooltip size, the container height and the listener/container sets.
- HTML assembly of the tooltip: the `innerHTML` strings and the title with the
  item name. The model keeps the computed lines and fragments and the
  printed numbers, not the markup.
- `GameState.ResolveHover`: a hovered element is taken to lie in at most one
  item-table cell, so nested tables do not occur. Slot strings that are missing
  or do not parse as numbers become absent, and other `parseInt` behaviour is
  not modelled.
- CSS injection (`addPluginStyle`) and settings registration in the constructor:
  these are style strings and configuration with no computed behaviour.
- Re-running `start` from the bank/shop toggle callbacks is not modelled. The
  document de-duplicates the same listener, so it changes nothing the model
  tracks.
- Host object-graph traversal (`gameHooks`, `gameLookups`) is replaced by the
  parameters `Player`, `ItemTables`, `Settings` and a skill-name table.
- `EdiblePreview.FragmentOf`: amounts are exact reals. `Number.isInteger` and
  `Math.round` are modelled as an integrality test and round-half-up, without
  IEEE floating-point error.
- `BonusDiff.Diff`: equippable bonus amounts are whole numbers, because the
  game's equipment bonuses are whole numbers and the printing of fractional
  JavaScript numbers is not modelled. `BonusDiff.DeltaText` likewise prints
  whole changes only.
- `TooltipPosition.Resolve`: positions and sizes are integers, while the
  browser measures fractional pixels.
- `EdiblePreview.MergeTables`: the merged JavaScript array's trailing holes are
  not tracked exactly. Reads are modelled as `At`, where an index out of range
  and a hole both read as absent, which is how the source reads them.
- `Lifecycle.ShowTooltip`: the initial style position (pointer + 10) is not
  recorded, because the immediate position update overwrites it before any
  event.
- `Text.IntText`: every integer prints as its plain decimal digits. JavaScript
  prints magnitudes of 1e21 and above in exponent form, and integers above 2^53
  are not exact; neither is modelled.
- Skill names are taken as strings. A non-string entry of the host's lookup
  table is not modelled.
- `src/ExamplePlugin.ts` (a template that only logs) and `build.mjs` (packaging)
  are not part of this model.

## Findings

| source | as written | input that shows it | evidently intended | confidence | as-written member | corrected member |
|---|---|---|---|---|---|---|
| src/InventoryTooltips.ts:277 | a whole edible amount is printed as the sign prefix ('-' when negative) followed by the amount itself, which carries its own '-' | an edible effect with amount -5 | "-5": the sign once, then the size | not executed; high | `EdiblePreview.NegativeWholeAmountsPrintTwoMinusSigns` | `EdiblePreview.ShownTextReadsBack` |

`EdiblePreview.NegativeIntegerPrintsTwoMinusSigns` shows the case of -5, which prints
"--5". The corrected printing `EdiblePreview.ShownText` is the one `EdiblePreview.FragmentText` uses.
