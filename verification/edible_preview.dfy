/** The consumable preview: for each edible effect of the item under the
    pointer, the magnitude the tooltip prints, the percentage it prints
    beside a level-relative effect, and the one styling class it gets. */
module EdiblePreview {
  import opened Common
  import opened GameState
  import Text

  /** JavaScript's `Number.isInteger` on an exact value. */
  predicate IsInteger(x: real) {
    x == x.Floor as real
  }

  /** Whole numbers are integers; a value strictly between two consecutive
      whole numbers is not. */
  lemma IsIntegerMeansWhole(x: real, k: int)
    ensures x == k as real ==> IsInteger(x)
    ensures k as real < x < (k + 1) as real ==> !IsInteger(x)
  {
    if k as real <= x < (k + 1) as real {
      FloorOfWindow(x, k);
    }
  }

  lemma FloorOfWindow(x: real, k: int)
    requires k as real <= x < (k + 1) as real
    ensures x.Floor == k
  {
  }

  /** `Math.round`: the nearest integer, a half rounded up. */
  function RoundHalfUp(x: real): (r: int)
    ensures x - 0.5 < r as real <= x + 0.5
  {
    (x + 0.5).Floor
  }

  lemma RoundHalfUpMonotone(x: real, y: real)
    requires x <= y
    ensures RoundHalfUp(x) <= RoundHalfUp(y)
  {
  }

  /** Writes `v` at index `i` of a JavaScript array, leaving holes between the
      old end and `i`. */
  function Store(t: SkillTable, i: nat, v: Option<SkillEntry>): (r: SkillTable)
    ensures |r| == Max(|t|, i + 1)
    ensures forall k :: At(r, k) == if k == i then v else At(t, k)
  {
    if i < |t| then t[i := v] else t + seq(i - |t|, _ => None) + [v]
  }

  /** The second copy loop, from index `i` on: every present general entry
      overwrites the table at its index; absent ones leave it alone. */
  function Overlay(t: SkillTable, general: SkillTable, i: nat): (r: SkillTable)
    requires i <= |general|
    ensures forall k :: At(r, k) == if i <= k < |general| && general[k].Some? then general[k] else At(t, k)
    ensures |t| <= |r| <= Max(|t|, |general|)
    decreases |general| - i
  {
    if i == |general| then t
    else Overlay(if general[i].Some? then Store(t, i, general[i]) else t, general, i + 1)
  }

  /** The combined skill table: a copy of the combat table, then the general
      table's present entries on top. Reading any index gives the general
      entry where there is one, and the combat entry otherwise. */
  function MergeTables(combat: SkillTable, general: SkillTable): (t: SkillTable)
    ensures forall k :: At(t, k) == if At(general, k).Some? then At(general, k) else At(combat, k)
    ensures |combat| <= |t| <= Max(|combat|, |general|)
  {
    Overlay(combat, general, 0)
  }

  /** The level a level-relative effect scales: current hitpoints for skill 0,
      otherwise the table's level for the skill, 1 when it has none. */
  function LevelOf(table: SkillTable, skill: int, currentHp: int): (level: int)
    ensures skill == 0 ==> level == currentHp
    ensures skill != 0 && At(table, skill).Some? && At(table, skill).value.level.Some? ==>
              level == At(table, skill).value.level.value
    ensures skill != 0 && (At(table, skill).None? || At(table, skill).value.level.None?) ==> level == 1
  {
    if skill == 0 then currentHp
    else
      match At(table, skill)
      case Some(entry) => entry.level.GetOr(1)
      case None => 1
  }

  /** The printed magnitude of a level-relative effect: the rounded share of
      the level, at least 1. */
  function PercentMagnitude(level: int, amount: real): (m: int)
    ensures m >= 1
    ensures RoundHalfUp(level as real * amount) >= 1 ==> m == RoundHalfUp(level as real * amount)
    ensures RoundHalfUp(level as real * amount) < 1 ==> m == 1
  {
    Max(RoundHalfUp(level as real * amount), 1)
  }

  /** A higher level never shows a smaller magnitude for a gain. */
  lemma PercentMagnitudeMonotone(low: int, high: int, amount: real)
    requires low <= high && amount > 0.0
    ensures PercentMagnitude(low, amount) <= PercentMagnitude(high, amount)
  {
    assert (high - low) as real * amount >= 0.0;
    RoundHalfUpMonotone(low as real * amount, high as real * amount);
  }

  /** A level-relative loss always prints magnitude 1, however large it is. */
  lemma NegativePercentShowsOne(level: nat, amount: real)
    requires amount < 0.0
    ensures PercentMagnitude(level, amount) == 1
  {
  }

  /** The three styling classes of an edible effect. */
  datatype EdibleStyle = Harmful | Overheal | HealNormal

  /** One previewed effect: the sign the tooltip prints, the number it prints
      after it, the percentage of a level-relative effect, and the class. */
  datatype EdibleFragment = EdibleFragment(
    skill: int,
    prefix: char,
    shown: int,
    percent: Option<int>,
    style: EdibleStyle)

  /** The preview of one edible effect. */
  function FragmentOf(e: EdibleEffect, table: SkillTable, currentHp: int, maxHp: int): (f: EdibleFragment)
    ensures f.skill == e.skill
    ensures f.prefix == (if e.amount < 0.0 then '-' else '+')
    ensures IsInteger(e.amount) ==> f.shown as real == e.amount && f.percent == None
    ensures !IsInteger(e.amount) ==>
              && f.shown == PercentMagnitude(LevelOf(table, e.skill, currentHp), e.amount)
              && f.percent.Some?
              && e.amount * 100.0 - 0.5 < f.percent.value as real <= e.amount * 100.0 + 0.5
    ensures f.style == Harmful <==> e.amount < 0.0
    ensures f.style == Overheal <==> e.amount >= 0.0 && e.skill == 0 && currentHp as real + e.amount > maxHp as real
  {
    var isPercent := !IsInteger(e.amount);
    var shown :=
      if isPercent then PercentMagnitude(LevelOf(table, e.skill, currentHp), e.amount) else e.amount.Floor;
    var style :=
      if e.amount < 0.0 then Harmful
      else if e.skill == 0 && currentHp as real + e.amount > maxHp as real then Overheal
      else HealNormal;
    EdibleFragment(
      e.skill,
      if e.amount < 0.0 then '-' else '+',
      shown,
      if isPercent then Some(RoundHalfUp(e.amount * 100.0)) else None,
      style)
  }

  /** One fragment per edible effect, in the item's order. */
  function Preview(effects: seq<EdibleEffect>, table: SkillTable, currentHp: int, maxHp: int): (r: seq<EdibleFragment>)
    ensures |r| == |effects|
    ensures forall i :: 0 <= i < |r| ==> r[i] == FragmentOf(effects[i], table, currentHp, maxHp)
  {
    if |effects| == 0 then []
    else [FragmentOf(effects[0], table, currentHp, maxHp)] + Preview(effects[1..], table, currentHp, maxHp)
  }

  /** The overheal test reads the raw multiplier, not the healed amount: a
      level-relative hitpoint heal is flagged exactly when hitpoints are
      already at or above the maximum. */
  lemma PercentHealOverhealsOnlyWhenFull(e: EdibleEffect, table: SkillTable, currentHp: int, maxHp: int)
    requires e.skill == 0 && 0.0 < e.amount < 1.0
    ensures FragmentOf(e, table, currentHp, maxHp).style == Overheal <==> currentHp >= maxHp
  {
  }

  /** So a half-hitpoints heal at 39 of 40 prints 20 but is styled as a
      normal heal. */
  lemma PercentHealOverhealUnflagged()
    ensures var f := FragmentOf(EdibleEffect(0, 0.5), [], 39, 40);
            f.shown == 20 && f.style == HealNormal
  {
  }

  /** The magnitude exactly as the source prints it: the sign prefix, then the
      shown number, which for a whole negative amount is itself negative. */
  function ShownTextAsWritten(f: EdibleFragment): (s: string)
    ensures |s| >= 2 && s[0] == f.prefix
    // after the prefix comes the shown number's own text, with its own sign
    ensures s[1] == '-' <==> f.shown < 0
    ensures (s[1] == '-' || Text.IsDigit(s[1])) && Text.AllDigits(s[2..])
    ensures Text.SignedValue(s[1..]) == f.shown
    ensures s[1..] == Text.IntText(f.shown)
  {
    var number := Text.IntText(f.shown);
    Text.IntTextRoundTrip(f.shown);
    assert ([f.prefix] + number)[1..] == number;
    [f.prefix] + number
  }

  /** Every whole negative amount prints two minus signs. */
  lemma NegativeWholeAmountsPrintTwoMinusSigns(e: EdibleEffect, table: SkillTable, currentHp: int, maxHp: int)
    requires IsInteger(e.amount) && e.amount < 0.0
    ensures var s := ShownTextAsWritten(FragmentOf(e, table, currentHp, maxHp));
            s[0] == '-' && s[1] == '-'
  {
  }

  /** A whole negative amount prints two minus signs. */
  lemma NegativeIntegerPrintsTwoMinusSigns()
    ensures ShownTextAsWritten(FragmentOf(EdibleEffect(3, -5.0), [], 10, 10)) == "--5"
  {
  }

  /** The magnitude as intended: the sign prefix, then the digits of the
      number's size. */
  function ShownText(f: EdibleFragment): (s: string)
    ensures |s| >= 2 && s[0] == f.prefix && Text.AllDigits(s[1..])
    ensures Text.DigitsValue(s[1..]) == Abs(f.shown)
    // the digits are the size's canonical decimal text
    ensures s[1..] == Text.NatText(Abs(f.shown))
  {
    var digits := Text.NatText(Abs(f.shown));
    Text.NatTextRoundTrip(Abs(f.shown));
    assert ([f.prefix] + digits)[1..] == digits;
    [f.prefix] + digits
  }

  /** The intended rendering carries exactly one sign, and a whole amount
      reads back as itself. */
  lemma ShownTextReadsBack(e: EdibleEffect, table: SkillTable, currentHp: int, maxHp: int)
    requires IsInteger(e.amount)
    ensures var s := ShownText(FragmentOf(e, table, currentHp, maxHp));
            && (s[0] == '-' <==> e.amount < 0.0)
            && (s[0] == '+' <==> e.amount >= 0.0)
            && Text.PrefixedValue(s) as real == e.amount
  {
  }

  /** The percentage printed beside a level-relative magnitude. */
  function PercentSuffix(p: Option<int>): (s: string)
    ensures p.None? ==> s == ""
    // " (" then the percentage's decimal text then "%)"
    ensures p.Some? ==>
              && |s| >= 5 && s[..2] == " (" && s[|s| - 2..] == "%)"
              && (s[2] == '-' || Text.IsDigit(s[2])) && Text.AllDigits(s[3..|s| - 2])
              && Text.SignedValue(s[2..|s| - 2]) == p.value
              && s[2..|s| - 2] == Text.IntText(p.value)
  {
    match p
    case None => ""
    case Some(v) =>
      var number := Text.IntText(v);
      Text.IntTextRoundTrip(v);
      var s := " (" + number + "%)";
      assert s[2..|s| - 2] == number;
      assert s[3..|s| - 2] == number[1..];
      s
  }

  /** The printed effect value, without the skill name: the intended
      magnitude, then the percentage of a level-relative effect. */
  function FragmentText(f: EdibleFragment): (s: string)
    ensures |s| >= 2 && s[0] == f.prefix
    ensures f.percent.None? ==> s == ShownText(f)
    ensures f.percent.Some? ==> |s| > |ShownText(f)| && s[..|ShownText(f)|] == ShownText(f) && s[|s| - 2..] == "%)"
    ensures s[|ShownText(f)|..] == PercentSuffix(f.percent)
  {
    ShownText(f) + PercentSuffix(f.percent)
  }

  /** A worked case: half of 40 current hitpoints. */
  lemma ExampleHalfHitpoints()
    ensures var f := FragmentOf(EdibleEffect(0, 0.5), [], 40, 99);
            f.shown == 20 && f.percent == Some(50) && f.style == HealNormal
            && FragmentText(f) == "+20 (50%)"
  {
  }
}
