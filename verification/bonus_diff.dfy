/** The equipment bonus comparison: for an equippable item under the pointer,
    the signed change of each skill bonus if it replaced the item worn in
    the same slot, in the order the tooltip lists them. */
module BonusDiff {
  import opened Common
  import opened GameState
  import Text

  /** The styling class of a listed bonus: positive, negative, or none. */
  datatype BonusStyle = Positive | Negative | Neutral

  /** One listed bonus: the skill and the signed change of its bonus. */
  datatype BonusLine = BonusLine(skill: int, delta: int, style: BonusStyle)

  /** The class follows the sign of the change. */
  predicate SignStyled(l: BonusLine) {
    && (l.style == Positive <==> l.delta > 0)
    && (l.style == Negative <==> l.delta < 0)
    && (l.style == Neutral <==> l.delta == 0)
  }

  /** The skills an effect list mentions. */
  function SkillSet(effects: seq<Effect>): set<int> {
    set i | 0 <= i < |effects| :: effects[i].skill
  }

  /** The skills a list of bonus lines mentions. */
  function LineSkills(lines: seq<BonusLine>): set<int> {
    set i | 0 <= i < |lines| :: lines[i].skill
  }

  predicate DistinctSkills(effects: seq<Effect>) {
    forall i, j :: 0 <= i < j < |effects| ==> effects[i].skill != effects[j].skill
  }

  predicate DistinctLineSkills(lines: seq<BonusLine>) {
    forall i, j :: 0 <= i < j < |lines| ==> lines[i].skill != lines[j].skill
  }

  /** `j` is the position of the first effect with this skill. */
  predicate IsFirstWithSkill(effects: seq<Effect>, skill: int, j: int) {
    && 0 <= j < |effects|
    && effects[j].skill == skill
    && forall k :: 0 <= k < j ==> effects[k].skill != skill
  }

  /** The position of the first effect with this skill, as `Array.find` scans. */
  function FirstWithSkill(effects: seq<Effect>, skill: int): (r: Option<nat>)
    ensures r.Some? ==> IsFirstWithSkill(effects, skill, r.value)
    ensures r.None? ==> skill !in SkillSet(effects)
  {
    if |effects| == 0 then None
    else if effects[0].skill == skill then Some(0)
    else
      match FirstWithSkill(effects[1..], skill)
      case None => None
      case Some(i) => Some(i + 1)
  }

  /** The line for one bonus of the hovered item: its amount minus the
      amount of the first worn bonus of the same skill, if there is one. */
  function HoveredLine(bonus: Effect, equipped: seq<Effect>): (l: BonusLine)
    ensures l.skill == bonus.skill && SignStyled(l)
    ensures forall j :: IsFirstWithSkill(equipped, bonus.skill, j) ==> l.delta == bonus.amount - equipped[j].amount
    ensures bonus.skill !in SkillSet(equipped) ==> l.delta == bonus.amount
  {
    var diff :=
      match FirstWithSkill(equipped, bonus.skill)
      case Some(i) => bonus.amount - equipped[i].amount
      case None => bonus.amount;
    BonusLine(bonus.skill, diff, if diff > 0 then Positive else if diff < 0 then Negative else Neutral)
  }

  /** One line per hovered bonus, in the hovered item's order. */
  function HoveredLines(hovered: seq<Effect>, equipped: seq<Effect>): (r: seq<BonusLine>)
    ensures |r| == |hovered|
    ensures forall i :: 0 <= i < |r| ==> r[i] == HoveredLine(hovered[i], equipped)
  {
    if |hovered| == 0 then [] else [HoveredLine(hovered[0], equipped)] + HoveredLines(hovered[1..], equipped)
  }

  /** The line for a worn bonus the hovered item lacks: it is lost. */
  function LossLine(e: Effect): (l: BonusLine)
    ensures l.skill == e.skill && l.delta == -e.amount && SignStyled(l)
  {
    var diff := -e.amount;
    BonusLine(e.skill, diff, if diff < 0 then Negative else if diff > 0 then Positive else Neutral)
  }

  /** A loss line for each worn bonus whose skill is not among `hoveredSkills`,
      in the worn item's order. */
  function LossLines(equipped: seq<Effect>, hoveredSkills: set<int>): (r: seq<BonusLine>)
    ensures |r| <= |equipped|
    ensures forall i :: 0 <= i < |r| ==> r[i].skill !in hoveredSkills && SignStyled(r[i])
  {
    if |equipped| == 0 then []
    else if equipped[0].skill in hoveredSkills then LossLines(equipped[1..], hoveredSkills)
    else [LossLine(equipped[0])] + LossLines(equipped[1..], hoveredSkills)
  }

  /** `l` is the loss line of one of the worn bonuses. */
  predicate IsLossOf(l: BonusLine, equipped: seq<Effect>) {
    exists j :: 0 <= j < |equipped| && l == LossLine(equipped[j])
  }

  /** Every loss line is the loss of some worn bonus. */
  lemma {:induction false} LossLinesSound(equipped: seq<Effect>, hoveredSkills: set<int>)
    ensures forall i :: 0 <= i < |LossLines(equipped, hoveredSkills)| ==>
              IsLossOf(LossLines(equipped, hoveredSkills)[i], equipped)
  {
    if |equipped| > 0 {
      LossLinesSound(equipped[1..], hoveredSkills);
      var rest := LossLines(equipped[1..], hoveredSkills);
      var r := LossLines(equipped, hoveredSkills);
      forall i | 0 <= i < |r|
        ensures IsLossOf(r[i], equipped)
      {
        if equipped[0].skill !in hoveredSkills && i == 0 {
          assert r[0] == LossLine(equipped[0]);
        } else {
          var k := if equipped[0].skill in hoveredSkills then i else i - 1;
          assert r[i] == rest[k];
          assert IsLossOf(rest[k], equipped[1..]);
          var j :| 0 <= j < |equipped[1..]| && rest[k] == LossLine(equipped[1..][j]);
          assert equipped[1..][j] == equipped[j + 1];
          assert r[i] == LossLine(equipped[j + 1]);
        }
      }
    }
  }

  /** Every worn bonus the hovered item lacks has its loss line. */
  lemma {:induction false} LossLinesComplete(equipped: seq<Effect>, hoveredSkills: set<int>)
    ensures forall j :: 0 <= j < |equipped| && equipped[j].skill !in hoveredSkills ==>
              LossLine(equipped[j]) in LossLines(equipped, hoveredSkills)
  {
    if |equipped| > 0 {
      LossLinesComplete(equipped[1..], hoveredSkills);
      forall j | 1 <= j < |equipped| && equipped[j].skill !in hoveredSkills
        ensures LossLine(equipped[j]) in LossLines(equipped, hoveredSkills)
      {
        assert equipped[1..][j - 1] == equipped[j];
      }
    }
  }

  /** A worn item that covers only hovered skills loses nothing. */
  lemma {:induction false} LossLinesEmptyWhenCovered(equipped: seq<Effect>, hoveredSkills: set<int>)
    requires SkillSet(equipped) <= hoveredSkills
    ensures LossLines(equipped, hoveredSkills) == []
  {
    if |equipped| > 0 {
      assert equipped[0].skill in SkillSet(equipped);
      assert SkillSet(equipped[1..]) <= SkillSet(equipped) by {
        forall s | s in SkillSet(equipped[1..]) ensures s in SkillSet(equipped) {
          var k :| 0 <= k < |equipped[1..]| && equipped[1..][k].skill == s;
          assert equipped[k + 1].skill == s;
        }
      }
      LossLinesEmptyWhenCovered(equipped[1..], hoveredSkills);
    }
  }

  /** A worn item without repeated skills gives loss lines without repeated skills. */
  lemma {:induction false} LossLinesDistinct(equipped: seq<Effect>, hoveredSkills: set<int>)
    requires DistinctSkills(equipped)
    ensures DistinctLineSkills(LossLines(equipped, hoveredSkills))
  {
    if |equipped| > 0 {
      var tail := equipped[1..];
      assert DistinctSkills(tail) by {
        forall i, j | 0 <= i < j < |tail| ensures tail[i].skill != tail[j].skill {
          assert tail[i] == equipped[i + 1] && tail[j] == equipped[j + 1];
        }
      }
      LossLinesDistinct(tail, hoveredSkills);
      LossLinesSound(tail, hoveredSkills);
      var rest := LossLines(tail, hoveredSkills);
      forall i | 0 <= i < |rest| ensures rest[i].skill != equipped[0].skill {
        assert IsLossOf(rest[i], tail);
        var j :| 0 <= j < |tail| && rest[i] == LossLine(tail[j]);
        assert tail[j] == equipped[j + 1];
      }
    }
  }

  /** The whole comparison as the tooltip lists it: nothing at all when the
      hovered item has no equippable effect; otherwise a line per hovered
      bonus first, then a loss line per worn bonus the hovered item lacks. */
  function Diff(hovered: seq<Effect>, equipped: seq<Effect>): (r: seq<BonusLine>)
    ensures |hovered| == 0 ==> r == []
    ensures |hovered| > 0 ==> |hovered| <= |r| <= |hovered| + |equipped|
    ensures forall i :: 0 <= i < |r| ==> SignStyled(r[i])
    ensures forall i :: 0 <= i < |hovered| && i < |r| ==>
              && r[i].skill == hovered[i].skill
              && (forall j :: IsFirstWithSkill(equipped, hovered[i].skill, j) ==> r[i].delta == hovered[i].amount - equipped[j].amount)
              && (hovered[i].skill !in SkillSet(equipped) ==> r[i].delta == hovered[i].amount)
    ensures forall i :: |hovered| <= i < |r| ==>
              && r[i].skill !in SkillSet(hovered)
              && exists j :: 0 <= j < |equipped| && r[i].skill == equipped[j].skill && r[i].delta == -equipped[j].amount
    ensures |hovered| > 0 ==>
              forall j :: 0 <= j < |equipped| && equipped[j].skill !in SkillSet(hovered) ==> LossLine(equipped[j]) in r[|hovered|..]
    // the losses follow as LossLines lists them, so its order lemma applies
    ensures |hovered| > 0 ==> r[|hovered|..] == LossLines(equipped, SkillSet(hovered))
  {
    if |hovered| == 0 then []
    else
      var losses := LossLines(equipped, SkillSet(hovered));
      LossLinesSound(equipped, SkillSet(hovered));
      LossLinesComplete(equipped, SkillSet(hovered));
      var r := HoveredLines(hovered, equipped) + losses;
      assert r[|hovered|..] == losses;
      assert forall i :: |hovered| <= i < |r| ==> r[i] == losses[i - |hovered|];
      r
  }

  /** Loss lines keep the worn item's order: those of an earlier part of the
      list come before those of a later part. */
  lemma {:induction false} LossLinesAppend(a: seq<Effect>, b: seq<Effect>, hoveredSkills: set<int>)
    ensures LossLines(a + b, hoveredSkills) == LossLines(a, hoveredSkills) + LossLines(b, hoveredSkills)
  {
    if |a| > 0 {
      assert (a + b)[1..] == a[1..] + b;
      LossLinesAppend(a[1..], b, hoveredSkills);
    } else {
      assert a + b == b;
    }
  }

  /** When the hovered item has bonuses, the listed skills are exactly those
      of the hovered and of the worn item. */
  lemma DiffCoversSkills(hovered: seq<Effect>, equipped: seq<Effect>)
    requires |hovered| > 0
    ensures LineSkills(Diff(hovered, equipped)) == SkillSet(hovered) + SkillSet(equipped)
  {
  }

  /** The skills that lose their bonus are exactly the worn ones the hovered
      item lacks. */
  lemma LossLinesSkills(equipped: seq<Effect>, hoveredSkills: set<int>)
    ensures LineSkills(LossLines(equipped, hoveredSkills)) == SkillSet(equipped) - hoveredSkills
  {
    var l := LossLines(equipped, hoveredSkills);
    LossLinesSound(equipped, hoveredSkills);
    LossLinesComplete(equipped, hoveredSkills);
    forall s | s in SkillSet(equipped) - hoveredSkills ensures s in LineSkills(l) {
      var j :| 0 <= j < |equipped| && equipped[j].skill == s;
      assert LossLine(equipped[j]) in l;
      var k :| 0 <= k < |l| && l[k] == LossLine(equipped[j]);
      assert l[k].skill == s;
    }
    forall s | s in LineSkills(l) ensures s in SkillSet(equipped) - hoveredSkills {
      var i :| 0 <= i < |l| && l[i].skill == s;
      assert IsLossOf(l[i], equipped);
      var j :| 0 <= j < |equipped| && l[i] == LossLine(equipped[j]);
      assert equipped[j].skill == s;
    }
  }

  /** When neither item repeats a skill, every skill is listed exactly once. */
  lemma DiffListsSkillsOnce(hovered: seq<Effect>, equipped: seq<Effect>)
    requires DistinctSkills(hovered) && DistinctSkills(equipped)
    ensures DistinctLineSkills(Diff(hovered, equipped))
  {
    if |hovered| > 0 {
      var h := HoveredLines(hovered, equipped);
      var l := LossLines(equipped, SkillSet(hovered));
      LossLinesDistinct(equipped, SkillSet(hovered));
      var r := h + l;
      assert Diff(hovered, equipped) == r;
      forall i, j | 0 <= i < j < |r|
        ensures r[i].skill != r[j].skill
      {
        if j < |h| {
          assert r[i].skill == hovered[i].skill && r[j].skill == hovered[j].skill;
        } else if i < |h| {
          assert r[i].skill in SkillSet(hovered);
          assert r[j] == l[j - |h|];
        } else {
          assert r[i] == l[i - |h|] && r[j] == l[j - |h|];
        }
      }
    }
  }

  /** Comparing an item with itself shows no change and no loss, as long as
      it does not repeat a skill. */
  lemma IdenticalItemsShowNoChange(item: seq<Effect>)
    requires DistinctSkills(item)
    ensures |Diff(item, item)| == |item|
    ensures forall l :: l in Diff(item, item) ==> l.delta == 0 && l.style == Neutral
  {
    forall i | 0 <= i < |item|
      ensures IsFirstWithSkill(item, item[i].skill, i)
    {
    }
    LossLinesEmptyWhenCovered(item, SkillSet(item));
  }

  /** With a repeated skill the comparison of an item with itself is not all
      zero: the second bonus is compared with the first one's amount. */
  lemma RepeatedSkillShowsChange()
    ensures Diff([Effect(1, 5), Effect(1, 3)], [Effect(1, 5), Effect(1, 3)])[1].delta == -2
  {
  }

  /** A worked case: one shared skill that grows, one worn skill that is lost. */
  lemma ExampleComparison()
    ensures Diff([Effect(1, 5)], [Effect(1, 2), Effect(2, 3)])
            == [BonusLine(1, 3, Positive), BonusLine(2, -3, Negative)]
  {
  }

  /** The printed change: a '+' before a gain, the number's own '-' before a
      loss, and a bare "0" for no change. */
  function DeltaText(delta: int): (s: string)
    ensures |s| >= 1
    ensures s[0] == '+' <==> delta > 0
    ensures s[0] == '-' <==> delta < 0
    ensures delta == 0 ==> s == "0"
    // the digits after any '+' read back as the change
    ensures delta > 0 ==> |s| >= 2 && Text.AllDigits(s[1..]) && Text.SignedValue(s[1..]) == delta
    ensures delta <= 0 ==> Text.AllDigits(s[1..]) && Text.SignedValue(s) == delta
    // the number part is the change's canonical decimal text
    ensures delta > 0 ==> s[1..] == Text.IntText(delta)
    ensures delta <= 0 ==> s == Text.IntText(delta)
  {
    var number := Text.IntText(delta);
    Text.IntTextRoundTrip(delta);
    if delta > 0 then
      assert ("+" + number)[1..] == number;
      "+" + number
    else
      number
  }
}
