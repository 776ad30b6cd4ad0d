/** The spacing of the alignment patterns (Annex E of ISO/IEC 18004). */
module PatternSteps {
  import opened Blocks
  import opened Layout

  /** The distance between neighbouring centres: the least even number by which all of them but the first can be
      counted back from the far edge without leaving a longer gap after the first; in version 32 it is 26. */
  predicate IsStep(d: nat, typeNumber: nat)
    requires typeNumber >= 2
  {
    && d % 2 == 0
    && if typeNumber == 32 then d == 26
       else var gaps := CentreCount(typeNumber) - 1;
            (d - 2) * gaps < ModuleCount(typeNumber) - 13 <= d * gaps
  }

  predicate EqualSteps(pos: seq<nat>, typeNumber: nat)
    requires typeNumber >= 2
  {
    && |pos| >= 2 && pos[|pos| - 1] >= pos[|pos| - 2]
    && IsStep(pos[|pos| - 1] - pos[|pos| - 2], typeNumber)
    && forall i :: 1 < i < |pos| ==> pos[i] == pos[i - 1] + (pos[|pos| - 1] - pos[|pos| - 2])
  }

  lemma TableSteps0(typeNumber: nat)
    requires 2 <= typeNumber <= 6
    ensures EqualSteps(PatternPosition(typeNumber), typeNumber)
  {
  }

  lemma TableSteps1(typeNumber: nat)
    requires 7 <= typeNumber <= 13
    ensures EqualSteps(PatternPosition(typeNumber), typeNumber)
  {
  }

  lemma TableSteps2(typeNumber: nat)
    requires 14 <= typeNumber <= 20
    ensures EqualSteps(PatternPosition(typeNumber), typeNumber)
  {
  }

  lemma TableSteps3(typeNumber: nat)
    requires 21 <= typeNumber <= 27
    ensures EqualSteps(PatternPosition(typeNumber), typeNumber)
  {
  }

  lemma TableSteps4(typeNumber: nat)
    requires 28 <= typeNumber <= 34
    ensures EqualSteps(PatternPosition(typeNumber), typeNumber)
  {
  }

  lemma TableSteps5(typeNumber: nat)
    requires 35 <= typeNumber <= 40
    ensures EqualSteps(PatternPosition(typeNumber), typeNumber)
  {
  }

  lemma TableSteps(typeNumber: nat)
    requires 2 <= typeNumber <= 40
    ensures EqualSteps(PatternPosition(typeNumber), typeNumber)
  {
    hide EqualSteps, PatternPosition;
    if typeNumber <= 6 {
      TableSteps0(typeNumber);
    } else if typeNumber <= 13 {
      TableSteps1(typeNumber);
    } else if typeNumber <= 20 {
      TableSteps2(typeNumber);
    } else if typeNumber <= 27 {
      TableSteps3(typeNumber);
    } else if typeNumber <= 34 {
      TableSteps4(typeNumber);
    } else {
      TableSteps5(typeNumber);
    }
  }

  lemma StepIsUnique(d: nat, e: nat, typeNumber: nat)
    requires typeNumber >= 2 && IsStep(d, typeNumber) && IsStep(e, typeNumber)
    ensures d == e
  {
    if d < e {
      StepBound(d, e, typeNumber);
    } else if e < d {
      StepBound(e, d, typeNumber);
    }
  }

  lemma StepBound(d: nat, e: nat, typeNumber: nat)
    requires typeNumber >= 2 && IsStep(d, typeNumber) && IsStep(e, typeNumber)
    ensures e <= d
  {
    MulMonotone(d, e - 2, CentreCount(typeNumber) - 1);
  }

  lemma MulMonotone(a: int, b: int, m: nat)
    ensures a <= b ==> a * m <= b * m
  {
  }

  lemma {:induction false} CountedBack(pos: seq<nat>, d: nat, i: nat)
    requires 0 < i < |pos| && forall j :: 1 < j < |pos| ==> pos[j] == pos[j - 1] + d
    ensures pos[i] == pos[|pos| - 1] - (|pos| - 1 - i) * d
    decreases |pos| - i
  {
    if i < |pos| - 1 {
      CountedBack(pos, d, i + 1);
      assert pos[i + 1] == pos[i] + d;
      assert (|pos| - 1 - i) * d == (|pos| - 2 - i) * d + d;
    }
  }

  /** The table is the one of the rule: the first centre at 6, the others counted back from the far edge. */
  lemma CentreAt(typeNumber: nat, d: nat, i: nat)
    requires 2 <= typeNumber <= 40 && IsStep(d, typeNumber) && i < CentreCount(typeNumber)
    ensures var pos, k := PatternPosition(typeNumber), CentreCount(typeNumber);
            |pos| == k && pos[i] == if i == 0 then 6 else ModuleCount(typeNumber) - 7 - (k - 1 - i) * d
  {
    hide PatternPosition, IsStep, CentreCount, ModuleCount;
    TableRegular(typeNumber);
    TableSteps(typeNumber);
    var pos := PatternPosition(typeNumber);
    StepIsUnique(d, pos[|pos| - 1] - pos[|pos| - 2], typeNumber);
    if i > 0 {
      CountedBack(pos, d, i);
    }
  }
}
