/** The disabled flags of a sequence (`enforce_consistency_of_disabled_flags`):
    a disabled IF, TRY or WHILE disables its whole block up to and including
    its END, an enabled one enables its own ELSE IF, ELSE, CATCH and END.
    The walk is stated here as a function of the steps; the Sequence class
    runs it as a loop and is proved to compute the same. */
module Consistency {
  import opened Steps
  import opened Indentation

  /** The position of the first END at level lvl in [from, |steps|), or
      |steps| when there is none. */
  function FirstEndAt(steps: seq<Step>, from: nat, lvl: int): (r: nat)
    requires from <= |steps|
    ensures from <= r <= |steps|
    ensures r < |steps| ==> steps[r].stepType == End && steps[r].indentationLevel == lvl
    ensures forall k :: from <= k < r ==> !(steps[k].stepType == End && steps[k].indentationLevel == lvl)
    decreases |steps| - from
  {
    if from == |steps| then from
    else if steps[from].stepType == End && steps[from].indentationLevel == lvl then from
    else FirstEndAt(steps, from + 1, lvl)
  }

  /** `find_end_of_continuation`: one past the first END at the head's level,
      searching from the head itself, or the end of the sequence. */
  function FindEndOfContinuation(steps: seq<Step>, start: nat): (r: nat)
    requires start < |steps|
    ensures start < r <= |steps|
  {
    var k := FirstEndAt(steps, start, steps[start].indentationLevel);
    if k < |steps| then k + 1 else k
  }

  /** Two step lists of the same length with the same types and levels. */
  predicate SameShape(s: seq<Step>, t: seq<Step>)
  {
    |s| == |t| &&
    forall k :: 0 <= k < |s| ==> s[k].stepType == t[k].stepType && s[k].indentationLevel == t[k].indentationLevel
  }

  /** b differs from a at most in its disabled flag, with the modification
      time set to now. */
  predicate OnlyFlagChanged(a: Step, b: Step, now: Time)
  {
    b == a || b == a.(isDisabled := b.isDisabled, timeOfLastModification := now)
  }

  /** `std::for_each(b, e, set_disabled(d))`. */
  function SetDisabledRange(steps: seq<Step>, b: nat, e: nat, d: bool, now: Time): (r: seq<Step>)
    requires b <= e <= |steps|
    ensures |r| == |steps|
    ensures forall k :: 0 <= k < |steps| ==>
              r[k] == if b <= k < e then SetDisabled(steps[k], d, now) else steps[k]
  {
    seq(|steps|, k requires 0 <= k < |steps| =>
      if b <= k < e then SetDisabled(steps[k], d, now) else steps[k])
  }

  /** Enable the steps in [b, e) whose level is lvl. */
  function EnableAtLevel(steps: seq<Step>, b: nat, e: nat, lvl: int, now: Time): (r: seq<Step>)
    requires b <= e <= |steps|
    ensures |r| == |steps|
    ensures forall k :: 0 <= k < |steps| ==>
              r[k] == if b <= k < e && steps[k].indentationLevel == lvl then SetDisabled(steps[k], false, now)
                      else steps[k]
  {
    seq(|steps|, k requires 0 <= k < |steps| =>
      if b <= k < e && steps[k].indentationLevel == lvl then SetDisabled(steps[k], false, now)
      else steps[k])
  }

  /** The walk of `enforce_consistency_of_disabled_flags` from position i:
      a disabled head disables its continuation and the walk resumes after
      it; an enabled head enables its same-level steps and the walk goes on
      with the next step. */
  function Enforce(steps: seq<Step>, i: nat, now: Time): (r: seq<Step>)
    requires i <= |steps|
    ensures |r| == |steps|
    decreases |steps| - i
  {
    if i == |steps| then steps
    else if OpensBlock(steps[i].stepType) then
      var e := FindEndOfContinuation(steps, i);
      if steps[i].isDisabled then Enforce(SetDisabledRange(steps, i, e, true, now), e, now)
      else Enforce(EnableAtLevel(steps, i, e, steps[i].indentationLevel, now), i + 1, now)
    else Enforce(steps, i + 1, now)
  }

  /** The continuation of a head depends only on types and levels. */
  lemma {:induction false} FirstEndAtShape(s: seq<Step>, t: seq<Step>, from: nat, lvl: int)
    requires SameShape(s, t) && from <= |s|
    ensures FirstEndAt(s, from, lvl) == FirstEndAt(t, from, lvl)
    decreases |s| - from
  {
    if from < |s| {
      FirstEndAtShape(s, t, from + 1, lvl);
    }
  }

  lemma FindEndShape(s: seq<Step>, t: seq<Step>, h: nat)
    requires SameShape(s, t) && h < |s|
    ensures FindEndOfContinuation(s, h) == FindEndOfContinuation(t, h)
  {
    FirstEndAtShape(s, t, h, s[h].indentationLevel);
  }

  /** The walk keeps the length, the types and the levels. */
  lemma {:induction false} EnforceKeepsShape(s: seq<Step>, i: nat, now: Time)
    requires i <= |s|
    ensures SameShape(s, Enforce(s, i, now))
    decreases |s| - i
  {
    if i < |s| {
      if OpensBlock(s[i].stepType) {
        var e := FindEndOfContinuation(s, i);
        if s[i].isDisabled {
          EnforceKeepsShape(SetDisabledRange(s, i, e, true, now), e, now);
        } else {
          EnforceKeepsShape(EnableAtLevel(s, i, e, s[i].indentationLevel, now), i + 1, now);
        }
      } else {
        EnforceKeepsShape(s, i + 1, now);
      }
    }
  }

  /** The walk changes nothing but disabled flags and their time stamps. */
  lemma {:induction false} EnforceChangesOnlyFlags(s: seq<Step>, i: nat, now: Time)
    requires i <= |s|
    ensures |Enforce(s, i, now)| == |s|
    ensures forall k :: 0 <= k < |s| ==> OnlyFlagChanged(s[k], Enforce(s, i, now)[k], now)
    decreases |s| - i
  {
    if i < |s| {
      if OpensBlock(s[i].stepType) {
        var e := FindEndOfContinuation(s, i);
        var t := if s[i].isDisabled then SetDisabledRange(s, i, e, true, now)
                 else EnableAtLevel(s, i, e, s[i].indentationLevel, now);
        var i' := if s[i].isDisabled then e else i + 1;
        assert Enforce(s, i, now) == Enforce(t, i', now);
        EnforceChangesOnlyFlags(t, i', now);
      } else {
        EnforceChangesOnlyFlags(s, i + 1, now);
      }
    }
  }

  /** The walk from i leaves the steps before i alone. */
  lemma {:induction false} EnforceKeepsPrefix(s: seq<Step>, i: nat, now: Time)
    requires i <= |s|
    ensures |Enforce(s, i, now)| == |s|
    ensures forall k :: 0 <= k < i ==> Enforce(s, i, now)[k] == s[k]
    decreases |s| - i
  {
    if i < |s| {
      if OpensBlock(s[i].stepType) {
        var e := FindEndOfContinuation(s, i);
        if s[i].isDisabled {
          EnforceKeepsPrefix(SetDisabledRange(s, i, e, true, now), e, now);
        } else {
          EnforceKeepsPrefix(EnableAtLevel(s, i, e, s[i].indentationLevel, now), i + 1, now);
        }
      } else {
        EnforceKeepsPrefix(s, i + 1, now);
      }
    }
  }

  /** A step that no block visited from i on reaches keeps its value. */
  lemma {:induction false} EnforceFrame(s: seq<Step>, i: nat, j: nat, now: Time)
    requires i <= j < |s|
    requires forall h :: i <= h <= j && OpensBlock(s[h].stepType) ==> FindEndOfContinuation(s, h) <= j
    ensures Enforce(s, i, now)[j] == s[j]
    decreases |s| - i
  {
    EnforceKeepsPrefix(s, i, now);
    if OpensBlock(s[i].stepType) {
      var e := FindEndOfContinuation(s, i);
      var t := if s[i].isDisabled then SetDisabledRange(s, i, e, true, now)
               else EnableAtLevel(s, i, e, s[i].indentationLevel, now);
      var i' := if s[i].isDisabled then e else i + 1;
      assert Enforce(s, i, now) == Enforce(t, i', now);
      assert SameShape(s, t);
      forall h | i' <= h <= j && OpensBlock(t[h].stepType) ensures FindEndOfContinuation(t, h) <= j {
        FindEndShape(s, t, h);
      }
      EnforceFrame(t, i', j, now);
    } else if i + 1 <= j {
      EnforceFrame(s, i + 1, j, now);
    } else {
      EnforceKeepsPrefix(s, i + 1, now);
    }
  }

  /** The nesting depth in front of step k, counted from the types as
      `indent` counts it before clamping. */
  function Depth(s: seq<Step>, k: nat): int
    requires k <= |s|
  {
    if k == 0 then 0 else RawNextDepth(s[k - 1].stepType, Depth(s, k - 1))
  }

  lemma {:induction false} DepthIsRawDepth(s: seq<Step>, k: nat)
    requires k <= |s|
    ensures Depth(s, k) == RawDepth(Types(s)[..k])
  {
    if k > 0 {
      DepthIsRawDepth(s, k - 1);
      assert Types(s)[..k][..k - 1] == Types(s)[..k - 1];
    }
  }

  lemma {:induction false} DepthShape(s: seq<Step>, t: seq<Step>, k: nat)
    requires SameShape(s, t) && k <= |s|
    ensures Depth(s, k) == Depth(t, k)
  {
    if k > 0 { DepthShape(s, t, k - 1); }
  }

  /** Correctly indented steps: the depth never drops below 0 and ends at 0,
      and every level is the one `indent` computes from the types. */
  predicate WellIndented(s: seq<Step>)
  {
    Depth(s, |s|) == 0 && forall k :: 0 <= k < |s| ==> LevelOk(s, k)
  }

  /** Step k lies at a non-negative depth and carries the level the depth
      gives it. */
  predicate LevelOk(s: seq<Step>, k: nat)
    requires k < |s|
  {
    Depth(s, k) >= 0 && s[k].indentationLevel == RawStepLevel(s[k].stepType, Depth(s, k))
  }

  /** `indent` makes correctly nested steps correctly indented. */
  lemma ReindentWellIndented(s: seq<Step>)
    requires WellNested(Types(s))
    ensures WellIndented(Reindent(s))
  {
    var r := Reindent(s);
    var ts := Types(s);
    assert Types(r) == ts;
    DepthIsRawDepth(r, |r|);
    assert ts[..|r|] == ts;
    forall k | 0 <= k < |r| ensures LevelOk(r, k) {
      LevelsFollowRule(ts, k);
      DepthIsRawDepth(r, k);
      if k > 0 {
        assert StepNests(ts, k - 1);
        assert ts[..k - 1 + 1] == ts[..k];
      }
    }
  }

  lemma ShapeKeepsIndentation(s: seq<Step>, t: seq<Step>)
    requires SameShape(s, t) && WellIndented(s)
    ensures WellIndented(t)
  {
    DepthShape(s, t, |s|);
    forall k | 0 <= k < |t| ensures LevelOk(t, k) {
      assert LevelOk(s, k);
      DepthShape(s, t, k);
    }
  }

  /** The continuation of a head ends no later than the first point where
      the depth falls back to the head's depth. */
  lemma {:induction false} EndWithin(s: seq<Step>, h: nat, j: nat)
    requires WellIndented(s) && h < j <= |s| && OpensBlock(s[h].stepType)
    requires Depth(s, j) <= Depth(s, h)
    ensures FindEndOfContinuation(s, h) <= j
    decreases j
  {
    var lvl := s[h].indentationLevel;
    if j - 1 > h && Depth(s, j - 1) <= Depth(s, h) {
      EndWithin(s, h, j - 1);
    } else if j - 1 > h {
      assert LevelOk(s, h) && LevelOk(s, j - 1);
      assert s[j - 1].stepType == End && s[j - 1].indentationLevel == lvl;
      assert FirstEndAt(s, h, lvl) <= j - 1;
    }
  }

  /** Every step strictly inside a continuation is deeper than its head. */
  lemma InsideIsDeeper(s: seq<Step>, h: nat, j: nat)
    requires WellIndented(s) && h < j < |s| && j < FindEndOfContinuation(s, h) && OpensBlock(s[h].stepType)
    ensures Depth(s, j) > Depth(s, h)
  {
    if Depth(s, j) <= Depth(s, h) {
      EndWithin(s, h, j);
    }
  }

  /** After its continuation the depth is back at the head's depth (or the
      sequence has ended, at depth 0). */
  lemma EndDepth(s: seq<Step>, h: nat)
    requires WellIndented(s) && h < |s| && OpensBlock(s[h].stepType)
    ensures Depth(s, FindEndOfContinuation(s, h)) <= Depth(s, h)
  {
    var k := FirstEndAt(s, h, s[h].indentationLevel);
    assert LevelOk(s, h);
    if k < |s| {
      assert LevelOk(s, k);
      assert Depth(s, k + 1) == Depth(s, k) - 1;
    }
  }

  /** A block nested in a continuation ends inside it. */
  lemma NestedEndsInside(s: seq<Step>, i: nat, g: nat)
    requires WellIndented(s) && i < g < |s| && g < FindEndOfContinuation(s, i)
    requires OpensBlock(s[i].stepType) && OpensBlock(s[g].stepType)
    ensures FindEndOfContinuation(s, g) <= FindEndOfContinuation(s, i)
  {
    InsideIsDeeper(s, i, g);
    EndDepth(s, i);
    EndWithin(s, g, FindEndOfContinuation(s, i));
  }

  /** What the walk establishes for the head at g: a disabled head has its
      whole continuation disabled, an enabled head its same-level steps
      enabled. */
  predicate ConsistentAt(r: seq<Step>, g: nat)
    requires g < |r|
  {
    var e := FindEndOfContinuation(r, g);
    (r[g].isDisabled ==> forall k :: g <= k < e ==> r[k].isDisabled) &&
    (!r[g].isDisabled ==> forall k :: g <= k < e && r[k].indentationLevel == r[g].indentationLevel ==> !r[k].isDisabled)
  }

  /** Every head from i on is consistent once the walk from i is done, for
      correctly indented steps. */
  lemma {:induction false} EnforceConsistent(s: seq<Step>, i: nat, now: Time)
    requires WellIndented(s) && i <= |s|
    ensures var r := Enforce(s, i, now);
      |r| == |s| && forall g :: i <= g < |r| && OpensBlock(r[g].stepType) ==> ConsistentAt(r, g)
    decreases |s| - i
  {
    EnforceKeepsPrefix(s, i, now);
    if i < |s| {
      if OpensBlock(s[i].stepType) {
        var e := FindEndOfContinuation(s, i);
        if s[i].isDisabled {
          var t := SetDisabledRange(s, i, e, true, now);
          assert SameShape(s, t);
          ShapeKeepsIndentation(s, t);
          EnforceConsistent(t, e, now);
          HeadDisablesBlock(s, t, i, now);
          assert Enforce(s, i, now) == Enforce(t, e, now);
        } else {
          var t := EnableAtLevel(s, i, e, s[i].indentationLevel, now);
          assert SameShape(s, t);
          ShapeKeepsIndentation(s, t);
          EnforceConsistent(t, i + 1, now);
          HeadEnablesClauses(s, t, i, now);
          assert Enforce(s, i, now) == Enforce(t, i + 1, now);
        }
      } else {
        EnforceConsistent(s, i + 1, now);
        EnforceKeepsShape(s, i + 1, now);
      }
    }
  }

  /** The disabled-head case of EnforceConsistent: the whole continuation is
      disabled and the rest of the walk starts after it, so every head in it
      is consistent. */
  lemma HeadDisablesBlock(s: seq<Step>, t: seq<Step>, i: nat, now: Time)
    requires WellIndented(s) && i < |s| && OpensBlock(s[i].stepType) && s[i].isDisabled
    requires t == SetDisabledRange(s, i, FindEndOfContinuation(s, i), true, now)
    ensures var r := Enforce(t, FindEndOfContinuation(s, i), now);
      |r| == |s| &&
      forall g :: i <= g < FindEndOfContinuation(s, i) && OpensBlock(r[g].stepType) ==> ConsistentAt(r, g)
  {
    var e := FindEndOfContinuation(s, i);
    var r := Enforce(t, e, now);
    EnforceKeepsPrefix(t, e, now);
    EnforceKeepsShape(t, e, now);
    assert SameShape(s, t);
    forall g | i <= g < e && OpensBlock(r[g].stepType) ensures ConsistentAt(r, g) {
      FindEndShape(t, r, g);
      FindEndShape(s, t, g);
      if g > i { NestedEndsInside(s, i, g); }
      assert forall k :: g <= k < FindEndOfContinuation(r, g) ==> r[k] == t[k];
    }
  }

  /** The enabled-head case of EnforceConsistent: the clauses the head just
      enabled are not touched by the rest of the walk. */
  lemma HeadEnablesClauses(s: seq<Step>, t: seq<Step>, i: nat, now: Time)
    requires WellIndented(s) && i < |s| && OpensBlock(s[i].stepType) && !s[i].isDisabled
    requires t == EnableAtLevel(s, i, FindEndOfContinuation(s, i), s[i].indentationLevel, now)
    ensures |Enforce(t, i + 1, now)| == |s|
    ensures ConsistentAt(Enforce(t, i + 1, now), i)
  {
    var e := FindEndOfContinuation(s, i);
    var r := Enforce(t, i + 1, now);
    HeadWalkShape(s, t, i, now);
    forall k | i < k < e && r[k].indentationLevel == r[i].indentationLevel ensures !r[k].isDisabled {
      ClauseUntouched(s, t, i, k, now);
    }
  }

  /** The walk after the enabled head keeps the head, the shape and so the
      extent of the head's continuation. */
  lemma HeadWalkShape(s: seq<Step>, t: seq<Step>, i: nat, now: Time)
    requires WellIndented(s) && i < |s| && OpensBlock(s[i].stepType) && !s[i].isDisabled
    requires t == EnableAtLevel(s, i, FindEndOfContinuation(s, i), s[i].indentationLevel, now)
    ensures SameShape(s, t)
    ensures var r := Enforce(t, i + 1, now);
      SameShape(s, r) && r[i] == t[i] && !r[i].isDisabled &&
      FindEndOfContinuation(r, i) == FindEndOfContinuation(s, i)
  {
    var r := Enforce(t, i + 1, now);
    assert SameShape(s, t);
    EnforceKeepsPrefix(t, i + 1, now);
    EnforceKeepsShape(t, i + 1, now);
    FindEndShape(t, r, i);
    FindEndShape(s, t, i);
  }

  /** A step at the head's level inside its continuation is reached by no
      block that the walk visits after the head. */
  lemma ClauseUntouched(s: seq<Step>, t: seq<Step>, i: nat, k: nat, now: Time)
    requires WellIndented(s) && i < k < |s| && k < FindEndOfContinuation(s, i) && OpensBlock(s[i].stepType)
    requires SameShape(s, t) && s[k].indentationLevel == s[i].indentationLevel && !t[k].isDisabled
    ensures !Enforce(t, i + 1, now)[k].isDisabled
  {
    InsideIsDeeper(s, i, k);
    assert LevelOk(s, i) && LevelOk(s, k);
    forall h | i + 1 <= h <= k && OpensBlock(t[h].stepType) ensures FindEndOfContinuation(t, h) <= k {
      FindEndShape(s, t, h);
      InsideIsDeeper(s, i, h);
      assert LevelOk(s, h);
      EndWithin(s, h, k);
    }
    EnforceFrame(t, i + 1, k, now);
  }

  /** The whole walk: steps keep their types, levels and everything but the
      disabled flag, and every block head of correctly indented steps is
      consistent afterwards. */
  lemma EnforceEstablishesConsistency(s: seq<Step>, now: Time)
    requires WellIndented(s)
    ensures SameShape(s, Enforce(s, 0, now))
    ensures forall k :: 0 <= k < |s| ==> OnlyFlagChanged(s[k], Enforce(s, 0, now)[k], now)
    ensures var r := Enforce(s, 0, now);
      forall g :: 0 <= g < |r| && OpensBlock(r[g].stepType) ==> ConsistentAt(r, g)
  {
    EnforceKeepsShape(s, 0, now);
    EnforceChangesOnlyFlags(s, 0, now);
    EnforceConsistent(s, 0, now);
  }
}
