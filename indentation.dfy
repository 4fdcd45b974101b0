/** The indentation rule of a sequence (`Sequence::indent`) as a function of
    the step types: ACTION, IF, TRY and WHILE sit at the current depth, CATCH,
    ELSE, ELSE IF and END one level less; IF, TRY and WHILE open a level and
    END closes one.  The depth is clamped to [0, 20] and the first problem
    found is reported. */
module Indentation {
  import opened Text
  import opened Steps

  const NotNested: string := "Steps are not nested correctly"
  const UnmatchedEnd: string :=
    "Steps are not nested correctly (every END must correspond to one IF, TRY, or WHILE)"
  const TooDeep: string := "Steps are nested too deeply (max. level: 20)"
  const Unclosed: string :=
    "Steps are not nested correctly (there must be one END for each IF, TRY, WHILE)"

  predicate OpensBlock(t: StepType)
  {
    t == If || t == Try || t == While
  }

  /** The level a step of type t gets at depth d, before clamping. */
  function RawStepLevel(t: StepType, d: int): int
  {
    match t
    case Action | If | Try | While => d
    case Catch | Else | ElseIf | End => d - 1
  }

  /** The depth after a step of type t at depth d, before clamping. */
  function RawNextDepth(t: StepType, d: int): int
  {
    if OpensBlock(t) then d + 1 else if t == End then d - 1 else d
  }

  /** The loop state of `indent`: the current depth and the error so far. */
  datatype IndentState = IndentState(depth: Level, error: string)

  /** One iteration of the loop in `indent`. */
  function Advance(st: IndentState, t: StepType): (r: IndentState)
    ensures st.error != [] ==> r.error == st.error
  {
    var e1 := if RawStepLevel(t, st.depth) < 0 && st.error == [] then NotNested else st.error;
    var d := RawNextDepth(t, st.depth);
    if d < 0 then IndentState(0, if e1 == [] then UnmatchedEnd else e1)
    else if d > MaxIndentationLevel then IndentState(MaxIndentationLevel, if e1 == [] then TooDeep else e1)
    else IndentState(d, e1)
  }

  /** The level `indent` gives a step of type t in state st. */
  function StepLevel(st: IndentState, t: StepType): Level
  {
    var l := RawStepLevel(t, st.depth);
    if l < 0 then 0 else l
  }

  /** The loop state after the given steps. */
  function Run(ts: seq<StepType>): IndentState
  {
    if ts == [] then IndentState(0, []) else Advance(Run(ts[..|ts| - 1]), ts[|ts| - 1])
  }

  /** The levels `indent` assigns. */
  function Levels(ts: seq<StepType>): (r: seq<Level>)
    ensures |r| == |ts|
    ensures forall i :: 0 <= i < |ts| ==> r[i] == StepLevel(Run(ts[..i]), ts[i])
  {
    seq(|ts|, i requires 0 <= i < |ts| => StepLevel(Run(ts[..i]), ts[i]))
  }

  /** The types of the steps, in order. */
  function Types(steps: seq<Step>): (ts: seq<StepType>)
    ensures |ts| == |steps|
    ensures forall i :: 0 <= i < |steps| ==> ts[i] == steps[i].stepType
  {
    seq(|steps|, i requires 0 <= i < |steps| => steps[i].stepType)
  }

  /** The steps carrying the levels `indent` assigns them. */
  function Reindent(steps: seq<Step>): (r: seq<Step>)
    ensures |r| == |steps|
    ensures forall i :: 0 <= i < |steps| ==> r[i] == steps[i].(indentationLevel := Levels(Types(steps))[i])
  {
    var ls := Levels(Types(steps));
    seq(|steps|, i requires 0 <= i < |steps| => steps[i].(indentationLevel := ls[i]))
  }

  /** The error message `indent` leaves behind, empty when there is none. */
  function IndentationError(ts: seq<StepType>): string
  {
    var st := Run(ts);
    if st.depth != 0 && st.error == [] then Unclosed else st.error
  }

  /** The reference rule: the depth counts open blocks without any clamping. */
  function RawDepth(ts: seq<StepType>): int
  {
    if ts == [] then 0 else RawNextDepth(ts[|ts| - 1], RawDepth(ts[..|ts| - 1]))
  }

  /** Step i is fine: its level is not negative and the depth after it lies
      in [0, 20]. */
  predicate StepNests(ts: seq<StepType>, i: int)
    requires 0 <= i < |ts|
  {
    RawStepLevel(ts[i], RawDepth(ts[..i])) >= 0 && 0 <= RawDepth(ts[..i + 1]) <= MaxIndentationLevel
  }

  predicate PrefixNests(ts: seq<StepType>)
  {
    forall i :: 0 <= i < |ts| ==> StepNests(ts, i)
  }

  /** Correct nesting: no step gets a negative level, the depth stays in
      [0, 20], and every opened block is closed at the end. */
  predicate WellNested(ts: seq<StepType>)
  {
    PrefixNests(ts) && RawDepth(ts) == 0
  }

  /** The loop state after step i is one iteration past the state before it. */
  lemma RunStep(ts: seq<StepType>, i: nat)
    requires i < |ts|
    ensures Run(ts[..i + 1]) == Advance(Run(ts[..i]), ts[i])
  {
    assert ts[..i + 1][..i] == ts[..i];
  }

  lemma PrefixOfSnoc(p: seq<StepType>, t: StepType, i: nat)
    requires i <= |p|
    ensures (p + [t])[..i] == p[..i]
  {
  }

  lemma {:induction false} PrefixNestsSnoc(p: seq<StepType>, t: StepType)
    ensures PrefixNests(p + [t]) <==> PrefixNests(p) && StepNests(p + [t], |p|)
    ensures RawDepth((p + [t])[..|p|]) == RawDepth(p)
  {
    var ts := p + [t];
    assert ts[..|p|] == p;
    forall i | 0 <= i < |p| ensures StepNests(ts, i) <==> StepNests(p, i) {
      assert ts[..i] == p[..i];
      assert ts[..i + 1] == p[..i + 1];
    }
  }

  /** Without an error so far the loop state is the unclamped depth, and an
      error is recorded exactly when some step failed to nest. */
  lemma {:induction false} RunTracksRawDepth(ts: seq<StepType>)
    ensures Run(ts).error == [] <==> PrefixNests(ts)
    ensures Run(ts).error == [] ==> Run(ts).depth == RawDepth(ts)
  {
    if ts != [] {
      var p, t := ts[..|ts| - 1], ts[|ts| - 1];
      RunTracksRawDepth(p);
      assert ts == p + [t];
      PrefixNestsSnoc(p, t);
      assert ts[..|p| + 1] == ts;
    }
  }

  /** `indentation_error_` ends up empty exactly when the steps are
      correctly nested. */
  lemma IndentationErrorEmptyIff(ts: seq<StepType>)
    ensures IndentationError(ts) == [] <==> WellNested(ts)
  {
    RunTracksRawDepth(ts);
  }

  /** In a correctly nested sequence every step gets exactly the level the
      rule gives it, with no clamping. */
  lemma LevelsFollowRule(ts: seq<StepType>, i: nat)
    requires WellNested(ts) && i < |ts|
    ensures Levels(ts)[i] == RawStepLevel(ts[i], RawDepth(ts[..i]))
  {
    assert PrefixNests(ts[..i]) by {
      forall k | 0 <= k < i ensures StepNests(ts[..i], k) {
        assert StepNests(ts, k);
        assert ts[..i][..k] == ts[..k];
        assert ts[..i][..k + 1] == ts[..k + 1];
      }
    }
    RunTracksRawDepth(ts[..i]);
    assert StepNests(ts, i);
  }

  /** A lone TRY leaves a block open; a leading END has nothing to close. */
  lemma UnbalancedExamples()
    ensures IndentationError([Try]) == Unclosed
    ensures IndentationError([End]) == NotNested
  {
    assert [Try][..0] == [];
    assert [End][..0] == [];
  }

  lemma BalancedExample()
    ensures IndentationError([Try, Catch, End]) == []
  {
    var ts := [Try, Catch, End];
    assert Run([Try]) == IndentState(1, []) by { assert [Try][..0] == []; }
    assert Run([Try, Catch]) == IndentState(1, []) by { assert [Try, Catch][..1] == [Try]; }
    assert Run(ts) == IndentState(0, []) by { assert ts[..2] == [Try, Catch]; }
  }

  lemma LevelsExample()
    ensures Levels([If, Action, Else, Action, End]) == [0, 1, 0, 1, 0]
  {
    var us := [If, Action, Else, Action, End];
    assert Run(us[..0]) == IndentState(0, []);
    assert Run(us[..1]) == IndentState(1, []) by { assert us[..1][..0] == []; }
    assert Run(us[..2]) == IndentState(1, []) by { assert us[..2][..1] == us[..1]; }
    assert Run(us[..3]) == IndentState(1, []) by { assert us[..3][..2] == us[..2]; }
    assert Run(us[..4]) == IndentState(1, []) by { assert us[..4][..3] == us[..3]; }
  }
}
