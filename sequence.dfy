/** Sequence: a list of steps with a label, maintainers, a step setup script,
    tags and a stored error.  Every edit re-establishes the invariants of the
    list: the levels are recomputed from the step types (`indent`) and the
    disabled flags of each block are made consistent.  A stored error that
    points at a step follows that step when other steps are inserted or
    removed.  While the sequence runs, every edit is refused. */
module Sequences {
  import opened Wrappers
  import opened Text
  import opened Ordering
  import opened Timeouts
  import Tags
  import SequenceNames
  import UniqueIds
  import opened Steps
  import opened Indentation
  import opened Consistency
  import Syntax

  /** `max_size()`: the largest StepIndex. */
  const MaxSize: nat := 65535
  /** `max_label_length`. */
  const MaxLabelLength: nat := 128

  /** A std::uint16_t step index. */
  type StepIndex = x: int | 0 <= x < 0x1_0000

  /** An exception with its message and optional step index. */
  datatype Error = Error(message: string, index: Option<StepIndex>)

  const RunningMessage: string := "Cannot change a running sequence"
  const FullMessage: string := "Reached maximum sequence size (65535 steps)"
  /** The message of the control-character check, whose text is not part of
      this model. */
  const ControlCharacterMessage: string := "String contains control characters"

  /** `correct_error_index`: the stored index, if there is one, is replaced by
      the new index computed from it. */
  function CorrectErrorIndex(error: Option<Error>, newIndex: StepIndex -> Option<StepIndex>): (r: Option<Error>)
    ensures error.None? ==> r.None?
    ensures error.Some? ==> r.Some? && r.value.message == error.value.message
    ensures error.Some? && error.value.index.None? ==> r == error
    ensures error.Some? && error.value.index.Some? ==> r.value.index == newIndex(error.value.index.value)
  {
    match error
    case None => None
    case Some(Error(msg, idx)) =>
      match idx
      case None => error
      case Some(i) => Some(Error(msg, newIndex(i)))
  }

  /** The new index of step idx once the step at erased is removed. */
  function IndexAfterErase(erased: nat, idx: StepIndex): Option<StepIndex>
  {
    if erased == idx then None else if erased < idx then Some(idx - 1) else Some(idx)
  }

  /** The closure `erase(it)` hands to `correct_error_index`. */
  function AfterErase(erased: nat): StepIndex -> Option<StepIndex>
  {
    (i: StepIndex) => IndexAfterErase(erased, i)
  }

  /** The new index of step idx once the steps in [b, e) are removed. */
  function IndexAfterEraseRange(b: nat, e: nat, idx: StepIndex): Option<StepIndex>
    requires b <= e
  {
    if b <= idx < e then None else if idx >= e then Some(idx - (e - b)) else Some(idx)
  }

  /** The closure `erase(begin, end)` hands to `correct_error_index`. */
  function AfterEraseRange(b: nat, e: nat): StepIndex -> Option<StepIndex>
    requires b <= e
  {
    (i: StepIndex) => IndexAfterEraseRange(b, e, i)
  }

  /** The new index of step idx once the last step, at last, is removed. */
  function IndexAfterPopBack(last: int, idx: StepIndex): Option<StepIndex>
  {
    if last == idx then None else Some(idx)
  }

  /** The closure `pop_back` hands to `correct_error_index`. */
  function AfterPopBack(last: int): StepIndex -> Option<StepIndex>
  {
    (i: StepIndex) => IndexAfterPopBack(last, i)
  }

  /** An index function that keeps every index leaves the stored error as
      it is. */
  lemma NoErrorIndexChange(error: Option<Error>, newIndex: StepIndex -> Option<StepIndex>)
    requires forall i: StepIndex :: newIndex(i) == Some(i)
    ensures CorrectErrorIndex(error, newIndex) == error
  {
  }

  /** The step list without its last step; an empty list stays empty. */
  function DropLast(steps: seq<Step>): (r: seq<Step>)
    ensures steps == [] ==> r == []
    ensures steps != [] ==> steps == r + [steps[|steps| - 1]]
  {
    if steps == [] then [] else steps[..|steps| - 1]
  }

  /** The new index of step idx once a step is inserted at pos; the sum is
      stored back into a 16-bit index. */
  function IndexAfterInsert(pos: nat, idx: StepIndex): Option<StepIndex>
  {
    if pos <= idx then Some((idx + 1) % 0x1_0000) else Some(idx)
  }

  /** The closure `insert` hands to `correct_error_index`. */
  function AfterInsert(pos: nat): StepIndex -> Option<StepIndex>
  {
    (i: StepIndex) => IndexAfterInsert(pos, i)
  }

  /** After erasing step pos, an index names the same step it named before,
      or none when that step is the one removed. */
  lemma EraseKeepsErrorTarget(steps: seq<Step>, pos: nat, idx: StepIndex)
    requires pos < |steps| && idx < |steps|
    ensures var r := IndexAfterErase(pos, idx); var n := steps[..pos] + steps[pos + 1..];
      (r.None? <==> idx == pos) && (r.Some? ==> r.value < |n| && n[r.value] == steps[idx])
  {
  }

  /** After erasing [b, e), an index names the same step it named before, or
      none when that step was removed. */
  lemma EraseRangeKeepsErrorTarget(steps: seq<Step>, b: nat, e: nat, idx: StepIndex)
    requires b <= e <= |steps| && idx < |steps|
    ensures var r := IndexAfterEraseRange(b, e, idx); var n := steps[..b] + steps[e..];
      (r.None? <==> b <= idx < e) && (r.Some? ==> r.value < |n| && n[r.value] == steps[idx])
  {
  }

  /** After inserting at pos into a sequence below the maximum size, an index
      names the same step it named before. */
  lemma InsertKeepsErrorTarget(steps: seq<Step>, pos: nat, step: Step, idx: StepIndex)
    requires pos <= |steps| < MaxSize && idx < |steps|
    ensures var r := IndexAfterInsert(pos, idx); var n := steps[..pos] + [step] + steps[pos..];
      r.Some? && r.value < |n| && n[r.value] == steps[idx]
  {
  }

  /** An index past the end of a full-length list wraps to 0 on insertion:
      the 16-bit arithmetic of the source. */
  lemma InsertWrapsLargestIndex()
    ensures IndexAfterInsert(0, 65535) == Some(0)
  {
  }

  /** The steps as every edit leaves them: re-indented, then with consistent
      disabled flags. */
  function Normalize(steps: seq<Step>, now: Time): seq<Step>
  {
    Enforce(Reindent(steps), 0, now)
  }

  /** The attributes of a sequence that edits of the step list leave alone. */
  datatype Attributes = Attributes(
    uniqueId: UniqueIds.UniqueId,
    name: SequenceNames.SequenceName,
    seqLabel: Bytes,
    maintainers: Bytes,
    stepSetupScript: Bytes,
    tags: seq<Tags.Tag>,
    isRunning: bool,
    timeout: Timeout,
    automation: bool)

  /** `set_label`'s check on the trimmed label: None when it is accepted. */
  function LabelError(trimmed: Bytes): (r: Option<string>)
    ensures r.None? <==> !HasControl(trimmed) && |trimmed| <= MaxLabelLength
  {
    if HasControl(trimmed) then Some(ControlCharacterMessage)
    else if |trimmed| > MaxLabelLength then
      Some("Label \"" + trimmed + "\" is too long (" + Decimal(|trimmed|) + " bytes > 128 bytes)")
    else None
  }

  class Sequence {
    var error: Option<Error>
    var indentationError: string
    var uniqueId: UniqueIds.UniqueId
    var name: SequenceNames.SequenceName
    var seqLabel: Bytes
    var maintainers: Bytes
    var stepSetupScript: Bytes
    var tags: seq<Tags.Tag>
    var steps: seq<Step>
    var isRunning: bool
    var timeout: Timeout
    var automation: bool

    /** The class invariant. */
    ghost predicate Valid()
      reads this
    {
      StepsValid(steps, indentationError) && HeaderValid(seqLabel, tags)
    }

    function GetAttributes(): Attributes
      reads this
    {
      Attributes(uniqueId, name, seqLabel, maintainers, stepSetupScript, tags, isRunning, timeout, automation)
    }

    /** `Sequence(label = "", name, uid)` with the empty label; other labels
        go through Create. */
    constructor(name: SequenceNames.SequenceName, uid: UniqueIds.UniqueId)
      ensures Valid()
      ensures steps == [] && error.None? && indentationError == [] && seqLabel == []
      ensures GetAttributes() == Attributes(uid, name, [], [], [], [], false, Default(), false)
    {
      error := None;
      indentationError := [];
      uniqueId := uid;
      this.name := name;
      seqLabel := [];
      maintainers := [];
      stepSetupScript := [];
      tags := [];
      steps := [];
      isRunning := false;
      timeout := Default();
      automation := false;
    }

    /** `Sequence(label, name, uid)`: fails with the message of `set_label`. */
    static method Create(text: Bytes, name: SequenceNames.SequenceName, uid: UniqueIds.UniqueId)
      returns (r: Result<Sequence>)
      ensures r.Failure? <==> LabelError(Trim(text)).Some?
      ensures r.Failure? ==> Some(r.error) == LabelError(Trim(text))
      ensures r.Success? ==> fresh(r.value) && r.value.Valid() && r.value.steps == [] &&
                             r.value.seqLabel == Trim(text) && r.value.name == name && r.value.uniqueId == uid
    {
      var s := new Sequence(name, uid);
      var err := s.SetLabel(text);
      if err.Some? {
        r := Failure(err.value);
      } else {
        r := Success(s);
      }
    }

    /** `throw_if_running`. */
    function ThrowIfRunning(): (r: Option<string>)
      reads this
      ensures r.Some? <==> isRunning
      ensures r.Some? ==> r.value == RunningMessage
    {
      if isRunning then Some(RunningMessage) else None
    }

    /** `throw_if_full`. */
    function ThrowIfFull(): (r: Option<string>)
      reads this
      ensures r.Some? <==> |steps| == MaxSize
      ensures r.Some? ==> r.value == FullMessage
    {
      if |steps| == MaxSize then Some(FullMessage) else None
    }

    /** `check_syntax()`: None when the sequence is syntactically correct. */
    function CheckSyntax(): (r: Option<string>)
      reads this
      ensures indentationError != [] ==> r == Some(indentationError)
      ensures indentationError == [] ==> r == Syntax.CheckRange(steps, 0, |steps|)
    {
      Syntax.CheckSyntax(indentationError, steps)
    }

    /** `indent`: the levels and the indentation error computed from the
        step types; nothing else changes. */
    method Indent()
      modifies this
      ensures steps == Reindent(old(steps))
      ensures indentationError == IndentationError(Types(old(steps)))
      ensures error == old(error) && GetAttributes() == old(GetAttributes())
    {
      steps, indentationError := IndentSteps(steps);
    }

    /** `std::for_each(b, e, set_disabled(d))` on the stored steps. */
    method SetDisabledInRange(b: nat, e: nat, d: bool, now: Time)
      requires b <= e <= |steps|
      modifies this
      ensures steps == SetDisabledRange(old(steps), b, e, d, now)
      ensures error == old(error) && indentationError == old(indentationError)
      ensures GetAttributes() == old(GetAttributes())
    {
      var k := b;
      while k < e
        invariant b <= k <= e && |steps| == |old(steps)|
        invariant forall j :: 0 <= j < |steps| ==>
                    steps[j] == if b <= j < k then SetDisabled(old(steps)[j], d, now) else old(steps)[j]
        invariant error == old(error) && indentationError == old(indentationError)
        invariant GetAttributes() == old(GetAttributes())
      {
        steps := steps[k := SetDisabled(steps[k], d, now)];
        k := k + 1;
      }
    }

    /** The for_each of an enabled head: enable the steps in [b, e) at level
        lvl. */
    method EnableAtLevelInRange(b: nat, e: nat, lvl: int, now: Time)
      requires b <= e <= |steps|
      modifies this
      ensures steps == EnableAtLevel(old(steps), b, e, lvl, now)
      ensures error == old(error) && indentationError == old(indentationError)
      ensures GetAttributes() == old(GetAttributes())
    {
      var k := b;
      while k < e
        invariant b <= k <= e && |steps| == |old(steps)|
        invariant forall j :: 0 <= j < |steps| ==>
                    steps[j] == if b <= j < k && old(steps)[j].indentationLevel == lvl
                                then SetDisabled(old(steps)[j], false, now) else old(steps)[j]
        invariant error == old(error) && indentationError == old(indentationError)
        invariant GetAttributes() == old(GetAttributes())
      {
        if steps[k].indentationLevel == lvl {
          steps := steps[k := SetDisabled(steps[k], false, now)];
        }
        k := k + 1;
      }
    }

    /** `enforce_consistency_of_disabled_flags`: the walk of Enforce. */
    method EnforceConsistencyOfDisabledFlags(now: Time)
      modifies this
      ensures steps == Enforce(old(steps), 0, now)
      ensures error == old(error) && indentationError == old(indentationError)
      ensures GetAttributes() == old(GetAttributes())
    {
      var i: nat := 0;
      while i < |steps|
        invariant i <= |steps|
        invariant Enforce(steps, i, now) == Enforce(old(steps), 0, now)
        invariant error == old(error) && indentationError == old(indentationError)
        invariant GetAttributes() == old(GetAttributes())
        decreases |steps| - i
      {
        var level := steps[i].indentationLevel;
        match steps[i].stepType {
          case If | Try | While =>
            var itEnd := FindEndOfContinuation(steps, i);
            if steps[i].isDisabled {
              SetDisabledInRange(i, itEnd, true, now);
              i := itEnd;
            } else {
              EnableAtLevelInRange(i, itEnd, level, now);
              i := i + 1;
            }
          case Action | Catch | Else | ElseIf | End =>
            i := i + 1;
        }
      }
    }

    /** `enforce_invariants`: indent, then make the disabled flags
        consistent; the class invariant holds afterwards whenever the size
        and header parts of it held before. */
    method EnforceInvariants(now: Time)
      modifies this
      ensures steps == Normalize(old(steps), now)
      ensures indentationError == IndentationError(Types(old(steps)))
      ensures error == old(error) && GetAttributes() == old(GetAttributes())
      ensures |old(steps)| <= MaxSize ==> StepsValid(steps, indentationError)
    {
      Indent();
      EnforceConsistencyOfDisabledFlags(now);
      NormalizeKeepsInvariant(old(steps), now);
    }

    /** `assign(it, step)`: refused while running; otherwise the step is
        replaced and the invariants re-established. */
    method Assign(idx: nat, step: Step, now: Time) returns (err: Option<string>)
      requires idx < |steps|
      modifies this
      ensures err == old(ThrowIfRunning())
      ensures err.Some? ==> steps == old(steps) && indentationError == old(indentationError)
      ensures err.None? ==> steps == Normalize(old(steps)[idx := step], now)
      ensures error == old(error) && GetAttributes() == old(GetAttributes())
      ensures old(Valid()) ==> Valid()
    {
      err := ThrowIfRunning();
      if err.Some? {
        return;
      }
      steps := steps[idx := step];
      EnforceInvariants(now);
    }

    /** `erase(it)`: refused while running; otherwise the step goes, the
        stored error index follows its step, and the position of the step
        after it is returned. */
    method Erase(idx: nat, now: Time) returns (err: Option<string>, next: nat)
      requires idx < |steps|
      modifies this
      ensures err == old(ThrowIfRunning())
      ensures err.Some? ==> steps == old(steps) && error == old(error) &&
                            indentationError == old(indentationError)
      ensures err.None? ==> next == idx &&
                            steps == Normalize(old(steps)[..idx] + old(steps)[idx + 1..], now) &&
                            error == CorrectErrorIndex(old(error), AfterErase(idx))
      ensures GetAttributes() == old(GetAttributes())
      ensures old(Valid()) ==> Valid()
    {
      next := idx;
      err := ThrowIfRunning();
      if err.Some? {
        return;
      }
      steps := steps[..idx] + steps[idx + 1..];
      error := CorrectErrorIndex(error, AfterErase(idx));
      EnforceInvariants(now);
    }

    /** `erase(begin, end)`: refused while running or for a reversed range;
        otherwise the range goes and the stored error index follows its
        step. */
    method EraseRange(b: nat, e: nat, now: Time) returns (err: Option<string>, next: nat)
      requires b <= |steps| && e <= |steps|
      modifies this
      ensures err == if old(isRunning) then Some(RunningMessage)
                     else if b > e then Some("Invalid range: begin > end") else None
      ensures err.Some? ==> steps == old(steps) && error == old(error) &&
                            indentationError == old(indentationError)
      ensures err.None? ==> next == b &&
                            steps == Normalize(old(steps)[..b] + old(steps)[e..], now) &&
                            error == CorrectErrorIndex(old(error), AfterEraseRange(b, e))
      ensures GetAttributes() == old(GetAttributes())
      ensures old(Valid()) ==> Valid()
    {
      next := b;
      err := ThrowIfRunning();
      if err.Some? {
        return;
      }
      if b > e {
        err := Some("Invalid range: begin > end");
        return;
      }
      RemoveRange(b, e);
      EnforceInvariants(now);
    }

    /** The steps in [b, e) go and the stored error index follows its step. */
    method RemoveRange(b: nat, e: nat)
      requires b <= e <= |steps|
      modifies this
      ensures steps == old(steps)[..b] + old(steps)[e..]
      ensures error == CorrectErrorIndex(old(error), AfterEraseRange(b, e))
      ensures indentationError == old(indentationError) && GetAttributes() == old(GetAttributes())
    {
      steps := steps[..b] + steps[e..];
      error := CorrectErrorIndex(error, AfterEraseRange(b, e));
    }

    /** `pop_back`: refused while running; a no-op on the step list when it
        is empty. */
    method PopBack(now: Time) returns (err: Option<string>)
      modifies this
      ensures err == old(ThrowIfRunning())
      ensures err.Some? ==> steps == old(steps) && error == old(error) &&
                            indentationError == old(indentationError)
      ensures err.None? ==> steps == Normalize(DropLast(old(steps)), now) &&
                            error == CorrectErrorIndex(old(error), AfterPopBack(|old(steps)| - 1))
      ensures GetAttributes() == old(GetAttributes())
      ensures old(Valid()) ==> Valid()
    {
      err := ThrowIfRunning();
      if err.Some? {
        return;
      }
      RemoveLast();
      EnforceInvariants(now);
    }

    /** The guarded part of `pop_back`: the last step, if there is one, goes
        and the stored error index follows its step. */
    method RemoveLast()
      modifies this
      ensures steps == DropLast(old(steps))
      ensures error == CorrectErrorIndex(old(error), AfterPopBack(|old(steps)| - 1))
      ensures indentationError == old(indentationError) && GetAttributes() == old(GetAttributes())
    {
      if steps != [] {
        var last := |steps| - 1;
        error := CorrectErrorIndex(error, AfterPopBack(last));
        steps := steps[..last];
      } else {
        NoErrorIndexChange(error, AfterPopBack(-1));
      }
    }

    /** `push_back`: refused while running or when full. */
    method PushBack(step: Step, now: Time) returns (err: Option<string>)
      modifies this
      ensures old(isRunning) ==> err == Some(RunningMessage)
      ensures !old(isRunning) ==> err == old(ThrowIfFull())
      ensures err.Some? ==> steps == old(steps) && indentationError == old(indentationError)
      ensures err.None? ==> steps == Normalize(old(steps) + [step], now)
      ensures error == old(error) && GetAttributes() == old(GetAttributes())
      ensures old(Valid()) ==> Valid()
    {
      err := ThrowIfRunning();
      if err.Some? {
        return;
      }
      err := ThrowIfFull();
      if err.Some? {
        return;
      }
      steps := steps + [step];
      EnforceInvariants(now);
    }

    /** `insert(it, step)`: refused while running or when full; otherwise
        the step is placed at idx and a stored error index at or after idx
        moves up by one. */
    method Insert(idx: nat, step: Step, now: Time) returns (err: Option<string>, pos: nat)
      requires idx <= |steps|
      modifies this
      ensures old(isRunning) ==> err == Some(RunningMessage)
      ensures !old(isRunning) ==> err == old(ThrowIfFull())
      ensures err.Some? ==> steps == old(steps) && error == old(error) &&
                            indentationError == old(indentationError)
      ensures err.None? ==> pos == idx &&
                            steps == Normalize(old(steps)[..idx] + [step] + old(steps)[idx..], now) &&
                            error == CorrectErrorIndex(old(error), AfterInsert(idx))
      ensures GetAttributes() == old(GetAttributes())
      ensures old(Valid()) ==> Valid()
    {
      pos := idx;
      err := ThrowIfRunning();
      if err.Some? {
        return;
      }
      err := ThrowIfFull();
      if err.Some? {
        return;
      }
      steps := steps[..idx] + [step] + steps[idx..];
      error := CorrectErrorIndex(error, AfterInsert(idx));
      EnforceInvariants(now);
    }

    /** `modify(it, fct)`: refused while running.  Otherwise the step at idx
        becomes modified, the step the modification function leaves behind,
        and thrown says whether the function threw (with its message).  The
        finally block re-indents if the type or the level changed, re-enables
        the whole continuation of a re-enabled IF, WHILE or TRY, and makes
        the disabled flags consistent; the function's exception is passed on
        afterwards. */
    method Modify(idx: nat, modified: Step, thrown: Option<string>, now: Time) returns (err: Option<string>)
      requires idx < |steps|
      modifies this
      ensures old(isRunning) ==> err == Some(RunningMessage) && steps == old(steps) &&
                                 indentationError == old(indentationError)
      ensures !old(isRunning) ==> err == thrown && steps == ModifiedSteps(old(steps), idx, modified, now)
      ensures !old(isRunning) ==>
                indentationError == if Reindented(old(steps), idx, modified) then IndentationError(Types(old(steps)[idx := modified]))
                                    else old(indentationError)
      ensures error == old(error) && GetAttributes() == old(GetAttributes())
      ensures old(Valid()) ==> Valid()
    {
      err := ThrowIfRunning();
      if err.Some? {
        return;
      }
      ghost var s0 := steps;
      ghost var valid0 := Valid();
      var oldLevel := steps[idx].indentationLevel;
      var oldType := steps[idx].stepType;
      var oldDisabled := steps[idx].isDisabled;
      steps := steps[idx := modified];
      IndentIfNecessary(idx, oldLevel, oldType, oldDisabled, now);
      err := thrown;
      if valid0 {
        ModifiedKeepsInvariant(s0, idx, modified, now);
      }
    }

    /** The finally block of `modify`, given the level, type and disabled
        flag the step at idx had before the modification. */
    method IndentIfNecessary(idx: nat, oldLevel: int, oldType: StepType, oldDisabled: bool, now: Time)
      requires idx < |steps|
      modifies this
      ensures steps == FinallySteps(old(steps), idx, oldLevel, oldType, oldDisabled, now)
      ensures indentationError ==
                if old(steps)[idx].stepType != oldType || old(steps)[idx].indentationLevel != oldLevel
                then IndentationError(Types(old(steps))) else old(indentationError)
      ensures error == old(error) && GetAttributes() == old(GetAttributes())
    {
      if steps[idx].stepType != oldType || steps[idx].indentationLevel != oldLevel {
        Indent();
      }
      if !steps[idx].isDisabled && oldDisabled {
        if OpensBlock(steps[idx].stepType) {
          var itEnd := FindEndOfContinuation(steps, idx);
          SetDisabledInRange(idx, itEnd, false, now);
        }
      }
      EnforceConsistencyOfDisabledFlags(now);
    }

    /** `set_label`: the trimmed label, checked for control characters and
        length. */
    method SetLabel(text: Bytes) returns (err: Option<string>)
      modifies this
      ensures err == LabelError(Trim(text))
      ensures err.None? ==> seqLabel == Trim(text)
      ensures err.Some? ==> seqLabel == old(seqLabel)
      ensures steps == old(steps) && error == old(error) && indentationError == old(indentationError)
      ensures GetAttributes() == old(GetAttributes()).(seqLabel := seqLabel)
      ensures old(Valid()) ==> Valid()
    {
      var trimmed := Trim(text);
      err := LabelError(trimmed);
      if err.None? {
        seqLabel := trimmed;
      }
    }

    /** `set_maintainers`: the trimmed text, checked for control
        characters. */
    method SetMaintainers(m: Bytes) returns (err: Option<string>)
      modifies this
      ensures err.Some? <==> HasControl(Trim(m))
      ensures err.Some? ==> err.value == ControlCharacterMessage && maintainers == old(maintainers)
      ensures err.None? ==> maintainers == Trim(m)
      ensures steps == old(steps) && error == old(error) && indentationError == old(indentationError)
      ensures GetAttributes() == old(GetAttributes()).(maintainers := maintainers)
      ensures old(Valid()) ==> Valid()
    {
      var trimmed := Trim(m);
      if HasControl(trimmed) {
        err := Some(ControlCharacterMessage);
      } else {
        err := None;
        maintainers := trimmed;
      }
    }

    /** `set_step_setup_script`: refused while running; trailing whitespace
        is removed. */
    method SetStepSetupScript(script: Bytes) returns (err: Option<string>)
      modifies this
      ensures err == old(ThrowIfRunning())
      ensures stepSetupScript == if err.None? then TrimRight(script) else old(stepSetupScript)
      ensures steps == old(steps) && error == old(error) && indentationError == old(indentationError)
      ensures GetAttributes() == old(GetAttributes()).(stepSetupScript := stepSetupScript)
      ensures old(Valid()) ==> Valid()
    {
      err := ThrowIfRunning();
      if err.None? {
        stepSetupScript := TrimRight(script);
      }
    }

    /** `set_tags`: the tags sorted with duplicates removed. */
    method SetTags(newTags: seq<Tags.Tag>)
      modifies this
      ensures tags == SortUnique(newTags, Tags.Key)
      ensures StrictlySorted(tags, Tags.Key) && forall t :: t in tags <==> t in newTags
      ensures steps == old(steps) && error == old(error) && indentationError == old(indentationError)
      ensures GetAttributes() == old(GetAttributes()).(tags := tags)
      ensures old(Valid()) ==> Valid()
    {
      Tags.KeyInjective();
      var acc: seq<Tags.Tag> := [];
      var i := 0;
      while i < |newTags|
        invariant 0 <= i <= |newTags|
        invariant acc == SortUnique(newTags[..i], Tags.Key)
      {
        assert newTags[..i + 1][..i] == newTags[..i];
        acc := Ordering.Insert(acc, newTags[i], Tags.Key);
        i := i + 1;
      }
      assert newTags[..i] == newTags;
      tags := acc;
    }

    method SetRunning(running: bool)
      modifies this
      ensures isRunning == running
      ensures steps == old(steps) && error == old(error) && indentationError == old(indentationError)
      ensures GetAttributes() == old(GetAttributes()).(isRunning := running)
      ensures old(Valid()) ==> Valid()
    {
      isRunning := running;
    }

    method SetError(e: Option<Error>)
      modifies this
      ensures error == e
      ensures steps == old(steps) && indentationError == old(indentationError)
      ensures GetAttributes() == old(GetAttributes())
      ensures old(Valid()) ==> Valid()
    {
      error := e;
    }

    method SetTimeout(t: Timeout)
      modifies this
      ensures timeout == t
      ensures steps == old(steps) && error == old(error) && indentationError == old(indentationError)
      ensures GetAttributes() == old(GetAttributes()).(timeout := t)
      ensures old(Valid()) ==> Valid()
    {
      timeout := t;
    }

    method SetAutomation(a: bool)
      modifies this
      ensures automation == a
      ensures steps == old(steps) && error == old(error) && indentationError == old(indentationError)
      ensures GetAttributes() == old(GetAttributes()).(automation := a)
      ensures old(Valid()) ==> Valid()
    {
      automation := a;
    }
  }

  /** The loop of `indent` over the step list: each step gets the level the
      nesting rule gives it, and the first nesting problem is reported. */
  method IndentSteps(s0: seq<Step>) returns (s: seq<Step>, err: string)
    ensures s == Reindent(s0)
    ensures err == IndentationError(Types(s0))
  {
    s := s0;
    ghost var ts := Types(s);
    ghost var ls := Levels(ts);
    var level: int := 0;
    err := [];
    var i := 0;
    while i < |s|
      invariant 0 <= i <= |s| == |ts|
      invariant 0 <= level <= MaxIndentationLevel
      invariant Run(ts[..i]) == IndentState(level, err)
      invariant forall k :: 0 <= k < i ==> s[k] == s0[k].(indentationLevel := ls[k])
      invariant forall k :: i <= k < |s| ==> s[k] == s0[k]
    {
      RunStep(ts, i);
      var stepLevel;
      stepLevel, level, err := IndentStep(s[i].stepType, level, err);
      s := s[i := s[i].(indentationLevel := stepLevel)];
      i := i + 1;
    }
    assert ts[..|s|] == ts;
    assert s == Reindent(s0);
    if level != 0 {
      if err == [] {
        err := Unclosed;
      }
    }
  }

  /** One iteration of the loop in `indent`: the step's level and the new
      current level, each clamped to [0, 20], with the first problem met
      recorded in err. */
  method IndentStep(t: StepType, level0: Level, err0: string) returns (stepLevel: Level, level: Level, err: string)
    ensures IndentState(level, err) == Advance(IndentState(level0, err0), t)
    ensures stepLevel == StepLevel(IndentState(level0, err0), t)
  {
    err := err0;
    var rawLevel, nextLevel := NestStep(t, level0);
    if rawLevel < 0 {
      stepLevel := 0;
      if err == [] {
        err := NotNested;
      }
    } else {
      stepLevel := rawLevel;
    }
    if nextLevel < 0 {
      level := 0;
      if err == [] {
        err := UnmatchedEnd;
      }
    } else if nextLevel > MaxIndentationLevel {
      level := MaxIndentationLevel;
      if err == [] {
        err := TooDeep;
      }
    } else {
      level := nextLevel;
    }
  }

  /** The switch in `indent`: the level of a step of type t at the current
      level, and the level after it, both before clamping. */
  method NestStep(t: StepType, level: int) returns (stepLevel: int, next: int)
    ensures stepLevel == RawStepLevel(t, level) && next == RawNextDepth(t, level)
  {
    match t {
      case Action =>
        stepLevel, next := level, level;
      case If | Try | While =>
        stepLevel, next := level, level + 1;
      case Catch | Else | ElseIf =>
        stepLevel, next := level - 1, level;
      case End =>
        stepLevel, next := level - 1, level - 1;
    }
  }

  /** Whether `modify`'s finally block re-indents: the type or the level of
      the step changed. */
  predicate Reindented(steps: seq<Step>, idx: nat, modified: Step)
    requires idx < |steps|
  {
    modified.stepType != steps[idx].stepType || modified.indentationLevel != steps[idx].indentationLevel
  }

  /** The steps the finally block of `modify` leaves behind, from the
      modified steps s1 and what the step at idx was before. */
  function FinallySteps(s1: seq<Step>, idx: nat, oldLevel: int, oldType: StepType, oldDisabled: bool, now: Time): seq<Step>
    requires idx < |s1|
  {
    var s2 := if s1[idx].stepType != oldType || s1[idx].indentationLevel != oldLevel then Reindent(s1) else s1;
    var s3 := if !s2[idx].isDisabled && oldDisabled && OpensBlock(s2[idx].stepType)
              then SetDisabledRange(s2, idx, FindEndOfContinuation(s2, idx), false, now)
              else s2;
    Enforce(s3, 0, now)
  }

  /** The steps `modify` leaves behind. */
  function ModifiedSteps(steps: seq<Step>, idx: nat, modified: Step, now: Time): seq<Step>
    requires idx < |steps|
  {
    FinallySteps(steps[idx := modified], idx, steps[idx].indentationLevel, steps[idx].stepType, steps[idx].isDisabled, now)
  }

  /** The part of the class invariant that concerns the steps: at most 65535
      of them, levels and indentation error as `indent` computes them, and
      consistent disabled flags when the steps nest. */
  predicate StepsValid(steps: seq<Step>, indentationError: string)
  {
    |steps| <= MaxSize && LevelsComputed(steps) &&
    indentationError == IndentationError(Types(steps)) &&
    (indentationError == [] ==> FlagsConsistent(steps))
  }

  /** The rest of the class invariant: a label of at most 128 bytes without
      control characters, and sorted tags. */
  predicate HeaderValid(seqLabel: Bytes, tags: seq<Tags.Tag>)
  {
    |seqLabel| <= MaxLabelLength && !HasControl(seqLabel) && StrictlySorted(tags, Tags.Key)
  }

  /** Every step carries the level `indent` computes for it. */
  predicate LevelsComputed(steps: seq<Step>)
  {
    forall k :: 0 <= k < |steps| ==> steps[k].indentationLevel == Levels(Types(steps))[k]
  }

  /** Every block head is consistent with its continuation. */
  predicate FlagsConsistent(steps: seq<Step>)
  {
    forall g :: 0 <= g < |steps| ==> HeadConsistent(steps, g)
  }

  predicate HeadConsistent(steps: seq<Step>, g: nat)
    requires g < |steps|
  {
    OpensBlock(steps[g].stepType) ==> ConsistentAt(steps, g)
  }

  /** The walk over steps with computed levels keeps types and levels, and
      makes the flags consistent when the steps nest. */
  lemma EnforceRestoresInvariant(s: seq<Step>, now: Time)
    requires LevelsComputed(s)
    ensures var r := Enforce(s, 0, now);
      Types(r) == Types(s) && LevelsComputed(r) &&
      (IndentationError(Types(s)) == [] ==> FlagsConsistent(r))
  {
    var r := Enforce(s, 0, now);
    EnforceKeepsShape(s, 0, now);
    assert Types(r) == Types(s);
    if IndentationError(Types(s)) == [] {
      IndentationErrorEmptyIff(Types(s));
      assert Reindent(s) == s;
      ReindentWellIndented(s);
      EnforceConsistent(s, 0, now);
    }
  }

  /** Steps with computed levels still have them after `modify`, and their
      flags are consistent when the modified steps nest. */
  lemma ModifiedKeepsInvariant(s0: seq<Step>, idx: nat, modified: Step, now: Time)
    requires idx < |s0| && LevelsComputed(s0)
    ensures var r := ModifiedSteps(s0, idx, modified, now); var ts := Types(s0[idx := modified]);
      Types(r) == ts && LevelsComputed(r) && (IndentationError(ts) == [] ==> FlagsConsistent(r))
    ensures !Reindented(s0, idx, modified) ==> Types(s0[idx := modified]) == Types(s0)
  {
    var s1 := s0[idx := modified];
    var s2 := if Reindented(s0, idx, modified) then Reindent(s1) else s1;
    if Reindented(s0, idx, modified) {
      ReindentComputesLevels(s1);
    } else {
      ReplaceKeepsLevels(s0, idx, modified);
    }
    var s3 := if !s2[idx].isDisabled && s0[idx].isDisabled && OpensBlock(s2[idx].stepType)
              then SetDisabledRange(s2, idx, FindEndOfContinuation(s2, idx), false, now)
              else s2;
    if s3 != s2 {
      SetDisabledKeepsLevels(s2, idx, FindEndOfContinuation(s2, idx), false, now);
    }
    EnforceRestoresInvariant(s3, now);
  }

  /** Re-indented steps carry the levels `indent` computes. */
  lemma ReindentComputesLevels(s: seq<Step>)
    ensures Types(Reindent(s)) == Types(s) && LevelsComputed(Reindent(s))
  {
    assert Types(Reindent(s)) == Types(s);
  }

  /** Replacing a step by one of the same type and level keeps the types and
      the computed levels. */
  lemma ReplaceKeepsLevels(s: seq<Step>, idx: nat, step: Step)
    requires idx < |s| && LevelsComputed(s)
    requires step.stepType == s[idx].stepType && step.indentationLevel == s[idx].indentationLevel
    ensures Types(s[idx := step]) == Types(s) && LevelsComputed(s[idx := step])
  {
    assert Types(s[idx := step]) == Types(s);
  }

  /** Setting disabled flags keeps the types and the computed levels. */
  lemma SetDisabledKeepsLevels(s: seq<Step>, b: nat, e: nat, d: bool, now: Time)
    requires b <= e <= |s| && LevelsComputed(s)
    ensures Types(SetDisabledRange(s, b, e, d, now)) == Types(s)
    ensures LevelsComputed(SetDisabledRange(s, b, e, d, now))
  {
    assert Types(SetDisabledRange(s, b, e, d, now)) == Types(s);
  }

  /** Normalized steps meet the step part of the class invariant. */
  lemma NormalizeKeepsInvariant(steps: seq<Step>, now: Time)
    ensures var r := Normalize(steps, now);
      Types(r) == Types(steps) && LevelsComputed(r) &&
      (IndentationError(Types(r)) == [] ==> FlagsConsistent(r))
  {
    var s := Reindent(steps);
    assert Types(s) == Types(steps);
    EnforceRestoresInvariant(s, now);
  }
}
