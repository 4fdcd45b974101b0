/** Step: one element of a sequence.  A step has a type, a label, a script,
    the names of the context variables it imports and exports, two time
    stamps, a timeout, an indentation level and two flags.  Steps are values:
    a sequence stores copies, so the setters are functions that return the
    updated step. */
module Steps {
  import opened Wrappers
  import opened Text
  import opened Ordering
  import opened Timeouts
  import VariableNames

  /** The step types, in the order of the source enumeration. */
  datatype StepType = Action | If | Else | ElseIf | End | While | Try | Catch

  /** The deepest nesting a step can have. */
  const MaxIndentationLevel: int := 20

  type Level = l: int | 0 <= l <= MaxIndentationLevel

  /** A C++ `short`. */
  type Short = x: int | -0x8000 <= x < 0x8000

  /** A point in time as an opaque count; 0 is the default-constructed
      TimePoint (the epoch). */
  type Time = int

  /** A std::set<VariableName>: strictly ordered by name. */
  type NameSet = ns: seq<VariableNames.VariableName> | StrictlySorted(ns, VariableNames.Key)
    witness []

  datatype Step = Step(
    stepLabel: Bytes,
    script: Bytes,
    usedContextVariableNames: NameSet,
    timeOfLastModification: Time,
    timeOfLastExecution: Time,
    timeout: Timeout,
    stepType: StepType,
    indentationLevel: Level,
    isRunning: bool,
    isDisabled: bool)

  /** `Step(type)`: empty label and script, no variables, modified now, never
      executed, infinite timeout, level 0, neither running nor disabled. */
  function NewStep(t: StepType, now: Time): (s: Step)
    ensures s.stepType == t && s.stepLabel == [] && s.script == [] && s.usedContextVariableNames == []
    ensures s.timeOfLastModification == now && s.timeOfLastExecution == 0
    ensures s.timeout == Default() && s.indentationLevel == 0 && !s.isRunning && !s.isDisabled
  {
    Step([], [], [], now, 0, Default(), t, 0, false, false)
  }

  /** `set_disabled`: the flag and the modification time change only when
      the flag actually flips. */
  function SetDisabled(s: Step, disable: bool, now: Time): (r: Step)
    ensures r.isDisabled == disable
    ensures s.isDisabled == disable ==> r == s
    ensures s.isDisabled != disable ==> r == s.(isDisabled := disable, timeOfLastModification := now)
  {
    if s.isDisabled != disable then s.(isDisabled := disable, timeOfLastModification := now) else s
  }

  /** Setting the flag a second time is a no-op, whatever the clock says. */
  lemma SetDisabledIdempotent(s: Step, d: bool, t1: Time, t2: Time)
    ensures SetDisabled(SetDisabled(s, d, t1), d, t2) == SetDisabled(s, d, t1)
  {
  }

  /** `set_indentation_level`: a negative level or one above 20 is refused
      with its message and the step is left as it was. */
  function SetIndentationLevel(s: Step, level: Short): (r: Result<Step>)
    ensures r.Success? <==> 0 <= level <= MaxIndentationLevel
    ensures r.Success? ==> r.value == s.(indentationLevel := level)
    ensures level < 0 ==>
              r == Failure("Cannot set negative indentation level (" + SignedDecimal(level) + ")")
    ensures level > MaxIndentationLevel ==>
              r == Failure("Indentation level exceeds maximum (" + Decimal(level) + " > 20)")
  {
    if level < 0 then
      Failure("Cannot set negative indentation level (" + SignedDecimal(level) + ")")
    else if level > MaxIndentationLevel then
      Failure("Indentation level exceeds maximum (" + Decimal(level) + " > 20)")
    else Success(s.(indentationLevel := level))
  }

  /** `set_label`: stores the label without surrounding whitespace. */
  function SetLabel(s: Step, newLabel: Bytes, now: Time): (r: Step)
    ensures r.stepLabel == Trim(newLabel) && r.timeOfLastModification == now
    ensures r.stepLabel == [] || (!IsSpace(r.stepLabel[0]) && !IsSpace(r.stepLabel[|r.stepLabel| - 1]))
    ensures r == s.(stepLabel := r.stepLabel, timeOfLastModification := now)
  {
    TrimIsInfix(newLabel);
    s.(stepLabel := Trim(newLabel), timeOfLastModification := now)
  }

  /** A label read back from a step is stored unchanged. */
  lemma SetLabelOfLabel(s: Step, t: Step, now: Time)
    ensures SetLabel(t, SetLabel(s, s.stepLabel, now).stepLabel, now).stepLabel == SetLabel(s, s.stepLabel, now).stepLabel
  {
    TrimIdempotent(s.stepLabel);
  }

  function SetRunning(s: Step, running: bool): (r: Step)
    ensures r == s.(isRunning := running)
  {
    s.(isRunning := running)
  }

  /** `set_script`: the script is stored as given. */
  function SetScript(s: Step, script: Bytes, now: Time): (r: Step)
    ensures r == s.(script := script, timeOfLastModification := now)
  {
    s.(script := script, timeOfLastModification := now)
  }

  function SetTimeOfLastExecution(s: Step, t: Time): (r: Step)
    ensures r == s.(timeOfLastExecution := t)
  {
    s.(timeOfLastExecution := t)
  }

  function SetTimeOfLastModification(s: Step, t: Time): (r: Step)
    ensures r == s.(timeOfLastModification := t)
  {
    s.(timeOfLastModification := t)
  }

  /** `set_timeout` does not count as a modification. */
  function SetTimeout(s: Step, t: Timeout): (r: Step)
    ensures r == s.(timeout := t)
  {
    s.(timeout := t)
  }

  /** `set_type`: changes the type and the modification time. */
  function SetType(s: Step, t: StepType, now: Time): (r: Step)
    ensures r == s.(stepType := t, timeOfLastModification := now)
  {
    s.(stepType := t, timeOfLastModification := now)
  }

  function SetUsedContextVariableNames(s: Step, names: NameSet): (r: Step)
    ensures r == s.(usedContextVariableNames := names)
  {
    s.(usedContextVariableNames := names)
  }

  /** `to_string(Step::Type)`: the lower-case name of each type. */
  function TypeName(t: StepType): (r: Bytes)
    ensures r != [] && forall i :: 0 <= i < |r| ==> IsLower(r[i])
  {
    match t
    case Action => "action"
    case If => "if"
    case Else => "else"
    case ElseIf => "elseif"
    case End => "end"
    case While => "while"
    case Try => "try"
    case Catch => "catch"
  }

  /** Different types have different names. */
  lemma TypeNameInjective(a: StepType, b: StepType)
    ensures TypeName(a) == TypeName(b) <==> a == b
  {
  }

  /** Steps that open or continue a conditional block: their script must
      return a boolean. */
  predicate RequiresBoolReturnValue(t: StepType)
  {
    match t
    case Action | Catch | Else | End | Try => false
    case ElseIf | If | While => true
  }

  lemma RequiresBoolReturnValueExactly(t: StepType)
    ensures RequiresBoolReturnValue(t) <==> t in {If, ElseIf, While}
  {
  }
}
