/** The reader of a sequence's parameter file (`operator>>` for a Sequence):
    lines naming one of five parameters set that parameter through the
    sequence's own setters, every other line goes to the step setup script.
    Unlike the step reader there is no duplicate check: a later line wins. */
module SequenceReader {
  import opened Wrappers
  import opened Text
  import opened Timeouts
  import Tags
  import Ordering
  import Sequences
  import Deserialize

  const MaintainersPrefix: Bytes := "-- maintainers:"
  const LabelPrefix: Bytes := "-- label:"
  const TimeoutPrefix: Bytes := "-- timeout:"
  const TagsPrefix: Bytes := "-- tags:"
  const AutomationPrefix: Bytes := "-- automation:"

  /** The line sets a parameter: after leading whitespace it starts with one
      of the five prefixes. */
  predicate IsParameterLine(line: Bytes)
  {
    var k := TrimLeft(line);
    StartsWith(k, MaintainersPrefix) || StartsWith(k, LabelPrefix) || StartsWith(k, TimeoutPrefix)
    || StartsWith(k, TagsPrefix) || StartsWith(k, AutomationPrefix)
  }

  /** The reading state: the parameters so far, the script collected so far
      and the exception that stopped the reading, if any. */
  datatype Loaded = Loaded(attrs: Sequences.Attributes, script: Bytes, error: Option<string>)

  /** What a line of the file means: one of the five parameters, with the
      text or parsed value the line passes to its setter, or a line of the
      script. */
  datatype Parameter =
    | Maintainers(text: Bytes)
    | Label(text: Bytes)
    | TimeoutParameter(timeout: Result<Timeout>)
    | TagsParameter(tags: Result<seq<Tags.Tag>>)
    | Automation(automation: bool)
    | ScriptLine

  /** The meaning of a line: the first of the five prefixes it starts with,
      after leading whitespace, picks the parameter, and the text after the
      prefix its value. */
  function Classify(line: Bytes): (r: Parameter)
    ensures r.ScriptLine? <==> !IsParameterLine(line)
  {
    var k := TrimLeft(line);
    if StartsWith(k, MaintainersPrefix) then Maintainers(k[15..])
    else if StartsWith(k, LabelPrefix) then Label(Trim(k[9..]))
    else if StartsWith(k, TimeoutPrefix) then TimeoutParameter(Deserialize.ParseTimeout(k[11..]))
    else if StartsWith(k, TagsPrefix) then TagsParameter(Deserialize.ParseTags(k[8..]))
    else if StartsWith(k, AutomationPrefix) then Automation(Deserialize.ParseAutomation(k[14..]))
    else ScriptLine
  }

  /** The exception setting a parameter throws: control characters in the
      maintainers, a label refused by `set_label`, a timeout or tag list that
      does not parse. */
  function ParameterError(p: Parameter): Option<string>
  {
    match p
    case Maintainers(m) => if HasControl(Trim(m)) then Some(Sequences.ControlCharacterMessage) else None
    case Label(l) => Sequences.LabelError(Trim(l))
    case TimeoutParameter(t) => if t.Failure? then Some(t.error) else None
    case TagsParameter(ts) => if ts.Failure? then Some(ts.error) else None
    case Automation(_) => None
    case ScriptLine => None
  }

  /** The exception a line throws, whatever was read before it. */
  function LineError(line: Bytes): (r: Option<string>)
    ensures !IsParameterLine(line) ==> r.None?
  {
    ParameterError(Classify(line))
  }

  /** The parameters after a setter accepted p (each setter trims its
      text again; the tags are sorted with duplicates removed). */
  function SetAttribute(a: Sequences.Attributes, p: Parameter): Sequences.Attributes
  {
    match p
    case Maintainers(m) => a.(maintainers := Trim(m))
    case Label(l) => a.(seqLabel := Trim(l))
    case TimeoutParameter(t) => if t.Success? then a.(timeout := t.value) else a
    case TagsParameter(ts) =>
      if ts.Success? then
        Tags.KeyInjective();
        a.(tags := Ordering.SortUnique(ts.value, Tags.Key))
      else a
    case Automation(b) => a.(automation := b)
    case ScriptLine => a
  }

  /** One step of the reading loop: a parameter line calls its setter,
      which either throws and changes nothing or stores the value; a script
      line is appended with its '\n'. */
  function Apply(a: Sequences.Attributes, script: Bytes, line: Bytes, p: Parameter): (r: Loaded)
  {
    Loaded(if ParameterError(p).Some? then a else SetAttribute(a, p),
           if p.ScriptLine? then script + line + "\n" else script,
           ParameterError(p))
  }

  /** Setting a parameter throws exactly the parameter's exception, leaves
      the identity, the lock and the stored script alone, and only a script
      line is added to the script. */
  lemma ApplyKeeps(a: Sequences.Attributes, script: Bytes, line: Bytes, p: Parameter)
    ensures Apply(a, script, line, p).error == ParameterError(p)
    ensures Apply(a, script, line, p).attrs.(maintainers := a.maintainers, seqLabel := a.seqLabel,
              timeout := a.timeout, tags := a.tags, automation := a.automation) == a
    ensures Apply(a, script, line, p).script == if p.ScriptLine? then script + line + "\n" else script
    ensures p.ScriptLine? ==> Apply(a, script, line, p).attrs == a
  {
  }

  /** Setting a parameter keeps a valid label and valid tags valid. */
  lemma ApplyKeepsHeaderValid(a: Sequences.Attributes, script: Bytes, line: Bytes, p: Parameter)
    requires Sequences.HeaderValid(a.seqLabel, a.tags)
    ensures Sequences.HeaderValid(Apply(a, script, line, p).attrs.seqLabel, Apply(a, script, line, p).attrs.tags)
  {
  }

  /** The meaning of every line. */
  function Classified(lines: seq<Bytes>): (ps: seq<Parameter>)
    ensures |ps| == |lines|
    ensures forall i :: 0 <= i < |lines| ==> ps[i] == Classify(lines[i])
  {
    seq(|lines|, i requires 0 <= i < |lines| => Classify(lines[i]))
  }

  /** The reading loop over lines whose meanings are ps: the first
      exception stops the loop and keeps what the lines before it set. */
  function Run(a: Sequences.Attributes, lines: seq<Bytes>, ps: seq<Parameter>): Loaded
    requires |ps| == |lines|
  {
    if lines == [] then Loaded(a, [], None)
    else
      var ld := Run(a, lines[..|lines| - 1], ps[..|ps| - 1]);
      if ld.error.Some? then ld else Apply(ld.attrs, ld.script, lines[|lines| - 1], ps[|ps| - 1])
  }

  /** The reading state after the given lines. */
  function ReadLines(a: Sequences.Attributes, lines: seq<Bytes>): Loaded
  {
    Run(a, lines, Classified(lines))
  }

  /** The parameters after reading text into a sequence with parameters a,
      and the exception the reading threw.  The script is stored last, by
      `set_step_setup_script`, which throws while the sequence runs. */
  function ReadSequenceText(a: Sequences.Attributes, text: Bytes): (Sequences.Attributes, Option<string>)
  {
    var ld := ReadLines(a, Deserialize.Lines(text));
    if ld.error.Some? then (ld.attrs, ld.error)
    else if a.isRunning then (ld.attrs, Some(Sequences.RunningMessage))
    else (ld.attrs.(stepSetupScript := TrimRight(ld.script)), None)
  }

  /** The lines that are not parameter lines, in order. */
  function ScriptLines(lines: seq<Bytes>): (r: seq<Bytes>)
    ensures |r| <= |lines|
  {
    if lines == [] then []
    else
      var l := lines[|lines| - 1];
      ScriptLines(lines[..|lines| - 1]) + (if IsParameterLine(l) then [] else [l])
  }

  /** The meanings of a prefix of the lines are a prefix of their meanings. */
  lemma ClassifiedPrefix(lines: seq<Bytes>, n: nat)
    requires n <= |lines|
    ensures Classified(lines)[..n] == Classified(lines[..n])
  {
  }

  /** Reading stops with an exception exactly when some line throws one, and
      then it is the first such line's exception. */
  lemma {:induction false} RunError(a: Sequences.Attributes, lines: seq<Bytes>, ps: seq<Parameter>)
    requires |ps| == |lines|
    ensures Run(a, lines, ps).error.None? <==> forall i :: 0 <= i < |ps| ==> ParameterError(ps[i]).None?
    ensures Run(a, lines, ps).error.Some? ==>
              exists i :: 0 <= i < |ps| && Run(a, lines, ps).error == ParameterError(ps[i]) &&
                          forall j :: 0 <= j < i ==> ParameterError(ps[j]).None?
  {
    if lines != [] {
      var p, q := lines[..|lines| - 1], ps[..|ps| - 1];
      RunError(a, p, q);
      RunLastError(a, lines, ps);
      var e := Run(a, p, q).error;
      assert forall i :: 0 <= i < |q| ==> q[i] == ps[i];
      if e.Some? {
        var i :| 0 <= i < |q| && e == ParameterError(q[i]) &&
                 forall j :: 0 <= j < i ==> ParameterError(q[j]).None?;
        assert Run(a, lines, ps).error == ParameterError(ps[i]);
      } else if ParameterError(ps[|q|]).Some? {
        assert Run(a, lines, ps).error == ParameterError(ps[|q|]);
      }
    }
  }

  /** The error after one more line: the earlier error if there was one,
      otherwise the error of the new line. */
  lemma RunLastError(a: Sequences.Attributes, lines: seq<Bytes>, ps: seq<Parameter>)
    requires |ps| == |lines| && lines != []
    ensures var e := Run(a, lines[..|lines| - 1], ps[..|ps| - 1]).error;
      Run(a, lines, ps).error == if e.Some? then e else ParameterError(ps[|ps| - 1])
  {
    var ld := Run(a, lines[..|lines| - 1], ps[..|ps| - 1]);
    ApplyKeeps(ld.attrs, ld.script, lines[|lines| - 1], ps[|ps| - 1]);
  }

  /** Reading throws exactly when some line throws, and then the first such
      line's exception. */
  lemma ReadLinesError(a: Sequences.Attributes, lines: seq<Bytes>)
    ensures ReadLines(a, lines).error.None? <==> forall i :: 0 <= i < |lines| ==> LineError(lines[i]).None?
    ensures ReadLines(a, lines).error.Some? ==>
              exists i :: 0 <= i < |lines| && ReadLines(a, lines).error == LineError(lines[i]) &&
                          forall j :: 0 <= j < i ==> LineError(lines[j]).None?
  {
    RunError(a, lines, Classified(lines));
  }

  /** However far the reading gets, the parameters the lines do not name
      are those of the sequence read into. */
  lemma {:induction false} RunKeeps(a: Sequences.Attributes, lines: seq<Bytes>, ps: seq<Parameter>)
    requires |ps| == |lines|
    ensures Run(a, lines, ps).attrs.uniqueId == a.uniqueId && Run(a, lines, ps).attrs.name == a.name
    ensures Run(a, lines, ps).attrs.isRunning == a.isRunning
    ensures Run(a, lines, ps).attrs.stepSetupScript == a.stepSetupScript
  {
    if lines != [] {
      var p, q := lines[..|lines| - 1], ps[..|ps| - 1];
      RunKeeps(a, p, q);
      var ld := Run(a, p, q);
      ApplyKeeps(ld.attrs, ld.script, lines[|lines| - 1], ps[|ps| - 1]);
    }
  }

  /** A sequence whose label and tags are valid keeps them valid, however
      far the reading gets. */
  lemma {:induction false} RunKeepsHeaderValid(a: Sequences.Attributes, lines: seq<Bytes>, ps: seq<Parameter>)
    requires |ps| == |lines|
    requires Sequences.HeaderValid(a.seqLabel, a.tags)
    ensures Sequences.HeaderValid(Run(a, lines, ps).attrs.seqLabel, Run(a, lines, ps).attrs.tags)
  {
    if lines != [] {
      var p, q := lines[..|lines| - 1], ps[..|ps| - 1];
      RunKeepsHeaderValid(a, p, q);
      var ld := Run(a, p, q);
      ApplyKeepsHeaderValid(ld.attrs, ld.script, lines[|lines| - 1], ps[|ps| - 1]);
    }
  }

  /** The lines whose meaning is a script line, in order. */
  function Kept(lines: seq<Bytes>, ps: seq<Parameter>): (r: seq<Bytes>)
    requires |ps| == |lines|
  {
    if lines == [] then []
    else Kept(lines[..|lines| - 1], ps[..|ps| - 1]) + (if ps[|ps| - 1].ScriptLine? then [lines[|lines| - 1]] else [])
  }

  /** Without an exception the loop's script holds exactly the script
      lines, each followed by '\n'. */
  lemma {:induction false} RunScript(a: Sequences.Attributes, lines: seq<Bytes>, ps: seq<Parameter>)
    requires |ps| == |lines|
    requires Run(a, lines, ps).error.None?
    ensures Run(a, lines, ps).script == Deserialize.Unlines(Kept(lines, ps))
  {
    if lines != [] {
      var p, l, q := lines[..|lines| - 1], lines[|lines| - 1], ps[..|ps| - 1];
      var ld := Run(a, p, q);
      assert ld.error.None?;
      RunScript(a, p, q);
      assert Run(a, lines, ps).script == Apply(ld.attrs, ld.script, l, ps[|ps| - 1]).script;
      if ps[|ps| - 1].ScriptLine? {
        Deserialize.UnlinesSnoc(Kept(p, q), l);
        assert Kept(lines, ps) == Kept(p, q) + [l];
      } else {
        assert Kept(lines, ps) == Kept(p, q);
      }
    }
  }

  /** The script lines by meaning are the lines that are not parameter
      lines. */
  lemma {:induction false} KeptScriptLines(lines: seq<Bytes>)
    ensures Kept(lines, Classified(lines)) == ScriptLines(lines)
  {
    if lines != [] {
      var p := lines[..|lines| - 1];
      ClassifiedPrefix(lines, |p|);
      KeptScriptLines(p);
    }
  }

  /** Without an exception the script holds exactly the lines that are not
      parameter lines, each followed by '\n'. */
  lemma ReadLinesScript(a: Sequences.Attributes, lines: seq<Bytes>)
    requires ReadLines(a, lines).error.None?
    ensures ReadLines(a, lines).script == Deserialize.Unlines(ScriptLines(lines))
  {
    RunScript(a, lines, Classified(lines));
    KeptScriptLines(lines);
  }

  /** Reading leaves the identity and the lock of the sequence alone, and
      keeps a valid label and valid tags valid. */
  lemma ReadSequenceKeeps(a: Sequences.Attributes, text: Bytes)
    ensures ReadSequenceText(a, text).0.uniqueId == a.uniqueId && ReadSequenceText(a, text).0.name == a.name
    ensures ReadSequenceText(a, text).0.isRunning == a.isRunning
    ensures Sequences.HeaderValid(a.seqLabel, a.tags) ==>
              Sequences.HeaderValid(ReadSequenceText(a, text).0.seqLabel, ReadSequenceText(a, text).0.tags)
  {
    var ls := Deserialize.Lines(text);
    RunKeeps(a, ls, Classified(ls));
    if Sequences.HeaderValid(a.seqLabel, a.tags) {
      RunKeepsHeaderValid(a, ls, Classified(ls));
    }
  }

  /** Without an exception the stored script is the non-parameter lines of
      the file, each with its '\n', with trailing whitespace removed. */
  lemma ReadSequenceScript(a: Sequences.Attributes, text: Bytes)
    requires ReadSequenceText(a, text).1.None?
    ensures !a.isRunning
    ensures ReadSequenceText(a, text).0.stepSetupScript ==
              TrimRight(Deserialize.Unlines(ScriptLines(Deserialize.Lines(text))))
  {
    ReadLinesScript(a, Deserialize.Lines(text));
  }

  /** A sequence read while it runs keeps its script and reports an
      exception: the running lock, unless a parameter line threw first. */
  lemma RunningKeepsScript(a: Sequences.Attributes, text: Bytes)
    requires a.isRunning
    ensures ReadSequenceText(a, text).0.stepSetupScript == a.stepSetupScript
    ensures ReadSequenceText(a, text).1.Some?
  {
    var ls := Deserialize.Lines(text);
    RunKeeps(a, ls, Classified(ls));
  }

  /** The loop over two lines is the second step after the first. */
  lemma RunTwo(a: Sequences.Attributes, l1: Bytes, l2: Bytes, p1: Parameter, p2: Parameter)
    ensures Run(a, [l1, l2], [p1, p2]) ==
              var ld := Apply(a, [], l1, p1);
              if ld.error.Some? then ld else Apply(ld.attrs, ld.script, l2, p2)
  {
    assert [l1, l2][..1] == [l1] && [p1, p2][..1] == [p1];
    assert [l1][..0] == [] && [p1][..0] == [];
    assert Run(a, [l1], [p1]) == Apply(a, [], l1, p1);
  }

  /** There is no duplicate check: of two accepted label lines, the later
      one sets the label. */
  lemma LaterLabelWins(a: Sequences.Attributes, l1: Bytes, l2: Bytes)
    requires Classify(l1).Label? && Classify(l2).Label?
    requires LineError(l1).None? && LineError(l2).None?
    ensures ReadLines(a, [l1, l2]).error.None?
    ensures ReadLines(a, [l1, l2]).attrs.seqLabel == Trim(Classify(l2).text)
  {
    var p1, p2 := Classify(l1), Classify(l2);
    assert Classified([l1, l2]) == [p1, p2];
    RunTwo(a, l1, l2, p1, p2);
  }

  /** Once a prefix of the lines throws, the whole loop throws the same. */
  lemma {:induction false} RunStops(a: Sequences.Attributes, lines: seq<Bytes>, ps: seq<Parameter>, n: nat)
    requires |ps| == |lines| && n <= |lines|
    requires Run(a, lines[..n], ps[..n]).error.Some?
    ensures Run(a, lines, ps) == Run(a, lines[..n], ps[..n])
    decreases |lines| - n
  {
    if n < |lines| {
      assert lines[..n + 1][..n] == lines[..n];
      assert ps[..n + 1][..n] == ps[..n];
      RunStops(a, lines, ps, n + 1);
    } else {
      assert lines[..n] == lines;
      assert ps[..n] == ps;
    }
  }

  /** Calls the setter a parameter line names, or throws the parser's
      exception. */
  method SetParameter(sq: Sequences.Sequence, p: Parameter, ghost script: Bytes, ghost line: Bytes)
    returns (err: Option<string>)
    requires !p.ScriptLine?
    modifies sq
    ensures Loaded(sq.GetAttributes(), script, err) == Apply(old(sq.GetAttributes()), script, line, p)
    ensures sq.steps == old(sq.steps) && sq.error == old(sq.error)
    ensures sq.indentationError == old(sq.indentationError)
  {
    match p
    case Maintainers(m) =>
      err := sq.SetMaintainers(m);
    case Label(l) =>
      err := sq.SetLabel(l);
    case TimeoutParameter(t) =>
      if t.Failure? {
        err := Some(t.error);
      } else {
        err := None;
        sq.SetTimeout(t.value);
      }
    case TagsParameter(ts) =>
      if ts.Failure? {
        err := Some(ts.error);
      } else {
        err := None;
        sq.SetTags(ts.value);
      }
    case Automation(b) =>
      err := None;
      sq.SetAutomation(b);
  }

  /** The body of the reading loop, for a line with meaning p: a parameter
      line calls its setter, any other line is added to the script. */
  method ReadLineInto(sq: Sequences.Sequence, line: Bytes, p: Parameter, script0: Bytes)
    returns (script: Bytes, err: Option<string>)
    modifies sq
    ensures Loaded(sq.GetAttributes(), script, err) == Apply(old(sq.GetAttributes()), script0, line, p)
    ensures sq.steps == old(sq.steps) && sq.error == old(sq.error)
    ensures sq.indentationError == old(sq.indentationError)
  {
    if p.ScriptLine? {
      err := None;
      script := script0 + line + "\n";
    } else {
      script := script0;
      err := SetParameter(sq, p, script0, line);
    }
  }

  /** `operator>>(std::istream&, Sequence&)`: the loop over the lines of the
      file, calling the sequence's setters; an exception leaves the
      parameters set so far in place.  The script is stored last. */
  method ReadSequence(sq: Sequences.Sequence, text: Bytes) returns (err: Option<string>)
    modifies sq
    ensures (sq.GetAttributes(), err) == ReadSequenceText(old(sq.GetAttributes()), text)
    ensures sq.steps == old(sq.steps) && sq.error == old(sq.error)
    ensures sq.indentationError == old(sq.indentationError)
    ensures old(sq.Valid()) ==> sq.Valid()
  {
    var a0 := sq.GetAttributes();
    ReadSequenceKeeps(a0, text);
    var lines := Deserialize.Lines(text);
    var script;
    script, err := ReadLinesInto(sq, lines, Classified(lines));
    if err.None? {
      RunKeeps(a0, lines, Classified(lines));
      err := sq.SetStepSetupScript(script);
    }
  }

  /** The loop of `operator>>` itself, over lines with meanings ps: the
      parameter lines are passed to the setters and the others collected in
      the script, up to the first exception. */
  method ReadLinesInto(sq: Sequences.Sequence, lines: seq<Bytes>, ps: seq<Parameter>)
    returns (script: Bytes, err: Option<string>)
    requires |ps| == |lines|
    modifies sq
    ensures Loaded(sq.GetAttributes(), script, err) == Run(old(sq.GetAttributes()), lines, ps)
    ensures sq.steps == old(sq.steps) && sq.error == old(sq.error)
    ensures sq.indentationError == old(sq.indentationError)
  {
    ghost var a0 := sq.GetAttributes();
    script, err := [], None;
    var i := 0;
    while i < |lines|
      invariant 0 <= i <= |lines| && err.None?
      invariant Run(a0, lines[..i], ps[..i]) == Loaded(sq.GetAttributes(), script, None)
      invariant sq.steps == old(sq.steps) && sq.error == old(sq.error)
      invariant sq.indentationError == old(sq.indentationError)
    {
      assert lines[..i + 1][..i] == lines[..i];
      assert ps[..i + 1][..i] == ps[..i];
      script, err := ReadLineInto(sq, lines[i], ps[i], script);
      if err.Some? {
        RunStops(a0, lines, ps, i + 1);
        return;
      }
      i := i + 1;
    }
    assert lines[..i] == lines;
    assert ps[..i] == ps;
  }
}
