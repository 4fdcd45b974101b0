/** The reader of taskolib's Lua-comment file format: a step file starts with
    header lines "-- keyword: value", then holds the step's script; the
    sequence file holds the sequence's parameters the same way.  The parsing
    helpers are functions; the two readers loop over the lines. */
module Deserialize {
  import opened Wrappers
  import opened Text
  import opened Ordering
  import opened HashString
  import opened KeywordHashes
  import opened Timeouts
  import opened Steps
  import VariableNames
  import Tags

  // ----------------------------------------------------------------------
  // Lines

  /** The lines std::getline reads from text: the text is cut at every '\n',
      and a final '\n' ends the last line rather than starting an empty one. */
  function Lines(text: Bytes): (r: seq<Bytes>)
    ensures forall k :: 0 <= k < |r| ==> '\n' !in r[k]
    ensures text == [] <==> r == []
    decreases |text|
  {
    if text == [] then []
    else match Find(text, "\n")
      case None =>
        assert '\n' !in text by {
          forall j | 0 <= j < |text| ensures text[j] != '\n' { assert !OccursAt(text, "\n", j); }
        }
        [text]
      case Some(k) =>
        assert '\n' !in text[..k] by {
          forall j | 0 <= j < k ensures text[..k][j] != '\n' { assert !OccursAt(text, "\n", j); }
        }
        [text[..k]] + Lines(text[k + 1..])
  }

  /** The text made of the given lines, each followed by '\n'. */
  function Unlines(ls: seq<Bytes>): Bytes
  {
    if ls == [] then [] else ls[0] + "\n" + Unlines(ls[1..])
  }

  lemma UnlinesSnoc(ls: seq<Bytes>, l: Bytes)
    ensures Unlines(ls + [l]) == Unlines(ls) + l + "\n"
  {
    if ls != [] {
      assert (ls + [l])[1..] == ls[1..] + [l];
      UnlinesSnoc(ls[1..], l);
    } else {
      assert ls + [l] == [l];
    }
  }

  /** Reading back the lines of a text written line by line gives the lines. */
  lemma {:induction false} LinesOfUnlines(ls: seq<Bytes>)
    requires forall k :: 0 <= k < |ls| ==> '\n' !in ls[k]
    ensures Lines(Unlines(ls)) == ls
  {
    if ls != [] {
      var l := ls[0];
      var text := Unlines(ls);
      assert text == l + "\n" + Unlines(ls[1..]);
      assert OccursAt(text, "\n", |l|) by { assert text[|l|..|l| + 1] == "\n"; }
      forall j | 0 <= j < |l| ensures !OccursAt(text, "\n", j) {
        assert text[j..j + 1] == [l[j]];
      }
      assert Find(text, "\n") == Some(|l|);
      assert text[..|l|] == l;
      assert text[|l| + 1..] == Unlines(ls[1..]);
      LinesOfUnlines(ls[1..]);
    }
  }

  /** A line without '\n' followed by '\n' is the first line of the text. */
  lemma LinesCons(l: Bytes, tail: Bytes)
    requires '\n' !in l
    ensures Lines(l + "\n" + tail) == [l] + Lines(tail)
  {
    var text := l + "\n" + tail;
    assert OccursAt(text, "\n", |l|) by { assert text[|l|..|l| + 1] == "\n"; }
    forall j | 0 <= j < |l| ensures !OccursAt(text, "\n", j) {
      assert text[j..j + 1] == [l[j]];
    }
    assert Find(text, "\n") == Some(|l|);
    assert text[..|l|] == l;
    assert text[|l| + 1..] == tail;
  }

  /** Lines written one by one and followed by more text are found again,
      followed by the lines of that text. */
  lemma {:induction false} LinesAppendUnlines(ls: seq<Bytes>, rest: Bytes)
    requires forall k :: 0 <= k < |ls| ==> '\n' !in ls[k]
    ensures Lines(Unlines(ls) + rest) == ls + Lines(rest)
  {
    if ls == [] {
      assert Unlines(ls) + rest == rest;
    } else {
      var tail := Unlines(ls[1..]) + rest;
      calc {
        Lines(Unlines(ls) + rest);
        { assert Unlines(ls) + rest == ls[0] + "\n" + tail; }
        Lines(ls[0] + "\n" + tail);
        { LinesCons(ls[0], tail); }
        [ls[0]] + Lines(tail);
        { LinesAppendUnlines(ls[1..], rest); }
        [ls[0]] + (ls[1..] + Lines(rest));
        { assert ls == [ls[0]] + ls[1..]; }
        ls + Lines(rest);
      }
    }
  }

  /** A text that is empty or ends with '\n' is exactly its lines, each
      followed by '\n'. */
  lemma {:induction false} UnlinesOfLines(text: Bytes)
    requires text == [] || text[|text| - 1] == '\n'
    ensures Unlines(Lines(text)) == text
    decreases |text|
  {
    if text != [] {
      var k := FirstLineBreak(text);
      var rest := text[k + 1..];
      calc {
        Unlines(Lines(text));
        Unlines([text[..k]] + Lines(rest));
        text[..k] + "\n" + Unlines(Lines(rest));
        { UnlinesOfLines(rest); }
        text[..k] + "\n" + rest;
        text;
      }
    }
  }

  /** A text ended by '\n' splits at its first '\n' into the first line and
      a rest that is again empty or ended by '\n'. */
  lemma FirstLineBreak(text: Bytes) returns (k: nat)
    requires text != [] && text[|text| - 1] == '\n'
    ensures k < |text| && Find(text, "\n") == Some(k)
    ensures Lines(text) == [text[..k]] + Lines(text[k + 1..])
    ensures text == text[..k] + "\n" + text[k + 1..]
    ensures text[k + 1..] == [] || text[|text| - 1] == '\n'
  {
    assert OccursAt(text, "\n", |text| - 1) by { assert text[|text| - 1..] == "\n"; }
    k := Find(text, "\n").value;
    assert text[k..k + 1] == "\n";
    assert text == text[..k] + text[k..k + 1] + text[k + 1..];
  }

  // ----------------------------------------------------------------------
  // Keywords

  /** `extract_keyword`: when the left-trimmed line starts with "-- " and
      contains a ':', the trimmed text between the two and the rest after
      the first ':'; otherwise no keyword and the whole line. */
  function ExtractKeyword(line: Bytes): (r: (Bytes, Bytes))
    ensures !StartsWith(TrimLeft(line), "-- ") || !Contains(TrimLeft(line), ":") ==> r == ([], line)
    ensures r.0 == [] || (!IsSpace(r.0[0]) && !IsSpace(r.0[|r.0| - 1]))
  {
    var t := TrimLeft(line);
    if !StartsWith(t, "-- ") then ([], line)
    else match Find(t, ":")
      case None => ([], line)
      case Some(f) =>
        assert f >= 3 by {
          assert t[f..f + 1] == ":";
          assert t[..3] == "-- ";
        }
        TrimIsInfix(t[3..f]);
        (Trim(t[3..f]), t[f + 1..])
  }

  /** A header line as the writer produces it splits into its keyword and the
      text after the colon. */
  lemma {:induction false} KeywordOfHeaderLine(k: Bytes, rest: Bytes)
    requires k != [] && !IsSpace(k[0]) && !IsSpace(k[|k| - 1]) && ':' !in k
    ensures ExtractKeyword("-- " + k + ":" + rest) == (k, rest)
  {
    var line := "-- " + k + ":" + rest;
    assert LeadingSpaces(line) == 0;
    assert TrimLeft(line) == line;
    assert line[..3] == "-- ";
    var f := 3 + |k|;
    assert OccursAt(line, ":", f) by { assert line[f..f + 1] == ":"; }
    forall j | 0 <= j < f ensures !OccursAt(line, ":", j) {
      assert line[j..j + 1] == [line[j]];
      if j >= 3 { assert line[j] == k[j - 3]; }
    }
    assert Find(line, ":") == Some(f);
    assert line[3..f] == k;
    TrimOfUnpadded(k);
    assert line[f + 1..] == rest;
  }

  /** A comment line of the script has no keyword. */
  lemma CommentExample()
    ensures ExtractKeyword(" -- Comment") == ([], " -- Comment")
  {
    var l: Bytes := " -- Comment";
    assert LeadingSpaces(l) == 1 by { assert l[1..] == "-- Comment"; }
    var t := TrimLeft(l);
    assert t == "-- Comment";
    assert !Contains(t, ":") by {
      forall j | 0 <= j <= |t| - 1 ensures !OccursAt(t, ":", j) { assert t[j..j + 1] == [t[j]]; }
    }
  }

  /** A line that carries nothing before the script: no keyword and nothing
      but whitespace. */
  predicate IsBlank(line: Bytes)
  {
    var (kw, rest) := ExtractKeyword(line);
    kw == [] && Trim(rest) == []
  }

  // ----------------------------------------------------------------------
  // The header fields of a step

  /** The type the switch in `extract_type` selects for a hash, trying its
      cases in the source's order. */
  function TypeOfHash(h: bv64): (r: Option<StepType>)
    ensures r.Some? <==> h in TypeShs
    ensures r.Some? ==> Djb2a(TypeName(r.value)) == h
  {
    if h == ActionSh then ActionHash(); Some(Action)
    else if h == IfSh then IfHash(); Some(If)
    else if h == ElseifSh then ElseifHash(); Some(ElseIf)
    else if h == ElseSh then ElseHash(); Some(Else)
    else if h == WhileSh then WhileHash(); Some(While)
    else if h == TrySh then TryHash(); Some(Try)
    else if h == CatchSh then CatchHash(); Some(Catch)
    else if h == EndSh then EndHash(); Some(End)
    else None
  }

  /** Every type name selects its own type: the eight hashes differ. */
  lemma TypeOfTypeName(t: StepType)
    ensures TypeOfHash(Djb2a(TypeName(t))) == Some(t)
  {
    var h := Djb2a(TypeName(t));
    match t
    case Action => assert h == ActionSh by { ActionHash(); }
    case If => assert h == IfSh by { IfHash(); }
    case ElseIf => assert h == ElseifSh by { ElseifHash(); }
    case Else => assert h == ElseSh by { ElseHash(); }
    case While => assert h == WhileSh by { WhileHash(); }
    case Try => assert h == TrySh by { TryHash(); }
    case Catch => assert h == CatchSh by { CatchHash(); }
    case End => assert h == EndSh by { EndHash(); }
  }

  /** `extract_type`: the trimmed word selects the type by its hash; a word
      whose hash is not one of the eight fails with the word in the message. */
  function ExtractType(extract: Bytes, step: Step, now: Time): (r: Result<Step>)
    ensures r.Success? <==> Djb2a(Trim(extract)) in TypeShs
    ensures r.Success? ==> r.value == SetType(step, r.value.stepType, now)
    ensures r.Success? ==> Djb2a(TypeName(r.value.stepType)) == Djb2a(Trim(extract))
    ensures r.Failure? ==> r.error == "type: unable to parse ('" + Trim(extract) + "')"
  {
    var keyword := Trim(extract);
    match TypeOfHash(Djb2a(keyword))
    case Some(t) => Success(SetType(step, t, now))
    case None => Failure("type: unable to parse ('" + keyword + "')")
  }

  /** Reading a type name, with any whitespace around it, sets that type. */
  lemma ExtractTypeOfName(extract: Bytes, t: StepType, step: Step, now: Time)
    requires Trim(extract) == TypeName(t)
    ensures ExtractType(extract, step, now) == Success(SetType(step, t, now))
  {
    TypeOfTypeName(t);
  }

  lemma LooHash()
    ensures Djb2a("loo") == 0xb873f29
  {
    KeywordHashes.ByteCodes1('l'); HashSnoc("", 'l');
    assert "" + ['l'] == "l";
    KeywordHashes.ByteCodes2('o'); HashSnoc("l", 'o');
    assert "l" + ['o'] == "lo";
    HashSnoc("lo", 'o');
    assert "lo" + ['o'] == "loo";
  }

  /** A word that is no type name, and whose hash is none of theirs, is
      refused with the word in the message. */
  lemma UnknownTypeExample(step: Step, now: Time)
    ensures ExtractType(" loop", step, now) == Failure("type: unable to parse ('loop')")
  {
    LoopTrimmed();
    LoopHashed();
  }

  lemma LoopTrimmed()
    ensures Trim(" loop") == "loop"
  {
    var x: Bytes := " loop";
    assert TrailingSpaces(x) == 0;
    assert LeadingSpaces(x) == 1 by { assert x[1..] == "loop"; }
  }

  lemma LoopHashed()
    ensures Djb2a("loop") == 0x17c6f2439
  {
    LooHash();
    KeywordHashes.ByteCodes2('p'); HashSnoc("loo", 'p');
    assert "loo" + ['p'] == "loop";
  }

  /** `extract_label`: the trimmed text is unescaped and stored as the label
      (which `set_label` trims once more). */
  function ExtractLabel(extract: Bytes, step: Step, now: Time): (r: Step)
    ensures r.stepLabel == Trim(Unescape(Trim(extract)))
    ensures r == step.(stepLabel := r.stepLabel, timeOfLastModification := now)
  {
    SetLabel(step, Unescape(Trim(extract)), now)
  }

  const NoLeadingBracket: string := "context variable names: cannot find leading '['"
  const NoTrailingBracket: string := "context variable names: cannot find trailing ']'"

  /** The names of the entries of a list, each entry trimmed and the empty
      ones dropped, inserted one by one into the set acc; the first entry
      that is no valid name fails with its message. */
  function CollectNames(entries: seq<Bytes>, acc: NameSet): (r: Result<NameSet>)
    ensures r.Success? <==> EntriesValid(entries)
    ensures r.Success? ==> forall n :: n in r.value <==> (n in acc || NamedBy(entries, n))
    decreases |entries|
  {
    if entries == [] then Success(acc)
    else
      var v := Trim(entries[0]);
      EntriesTail(entries);
      if v == [] then
        CollectNames(entries[1..], acc)
      else match VariableNames.FromString(v)
        case Failure(e) => Failure(e)
        case Success(name) =>
          VariableNames.KeyInjective();
          CollectNames(entries[1..], Ordering.Insert(acc, name, VariableNames.Key))
  }

  /** A list is valid and names n exactly when its first entry and the rest do. */
  lemma EntriesTail(entries: seq<Bytes>)
    requires entries != []
    ensures EntriesValid(entries) <==>
      ((Trim(entries[0]) == [] || VariableNames.IsValidName(Trim(entries[0]))) && EntriesValid(entries[1..]))
    ensures forall n :: NamedBy(entries, n) <==> (Trim(entries[0]) == n.name || NamedBy(entries[1..], n))
  {
    assert forall k :: 1 <= k < |entries| ==> entries[k] == entries[1..][k - 1];
    forall n | NamedBy(entries, n) && Trim(entries[0]) != n.name
      ensures NamedBy(entries[1..], n)
    {
      var k :| 0 <= k < |entries| && Trim(entries[k]) == n.name;
      assert entries[1..][k - 1] == entries[k];
    }
  }

  /** The text of a bracketed list holds a '[' first and a ']' later. */
  predicate IsBracketed(extract: Bytes)
  {
    StartsWith(Trim(extract), "[") && Contains(Trim(extract)[1..], "]")
  }

  /** The entries of a bracketed list: the text between the leading '[' and
      the first ']' after it, cut at the commas. */
  function ListEntries(extract: Bytes): (es: seq<Bytes>)
    requires IsBracketed(extract)
    ensures |es| >= 1
  {
    var inner := Trim(extract)[1..];
    Split(inner[..Find(inner, "]").value], ",")
  }

  /** Some entry of the list is not blank. */
  predicate HasEntry(es: seq<Bytes>)
  {
    exists k :: 0 <= k < |es| && Trim(es[k]) != []
  }

  /** `extract_context_variable_names`: the trimmed text must start with '['
      and contain a ']'; what lies between is split at the commas, each entry
      is trimmed and the non-empty ones become the step's variable names.  An
      empty list leaves the step's names as they were. */
  function ExtractContextVariableNames(extract: Bytes, step: Step): (r: Result<Step>)
    ensures r.Success? ==> r.value == step.(usedContextVariableNames := r.value.usedContextVariableNames)
    ensures !StartsWith(Trim(extract), "[") ==> r == Failure(NoLeadingBracket)
    ensures StartsWith(Trim(extract), "[") && !Contains(Trim(extract)[1..], "]") ==>
              r == Failure(NoTrailingBracket)
    ensures IsBracketed(extract) ==>
      (r.Success? <==> EntriesValid(ListEntries(extract)))
    ensures r.Success? ==> IsBracketed(extract)
    ensures r.Success? && HasEntry(ListEntries(extract)) ==>
      forall n :: n in r.value.usedContextVariableNames <==> NamedBy(ListEntries(extract), n)
    ensures r.Success? && !HasEntry(ListEntries(extract)) ==>
      r.value.usedContextVariableNames == step.usedContextVariableNames
  {
    var e := Trim(extract);
    if !StartsWith(e, "[") then Failure(NoLeadingBracket)
    else
      var inner := e[1..];
      match Find(inner, "]")
      case None => Failure(NoTrailingBracket)
      case Some(end) =>
        var entries := Split(inner[..end], ",");
        assert entries == ListEntries(extract);
        match CollectNames(entries, [])
        case Failure(msg) => Failure(msg)
        case Success(names) =>
          CollectedNames(entries, names);
          if names == [] then Success(step) else Success(SetUsedContextVariableNames(step, names))
  }

  /** Every non-blank entry, trimmed, is a valid variable name. */
  predicate EntriesValid(es: seq<Bytes>)
  {
    forall k :: 0 <= k < |es| && Trim(es[k]) != [] ==> VariableNames.IsValidName(Trim(es[k]))
  }

  /** The name n is some entry, trimmed. */
  predicate NamedBy(es: seq<Bytes>, n: VariableNames.VariableName)
  {
    exists k :: 0 <= k < |es| && Trim(es[k]) == n.name
  }

  /** The names collected from a list are empty exactly when every entry is
      blank, and they are the trimmed entries. */
  lemma CollectedNames(entries: seq<Bytes>, names: NameSet)
    requires CollectNames(entries, []) == Success(names)
    ensures EntriesValid(entries)
    ensures forall n :: n in names <==> NamedBy(entries, n)
    ensures names == [] <==> !HasEntry(entries)
  {
    CollectedNamesEmpty(entries, names);
  }

  lemma CollectedNamesEmpty(entries: seq<Bytes>, names: NameSet)
    requires EntriesValid(entries)
    requires forall n :: n in names <==> NamedBy(entries, n)
    ensures names == [] <==> !HasEntry(entries)
  {
    if HasEntry(entries) {
      var k :| 0 <= k < |entries| && Trim(entries[k]) != [];
      var n := VariableNames.VariableName(Trim(entries[k]));
      assert NamedBy(entries, n);
    }
    if names != [] {
      assert NamedBy(entries, names[0]);
    }
  }

  /** `extract_time`: the time the calendar parser reads from the text, or
      an error naming the field. */
  function ExtractTime(issue: string, extract: Bytes, parseTime: Bytes -> Option<Time>): (r: Result<Time>)
    ensures r.Success? <==> parseTime(extract).Some?
    ensures r.Success? ==> r.value == parseTime(extract).value
    ensures r.Failure? ==> r.error == issue + ": unable to parse time ('" + extract + "')"
  {
    match parseTime(extract)
    case None => Failure(issue + ": unable to parse time ('" + extract + "')")
    case Some(t) => Success(t)
  }

  /** Whitespace as a stream in the C locale skips it: space, \t, \n, \v, \f
      and \r (not \a or \b). */
  predicate IsStreamSpace(c: char)
  {
    c == ' ' || 9 <= c as int <= 13
  }

  function SkipStreamSpace(s: Bytes): (r: Bytes)
    ensures r == [] || !IsStreamSpace(r[0])
    ensures |r| <= |s| && r == s[|s| - |r|..]
  {
    if s != [] && IsStreamSpace(s[0]) then SkipStreamSpace(s[1..]) else s
  }

  /** `stream >> std::boolalpha >> val`: after the skipped whitespace the
      text must start with the word "true" or "false". */
  function ReadBoolAlpha(s: Bytes): (r: Option<bool>)
    ensures r == Some(true) <==> StartsWith(SkipStreamSpace(s), "true")
    ensures r == Some(false) <==> StartsWith(SkipStreamSpace(s), "false")
  {
    var t := SkipStreamSpace(s);
    if StartsWith(t, "true") then Some(true)
    else if StartsWith(t, "false") then Some(false)
    else None
  }

  const DisabledMessage: string := "disabled: unknown value, expect true or false"

  /** `extract_disabled`: the flag read by the stream, set with `set_disabled`. */
  function ExtractDisabled(extract: Bytes, step: Step, now: Time): (r: Result<Step>)
    ensures r.Success? <==> ReadBoolAlpha(extract).Some?
    ensures r.Success? ==> r.value == SetDisabled(step, ReadBoolAlpha(extract).value, now)
    ensures r.Failure? ==> r.error == DisabledMessage
  {
    match ReadBoolAlpha(extract)
    case None => Failure(DisabledMessage)
    case Some(d) => Success(SetDisabled(step, d, now))
  }

  /** The words the stream accepts, after whitespace, and one it refuses. */
  lemma DisabledTrueExample(step: Step, now: Time)
    ensures ExtractDisabled(" true", step, now) == Success(SetDisabled(step, true, now))
  {
    assert SkipStreamSpace(" true") == "true" by { assert (" true")[1..] == "true"; }
  }

  lemma DisabledFalseExample(step: Step, now: Time)
    ensures ExtractDisabled(" false", step, now) == Success(SetDisabled(step, false, now))
  {
    assert SkipStreamSpace(" false") == "false" by { assert (" false")[1..] == "false"; }
  }

  lemma DisabledRefusedExample(step: Step, now: Time)
    ensures ExtractDisabled(" yes", step, now) == Failure(DisabledMessage)
  {
    assert SkipStreamSpace(" yes") == "yes" by { assert (" yes")[1..] == "yes"; }
  }

  // ----------------------------------------------------------------------
  // Timeouts, tags and the automation flag

  /** 2^64: the value `unsigned long long` wraps around at. */
  const ULLongLimit: int := 0x1_0000_0000_0000_0000

  /** The conversion of an `unsigned long long` to the signed tick count of
      std::chrono::milliseconds: values above LLONG_MAX wrap to negative. */
  function ToSigned(v: nat): (r: int)
    requires v < ULLongLimit
    ensures v <= LLongMax ==> r == v
    ensures v > LLongMax ==> r < 0
  {
    if v > LLongMax then v - ULLongLimit else v
  }

  /** `parse_timeout`: the trimmed text is "infinite" in any letter case, or
      an unsigned decimal count of milliseconds; every other text fails, and
      a count that fits an unsigned but not a signed 64-bit value becomes
      negative and is refused by the Timeout constructor. */
  function ParseTimeout(str: Bytes): (r: Result<Timeout>)
    ensures EqualsNocase(Trim(str), "infinite") ==> r == Success(Infinity())
    ensures !EqualsNocase(Trim(str), "infinite") && ParseUnsigned(Trim(str), LLongMax).Some? ==>
              r == Success(Timeout(ParseUnsigned(Trim(str), LLongMax).value))
    ensures !EqualsNocase(Trim(str), "infinite") && ParseUnsigned(Trim(str), ULLongLimit - 1).None? ==>
              r == Failure("Cannot parse timeout from \"" + Trim(str) + "\"")
    ensures (!EqualsNocase(Trim(str), "infinite") && ParseUnsigned(Trim(str), LLongMax).None?
             && ParseUnsigned(Trim(str), ULLongLimit - 1).Some?) ==> r == Failure("Negative timeout")
    ensures r.Failure? ==> !EqualsNocase(Trim(str), "infinite") && ParseUnsigned(Trim(str), LLongMax).None?
  {
    var s := Trim(str);
    if EqualsNocase(s, "infinite") then Success(Infinity())
    else match ParseUnsigned(s, ULLongLimit - 1)
      case None => Failure("Cannot parse timeout from \"" + s + "\"")
      case Some(v) => FromDuration(ToSigned(v), 1, 1000)
  }

  /** Texts the test suite checks. */
  lemma EmptyTimeoutRefused()
    ensures ParseTimeout("") == Failure("Cannot parse timeout from \"\"")
  {
    assert LowercaseAscii("") != LowercaseAscii("infinite");
  }

  lemma NegativeTimeoutRefused()
    ensures ParseTimeout("-10").Failure?
  {
    assert Trim("-10") == "-10";
    assert !AllDigits("-10") by { assert !IsDigit(("-10")[0]); }
  }

  lemma TimeoutWithUnitRefused()
    ensures ParseTimeout("10s").Failure?
  {
    assert Trim("10s") == "10s";
    assert !AllDigits("10s") by { assert !IsDigit(("10s")[2]); }
  }

  lemma TimeoutCountExample()
    ensures ParseTimeout(" 42 ") == Success(Timeout(42))
  {
    FortyTwoTrimmed();
    assert DigitsValue("42") == 42 by { assert ("42")[..1] == "4"; }
    assert LowercaseAscii("42")[0] == '4';
  }

  lemma FortyTwoTrimmed()
    ensures Trim(" 42 ") == "42"
  {
    var x: Bytes := " 42 ";
    assert TrailingSpaces(x) == 1 by { assert x[..3] == " 42"; }
    assert LeadingSpaces(" 42") == 1 by { assert (" 42")[1..] == "42"; }
  }

  lemma InfiniteTimeoutExample()
    ensures ParseTimeout("INFINITE") == Success(Infinity())
  {
    assert Trim("INFINITE") == "INFINITE";
    assert LowercaseAscii("INFINITE") == "infinite";
    assert LowercaseAscii("infinite") == "infinite";
  }

  /** `parse_tags`: the whitespace-separated tokens, each made a Tag, in
      order; the first invalid token fails with the Tag's message. */
  function ParseTags(str: Bytes): (r: Result<seq<Tags.Tag>>)
    ensures (forall k :: 0 <= k < |Tokenize(str)| ==> Tags.Create(Tokenize(str)[k]).Success?) ==> r.Success?
    ensures r.Success? ==> |r.value| == |Tokenize(str)|
    ensures r.Success? ==> forall k :: 0 <= k < |r.value| ==> Tags.Create(Tokenize(str)[k]) == Success(r.value[k])
    ensures r.Failure? ==> exists k :: 0 <= k < |Tokenize(str)| && Tags.Create(Tokenize(str)[k]) == Failure(r.error)
  {
    CreateAll(Tokenize(str))
  }

  /** The tags of the tokens, or the first token's error. */
  function CreateAll(tokens: seq<Bytes>): (r: Result<seq<Tags.Tag>>)
    ensures r.Success? <==> forall k :: 0 <= k < |tokens| ==> Tags.Create(tokens[k]).Success?
    ensures r.Success? ==> |r.value| == |tokens|
    ensures r.Success? ==> forall k :: 0 <= k < |r.value| ==> Tags.Create(tokens[k]) == Success(r.value[k])
    ensures r.Failure? ==> exists k :: 0 <= k < |tokens| && Tags.Create(tokens[k]) == Failure(r.error)
  {
    if tokens == [] then Success([])
    else match Tags.Create(tokens[0])
      case Failure(e) => Failure(e)
      case Success(t) =>
        var rest := CreateAll(tokens[1..]);
        assert forall k :: 1 <= k < |tokens| ==> tokens[k] == tokens[1..][k - 1];
        match rest
        case Failure(e) =>
          var k :| 0 <= k < |tokens[1..]| && Tags.Create(tokens[1..][k]) == Failure(e);
          assert Tags.Create(tokens[k + 1]) == Failure(e);
          Failure(e)
        case Success(ts) => Success([t] + ts)
  }

  /** The names of tags, joined by single spaces, read back as the tags. */
  lemma {:induction false} ParseTagsOfNames(ts: seq<Tags.Tag>)
    ensures ParseTags(Join(TagNames(ts), [' '])) == Success(ts)
  {
    var names := TagNames(ts);
    forall k | 0 <= k < |names| ensures IsWord(names[k]) {
      assert Tags.IsValid(names[k]);
    }
    TokenizeJoin(names);
    var r := ParseTags(Join(names, [' ']));
    forall k | 0 <= k < |ts| ensures Tags.Create(names[k]) == Success(ts[k]) {
      Tags.CreateOfName(ts[k]);
    }
    assert r.Success?;
    assert r.value == ts;
  }

  function TagNames(ts: seq<Tags.Tag>): (r: seq<Bytes>)
    ensures |r| == |ts| && forall k :: 0 <= k < |ts| ==> r[k] == ts[k].name
  {
    seq(|ts|, k requires 0 <= k < |ts| => ts[k].name)
  }

  /** `parse_automation`: true exactly for the trimmed text "true". */
  function ParseAutomation(str: Bytes): (r: bool)
  {
    Trim(str) == "true"
  }

  lemma ParseAutomationExample()
    ensures ParseAutomation(" true ")
  {
    var x: Bytes := " true ";
    assert TrailingSpaces(x) == 1 by { assert x[..5] == " true"; }
    assert LeadingSpaces(" true") == 1 by { assert (" true")[1..] == "true"; }
  }

  /** Only the exact lower-case word counts. */
  lemma ParseAutomationRefusals()
    ensures !ParseAutomation("True") && !ParseAutomation("1")
  {
    assert Trim("True") == "True";
    assert Trim("1") == "1";
  }

  // ----------------------------------------------------------------------
  // Reading a step

  /** The loop state of `operator>>(Step)`. */
  datatype Reader = Reader(
    loadScript: bool,
    hasType: bool,
    hasLabel: bool,
    encountered: set<bv64>,
    step: Step,
    script: Bytes,
    lastModification: Time)

  /** The state before the first line: a default-constructed step, no time
      read yet (0). */
  function StartReader(now: Time): Reader
  {
    Reader(false, false, false, {}, NewStep(Action, now), [], 0)
  }

  function DuplicateMessage(keyword: Bytes): string
  {
    "Syntax error: Encountered keyword '" + keyword + "' multiple times"
  }

  /** Lines in the script are appended with their '\n'. */
  function AppendLine(rd: Reader, line: Bytes): Reader
  {
    rd.(script := rd.script + line + "\n")
  }

  /** The header field a keyword hash selects, applied to the reader. */
  function ReadField(rd: Reader, h: bv64, rest: Bytes, parseTime: Bytes -> Option<Time>, now: Time): (r: Result<Reader>)
    requires h in HeaderShs
    ensures r.Success? ==> r.value.loadScript == rd.loadScript && r.value.encountered == rd.encountered
    ensures r.Success? ==> r.value.script == rd.script
    ensures r.Success? ==> r.value.hasType == (rd.hasType || h == TypeSh)
    ensures r.Success? ==> r.value.hasLabel == (rd.hasLabel || h == LabelSh)
    ensures r.Success? ==> r.value.step.indentationLevel == rd.step.indentationLevel
    ensures r.Success? ==> r.value.step.isRunning == rd.step.isRunning
  {
    if h == TypeSh then
      match ExtractType(rest, rd.step, now)
      case Failure(e) => Failure(e)
      case Success(s) => Success(rd.(step := s, hasType := true))
    else if h == LabelSh then
      Success(rd.(step := ExtractLabel(rest, rd.step, now), hasLabel := true))
    else if h == UseContextVariableNamesSh then
      match ExtractContextVariableNames(rest, rd.step)
      case Failure(e) => Failure(e)
      case Success(s) => Success(rd.(step := s))
    else if h == TimeOfLastModificationSh then
      match ExtractTime("time of last modification", rest, parseTime)
      case Failure(e) => Failure(e)
      case Success(t) => Success(rd.(lastModification := t))
    else if h == TimeOfLastExecutionSh then
      match ExtractTime("time of last execution", rest, parseTime)
      case Failure(e) => Failure(e)
      case Success(t) => Success(rd.(step := SetTimeOfLastExecution(rd.step, t)))
    else if h == TimeoutSh then
      match ParseTimeout(rest)
      case Failure(e) => Failure(e)
      case Success(t) => Success(rd.(step := SetTimeout(rd.step, t)))
    else
      match ExtractDisabled(rest, rd.step, now)
      case Failure(e) => Failure(e)
      case Success(s) => Success(rd.(step := s))
  }

  /** A header line changes only the step field its keyword names (the type,
      the label and the disabled flag also bump the modification time), and
      only the time-of-last-modification keyword changes the time read. */
  lemma ReadFieldChangesOnlyItsField(rd: Reader, h: bv64, rest: Bytes, parseTime: Bytes -> Option<Time>, now: Time)
    requires h in HeaderShs
    ensures var r := ReadField(rd, h, rest, parseTime, now);
      r.Success? ==>
        (h == TypeSh ==> r.value.step == rd.step.(stepType := r.value.step.stepType, timeOfLastModification := now)) &&
        (h == LabelSh ==> r.value.step == rd.step.(stepLabel := r.value.step.stepLabel, timeOfLastModification := now)) &&
        (h == UseContextVariableNamesSh ==>
           r.value.step == rd.step.(usedContextVariableNames := r.value.step.usedContextVariableNames)) &&
        (h == TimeOfLastModificationSh ==> r.value.step == rd.step) &&
        (h == TimeOfLastExecutionSh ==> r.value.step == rd.step.(timeOfLastExecution := r.value.step.timeOfLastExecution)) &&
        (h == TimeoutSh ==> r.value.step == rd.step.(timeout := r.value.step.timeout)) &&
        (h == DisabledSh ==> r.value.step == SetDisabled(rd.step, r.value.step.isDisabled, now)) &&
        (h != TimeOfLastModificationSh ==> r.value.lastModification == rd.lastModification)
  {
  }

  /** One iteration of the loop of `operator>>(Step)`: in the script every
      line is kept; before it blank lines are skipped, a keyword seen before
      is an error, a header keyword sets its field, and any other line
      starts the script. */
  function ReadStepLine(rd: Reader, line: Bytes, parseTime: Bytes -> Option<Time>, now: Time): (r: Result<Reader>)
    ensures r.Success? ==> r.value.step.indentationLevel == rd.step.indentationLevel
    ensures r.Success? ==> r.value.step.isRunning == rd.step.isRunning
  {
    if rd.loadScript then Success(AppendLine(rd, line))
    else
      var (keyword, rest) := ExtractKeyword(line);
      if keyword == [] && Trim(rest) == [] then Success(rd)
      else
        var h := Djb2a(keyword);
        if h in rd.encountered then Failure(DuplicateMessage(keyword))
        else
          var rd1 := rd.(encountered := rd.encountered + {h});
          if h in HeaderShs then ReadField(rd1, h, rest, parseTime, now)
          else Success(AppendLine(rd1, line).(loadScript := true))
  }

  /** In the script every line is kept, with its '\n'. */
  lemma ScriptLineKept(rd: Reader, line: Bytes, parseTime: Bytes -> Option<Time>, now: Time)
    requires rd.loadScript
    ensures ReadStepLine(rd, line, parseTime, now) == Success(AppendLine(rd, line))
  {
  }

  /** Before the script, a blank line changes nothing. */
  lemma BlankLineSkipped(rd: Reader, line: Bytes, parseTime: Bytes -> Option<Time>, now: Time)
    requires !rd.loadScript && IsBlank(line)
    ensures ReadStepLine(rd, line, parseTime, now) == Success(rd)
  {
  }

  /** Before the script, a keyword whose hash was seen before is an error,
      whatever the keyword. */
  lemma DuplicateKeywordRefused(rd: Reader, line: Bytes, parseTime: Bytes -> Option<Time>, now: Time)
    requires !rd.loadScript && !IsBlank(line) && Djb2a(ExtractKeyword(line).0) in rd.encountered
    ensures ReadStepLine(rd, line, parseTime, now) == Failure(DuplicateMessage(ExtractKeyword(line).0))
  {
  }

  /** Before the script, a line that is not blank and has no header keyword
      starts the script; it is its first line. */
  lemma OtherLineStartsScript(rd: Reader, line: Bytes, parseTime: Bytes -> Option<Time>, now: Time)
    requires !rd.loadScript && !IsBlank(line)
    requires Djb2a(ExtractKeyword(line).0) !in rd.encountered && Djb2a(ExtractKeyword(line).0) !in HeaderShs
    ensures ReadStepLine(rd, line, parseTime, now) ==
              Success(AppendLine(rd, line).(encountered := rd.encountered + {Djb2a(ExtractKeyword(line).0)},
                                            loadScript := true))
  {
  }

  /** Before the script, a header line records its keyword's hash, so a
      second line with that keyword is refused. */
  lemma HeaderLineRecorded(rd: Reader, line: Bytes, parseTime: Bytes -> Option<Time>, now: Time)
    requires !rd.loadScript && !IsBlank(line)
    requires ReadStepLine(rd, line, parseTime, now).Success?
    ensures ReadStepLine(rd, line, parseTime, now).value.encountered == rd.encountered + {Djb2a(ExtractKeyword(line).0)}
  {
  }

  /** The loop state after the given lines, or the first error. */
  function ReadLines(rd: Reader, lines: seq<Bytes>, parseTime: Bytes -> Option<Time>, now: Time): Result<Reader>
  {
    if lines == [] then Success(rd)
    else match ReadLines(rd, lines[..|lines| - 1], parseTime, now)
      case Failure(e) => Failure(e)
      case Success(r) => ReadStepLine(r, lines[|lines| - 1], parseTime, now)
  }

  /** The checks and the assignments after the loop: a type and a label are
      required, the script loses its final '\n', and the modification time is
      the one read, or now when none (0) was read. */
  function FinishStep(rd: Reader, now: Time): (r: Result<Step>)
    ensures !rd.hasType ==> r == Failure("Step must have type declaration")
    ensures rd.hasType && !rd.hasLabel ==> r == Failure("Step must have label declaration")
    ensures r.Success? <==> rd.hasType && rd.hasLabel
    ensures r.Success? ==> r.value.script == (if rd.script == [] then rd.step.script else rd.script[..|rd.script| - 1])
    ensures r.Success? ==> r.value.timeOfLastModification == (if rd.lastModification != 0 then rd.lastModification else now)
    ensures r.Success? ==> r.value == rd.step.(script := r.value.script, timeOfLastModification := r.value.timeOfLastModification)
  {
    if !rd.hasType then Failure("Step must have type declaration")
    else if !rd.hasLabel then Failure("Step must have label declaration")
    else
      var s := if rd.script != [] then SetScript(rd.step, rd.script[..|rd.script| - 1], now) else rd.step;
      Success(SetTimeOfLastModification(s, if rd.lastModification != 0 then rd.lastModification else now))
  }

  /** `operator>>(Step)` on a whole text: the step read, or the error. */
  function ReadStepText(text: Bytes, parseTime: Bytes -> Option<Time>, now: Time): Result<Step>
  {
    match ReadLines(StartReader(now), Lines(text), parseTime, now)
    case Failure(e) => Failure(e)
    case Success(rd) => FinishStep(rd, now)
  }

  lemma ReadLinesStep(rd: Reader, lines: seq<Bytes>, i: nat, parseTime: Bytes -> Option<Time>, now: Time)
    requires i < |lines|
    ensures ReadLines(rd, lines[..i + 1], parseTime, now) ==
              match ReadLines(rd, lines[..i], parseTime, now)
              case Failure(e) => Failure(e)
              case Success(r) => ReadStepLine(r, lines[i], parseTime, now)
  {
    assert lines[..i + 1][..i] == lines[..i];
  }

  /** Once the loop has thrown, the rest of the lines are never read. */
  lemma {:induction false} ReadLinesFailureSticks(rd: Reader, lines: seq<Bytes>, i: nat, parseTime: Bytes -> Option<Time>, now: Time)
    requires i <= |lines| && ReadLines(rd, lines[..i], parseTime, now).Failure?
    ensures ReadLines(rd, lines, parseTime, now) == ReadLines(rd, lines[..i], parseTime, now)
    decreases |lines| - i
  {
    if i < |lines| {
      ReadLinesStep(rd, lines, i, parseTime, now);
      ReadLinesFailureSticks(rd, lines, i + 1, parseTime, now);
    } else {
      assert lines[..i] == lines;
    }
  }

  /** `operator>>(Step)`: the loop over the lines with its flags, the set of
      keyword hashes seen, the script buffer and the temporary step, then the
      checks after the loop. */
  method ReadStep(text: Bytes, parseTime: Bytes -> Option<Time>, now: Time) returns (r: Result<Step>)
    ensures r == ReadStepText(text, parseTime, now)
  {
    var lines := Lines(text);
    var lastModification: Time := 0;
    var script: Bytes := [];
    var loadScript := false;
    var hasType := false;
    var hasLabel := false;
    var encountered: set<bv64> := {};
    var stepInternal := NewStep(Action, now);
    var i := 0;
    while i < |lines|
      invariant 0 <= i <= |lines|
      invariant ReadLines(StartReader(now), lines[..i], parseTime, now) ==
                  Success(Reader(loadScript, hasType, hasLabel, encountered, stepInternal, script, lastModification))
    {
      ReadLinesStep(StartReader(now), lines, i, parseTime, now);
      var line := lines[i];
      ghost var rd := Reader(loadScript, hasType, hasLabel, encountered, stepInternal, script, lastModification);
      i := i + 1;
      if loadScript {
        script := script + line + "\n";
        continue;
      }
      var (keyword, remainingLine) := ExtractKeyword(line);
      if keyword == [] && Trim(remainingLine) == [] {
        continue;
      }
      var keywordHash := HashDjb2a(keyword);
      if keywordHash in encountered {
        r := Failure(DuplicateMessage(keyword));
        ReadLinesFailureSticks(StartReader(now), lines, i, parseTime, now);
        return;
      }
      encountered := encountered + {keywordHash};
      if keywordHash in HeaderShs {
        var field := ReadField(Reader(loadScript, hasType, hasLabel, encountered, stepInternal, script, lastModification),
                               keywordHash, remainingLine, parseTime, now);
        if field.Failure? {
          r := Failure(field.error);
          ReadLinesFailureSticks(StartReader(now), lines, i, parseTime, now);
          return;
        }
        hasType, hasLabel := field.value.hasType, field.value.hasLabel;
        stepInternal, lastModification := field.value.step, field.value.lastModification;
      } else {
        script := script + line + "\n";
        loadScript := true;
      }
    }
    assert lines[..i] == lines;
    if !hasType {
      r := Failure("Step must have type declaration");
      return;
    } else if !hasLabel {
      r := Failure("Step must have label declaration");
      return;
    }
    if script != [] {
      stepInternal := SetScript(stepInternal, script[..|script| - 1], now);
    }
    if lastModification != 0 {
      stepInternal := SetTimeOfLastModification(stepInternal, lastModification);
    } else {
      stepInternal := SetTimeOfLastModification(stepInternal, now);
    }
    r := Success(stepInternal);
  }

  lemma Concat4(a: Bytes, b: Bytes, c: Bytes, d: Bytes)
    ensures a + (b + c + d) == a + b + c + d
  {
  }

  /** One more line of the script, with its '\n'. */
  lemma ScriptSnoc(base: Bytes, lines: seq<Bytes>)
    requires lines != []
    ensures base + Unlines(lines[..|lines| - 1]) + lines[|lines| - 1] + "\n" == base + Unlines(lines)
  {
    var init, l := lines[..|lines| - 1], lines[|lines| - 1];
    UnlinesLast(lines);
    Concat4(base, Unlines(init), l, "\n");
  }

  lemma {:induction false} UnlinesLast(lines: seq<Bytes>)
    requires lines != []
    ensures Unlines(lines) == Unlines(lines[..|lines| - 1]) + lines[|lines| - 1] + "\n"
  {
    var init, l := lines[..|lines| - 1], lines[|lines| - 1];
    if |lines| == 1 {
      assert lines[1..] == [] && init == [];
    } else {
      var t := lines[1..];
      UnlinesLast(t);
      assert t[..|t| - 1] == init[1..] && t[|t| - 1] == l;
      assert Unlines(init) == lines[0] + "\n" + Unlines(init[1..]);
    }
  }

  /** Once the script has started, every further line is appended to it
      with its '\n', whatever it holds, header lines included. */
  lemma {:induction false} ScriptKeepsEveryLine(rd: Reader, lines: seq<Bytes>, parseTime: Bytes -> Option<Time>, now: Time)
    requires rd.loadScript
    ensures ReadLines(rd, lines, parseTime, now) == Success(rd.(script := rd.script + Unlines(lines)))
  {
    if lines != [] {
      var p, l := lines[..|lines| - 1], lines[|lines| - 1];
      ScriptKeepsEveryLine(rd, p, parseTime, now);
      var rp := rd.(script := rd.script + Unlines(p));
      assert ReadLines(rd, lines, parseTime, now) == ReadStepLine(rp, l, parseTime, now);
      ScriptLineKept(rp, l, parseTime, now);
      ScriptSnoc(rd.script, lines);
    } else {
      assert rd.script + Unlines(lines) == rd.script;
    }
  }

  /** The step read is a fresh one: whatever the target held before, it gets
      level 0 and is not running. */
  lemma {:induction false} ReadLinesKeepsFresh(lines: seq<Bytes>, parseTime: Bytes -> Option<Time>, now: Time)
    requires ReadLines(StartReader(now), lines, parseTime, now).Success?
    ensures var rd := ReadLines(StartReader(now), lines, parseTime, now).value;
      rd.step.indentationLevel == 0 && !rd.step.isRunning
  {
    if lines != [] {
      var p := lines[..|lines| - 1];
      assert ReadLines(StartReader(now), p, parseTime, now).Success?;
      ReadLinesKeepsFresh(p, parseTime, now);
    }
  }

  lemma ReadStepIsFresh(text: Bytes, parseTime: Bytes -> Option<Time>, now: Time)
    requires ReadStepText(text, parseTime, now).Success?
    ensures ReadStepText(text, parseTime, now).value.indentationLevel == 0
    ensures !ReadStepText(text, parseTime, now).value.isRunning
  {
    ReadLinesKeepsFresh(Lines(text), parseTime, now);
  }
}
