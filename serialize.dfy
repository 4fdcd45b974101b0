/** The writer side of the step file format: the escaping of a sequence
    label into a directory name, the zero-padded step file names, and the
    text `operator<<(Step)` writes, with the proof that the step reader
    reads that text back as the step. */
module Serialize {
  import opened Wrappers
  import opened Text
  import opened Ordering
  import opened Timeouts
  import opened Steps
  import opened HashString
  import opened KeywordHashes
  import VariableNames
  import Deserialize

  // ----------------------------------------------------------------------
  // Directory names

  /** The special bytes `escape_filename_characters` writes as '$' and two
      hex digits, besides every byte above 127: / \ : ? * " ' < > | $ &. */
  predicate IsBadCharacter(c: Byte)
  {
    c == '/' || c == '\\' || c == ':' || c == '?' || c == '*' || c == '"' ||
    c == '\'' || c == '<' || c == '>' || c == '|' || c == '$' || c == '&'
  }

  /** One byte of the escaped name: whitespace and control bytes (up to 32)
      become a space, bytes above 127 and the special bytes become '$' and
      two lower-case hex digits, every other byte is copied. */
  function EscapeFilenameByte(c: Byte): Bytes
  {
    if c as int <= 32 then " "
    else if c as int > 127 || IsBadCharacter(c) then "$" + Hex2(c as int)
    else [c]
  }

  /** `escape_filename_characters`: the bytes escaped one by one. */
  function EscapeFilename(s: Bytes): Bytes
  {
    if s == [] then [] else EscapeFilenameByte(s[0]) + EscapeFilename(s[1..])
  }

  lemma {:induction false} EscapeFilenameAppend(a: Bytes, b: Bytes)
    ensures EscapeFilename(a + b) == EscapeFilename(a) + EscapeFilename(b)
  {
    if a != [] {
      assert (a + b)[1..] == a[1..] + b;
      EscapeFilenameAppend(a[1..], b);
    } else {
      assert a + b == b;
    }
  }

  lemma AppendAssoc(a: Bytes, b: Bytes, c: Bytes)
    ensures (a + b) + c == a + (b + c)
  {
  }

  /** The loop of `escape_filename_characters`, writing into a buffer. */
  method EscapeFilenameCharacters(s: Bytes) returns (out: Bytes)
    ensures out == EscapeFilename(s)
  {
    out := [];
    for i := 0 to |s|
      invariant out == EscapeFilename(s[..i])
    {
      var u := s[i];
      EscapeFilenameAppend(s[..i], [u]);
      assert s[..i + 1] == s[..i] + [u];
      assert EscapeFilename([u]) == EscapeFilenameByte(u);
      if u as int <= 32 {
        out := out + " ";
      } else if u as int > 127 || IsBadCharacter(u) {
        AppendAssoc(out, "$", Hex2(u as int));
        out := out + "$" + Hex2(u as int);
      } else {
        out := out + [u];
      }
    }
    assert s[..|s|] == s;
  }

  /** Byte i of an escaped name lies between 32 and 127 and is no special
      byte, unless it is a '$' followed by two hex digits. */
  predicate SafeAt(r: Bytes, i: nat)
    requires i < |r|
  {
    32 <= r[i] as int <= 127 &&
    (IsBadCharacter(r[i]) ==> r[i] == '$' && i + 2 < |r| && IsHexDigit(r[i + 1]) && IsHexDigit(r[i + 2]))
  }

  /** The shape of an escaped name: every byte is safe. */
  predicate SafeFilename(r: Bytes)
  {
    forall i :: 0 <= i < |r| ==> SafeAt(r, i)
  }

  lemma SafeFilenameAppend(a: Bytes, b: Bytes)
    requires SafeFilename(a) && SafeFilename(b)
    ensures SafeFilename(a + b)
  {
    var r := a + b;
    forall i | 0 <= i < |r| ensures SafeAt(r, i) {
      if i < |a| {
        assert SafeAt(a, i);
        assert r[i] == a[i];
        if i + 2 < |a| {
          assert r[i + 1] == a[i + 1] && r[i + 2] == a[i + 2];
        }
      } else {
        var k := i - |a|;
        assert SafeAt(b, k);
        assert r[i] == b[k];
        if k + 2 < |b| {
          assert r[i + 1] == b[k + 1] && r[i + 2] == b[k + 2];
        }
      }
    }
  }

  lemma HexDigitNotBad(c: Byte)
    requires IsHexDigit(c)
    ensures !IsBadCharacter(c) && 32 <= c as int <= 127
  {
  }

  lemma SafeFilenameByte(c: Byte)
    ensures SafeFilename(EscapeFilenameByte(c))
  {
    var e := EscapeFilenameByte(c);
    if 32 < c as int && (c as int > 127 || IsBadCharacter(c)) {
      HexDigitNotBad(e[1]);
      HexDigitNotBad(e[2]);
      assert SafeAt(e, 0) && SafeAt(e, 1) && SafeAt(e, 2);
    } else {
      assert SafeAt(e, 0);
    }
  }

  /** The escaped name never holds a control byte, a byte above 127, or a
      special byte other than '$' as the start of an escape; in particular
      it never holds a '/', so it names one directory entry. */
  lemma {:induction false} EscapeFilenameSafe(s: Bytes)
    ensures SafeFilename(EscapeFilename(s))
    ensures '/' !in EscapeFilename(s)
  {
    if s != [] {
      SafeFilenameByte(s[0]);
      EscapeFilenameSafe(s[1..]);
      SafeFilenameAppend(EscapeFilenameByte(s[0]), EscapeFilename(s[1..]));
    }
    var r := EscapeFilename(s);
    forall i | 0 <= i < |r| ensures r[i] != '/' {
      assert SafeAt(r, i);
    }
  }

  /** The decoder of escaped names: '$' and two hex digits stand for the
      byte they spell; every other byte stands for itself. */
  function UnescapeFilename(r: Bytes): Bytes
    decreases |r|
  {
    if r == [] then []
    else if |r| >= 3 && r[0] == '$' && IsHexDigit(r[1]) && IsHexDigit(r[2]) then
      [(HexValue(r[1]) * 16 + HexValue(r[2])) as char] + UnescapeFilename(r[3..])
    else [r[0]] + UnescapeFilename(r[1..])
  }

  lemma UnescapeFilenameByte(c: Byte, rest: Bytes)
    requires c as int > 32
    ensures UnescapeFilename(EscapeFilenameByte(c) + rest) == [c] + UnescapeFilename(rest)
  {
    var e := EscapeFilenameByte(c);
    var r := e + rest;
    if |e| == 3 {
      assert r[1] == e[1] && r[2] == e[2];
      assert r[3..] == rest;
    } else {
      assert r[1..] == rest;
    }
  }

  /** Only whitespace and control bytes are lost: a name without them is
      decoded back from its escaped form, so two such labels never share a
      directory. */
  lemma {:induction false} UnescapeEscapeFilename(s: Bytes)
    requires forall i :: 0 <= i < |s| ==> s[i] as int > 32
    ensures UnescapeFilename(EscapeFilename(s)) == s
  {
    if s != [] {
      UnescapeFilenameByte(s[0], EscapeFilename(s[1..]));
      UnescapeEscapeFilename(s[1..]);
    }
  }

  /** A byte escaping leaves alone. */
  predicate IsPlainFilenameByte(c: Byte)
  {
    32 < c as int <= 127 && !IsBadCharacter(c)
  }

  lemma {:induction false} PlainFilenameKept(s: Bytes)
    requires forall i :: 0 <= i < |s| ==> IsPlainFilenameByte(s[i])
    ensures EscapeFilename(s) == s
  {
    if s != [] {
      PlainFilenameKept(s[1..]);
      assert s == [s[0]] + s[1..];
    }
  }

  /** Letters and digits are kept. */
  lemma AlnumKept(s: Bytes)
    requires forall i :: 0 <= i < |s| ==> IsAlnum(s[i])
    ensures EscapeFilename(s) == s
  {
    forall i | 0 <= i < |s| ensures IsPlainFilenameByte(s[i]) {
      assert !IsBadCharacter(s[i]);
    }
    PlainFilenameKept(s);
  }

  lemma EscapeExampleHead()
    ensures EscapeFilename("A/\"") == "A$2f$22"
  {
    var s: Bytes := "A/\"";
    assert s[1..] == "/\"" && s[1..][1..] == "\"";
    assert Hex2(47) == "2f" && Hex2(34) == "22";
  }

  lemma EscapeExampleMiddle()
    ensures EscapeFilename("\"$<") == "$22$24$3c"
  {
    var s: Bytes := "\"$<";
    assert s[1..] == "$<" && s[1..][1..] == "<";
    assert Hex2(34) == "22" && Hex2(36) == "24" && Hex2(60) == "3c";
  }

  lemma EscapeExampleTail()
    ensures EscapeFilename(">") == "$3e"
  {
    assert Hex2(62) == "3e";
  }

  lemma EscapeExampleFirstHalf()
    ensures EscapeFilename("A/\"" + "sequence") == "A$2f$22" + "sequence"
  {
    var s1: Bytes, s2: Bytes := "A/\"", "sequence";
    EscapeExampleHead();
    AlnumKept(s2);
    EscapeFilenameAppend(s1, s2);
  }

  lemma EscapeExampleSecondHalf()
    ensures EscapeFilename("\"$<" + "again" + ">") == "$22$24$3c" + "again" + "$3e"
  {
    var s3: Bytes, s4: Bytes, s5: Bytes := "\"$<", "again", ">";
    EscapeExampleMiddle();
    AlnumKept(s4);
    EscapeExampleTail();
    EscapeFilenameAppend(s3, s4);
    EscapeFilenameAppend(s3 + s4, s5);
  }

  /** The example of the test suite, "A/\"sequence\"$<again>", in the
      pieces escaping treats alike: a slash, quotes, a dollar and angle
      brackets are escaped, the letters are kept. */
  lemma EscapeFilenameExample()
    ensures EscapeFilename(("A/\"" + "sequence") + ("\"$<" + "again" + ">")) ==
              ("A$2f$22" + "sequence") + ("$22$24$3c" + "again" + "$3e")
  {
    EscapeExampleFirstHalf();
    EscapeExampleSecondHalf();
    EscapeFilenameAppend("A/\"" + "sequence", "\"$<" + "again" + ">");
  }

  // ----------------------------------------------------------------------
  // Step file names

  /** The width of the step number in the file names of a sequence of the
      given size. */
  function MaxDigits(size: nat): (w: nat)
    ensures w >= 1
  {
    size / 10 + 1
  }

  /** The file name of step `number` (counted from 1): "step_", the number
      right-aligned in a field of width maxDigits filled with '0', "_", the
      type name and ".lua". */
  function StepFilename(number: nat, maxDigits: nat, t: StepType): Bytes
  {
    "step_" + ZeroPad(Decimal(number), maxDigits) + "_" + TypeName(t) + ".lua"
  }

  /** The end of a step file name: "_", the type name and ".lua". */
  function TypeSuffix(t: StepType): Bytes
  {
    "_" + TypeName(t) + ".lua"
  }

  lemma StepFilenameParts(number: nat, maxDigits: nat, t: StepType)
    ensures StepFilename(number, maxDigits, t) == "step_" + (ZeroPad(Decimal(number), maxDigits) + TypeSuffix(t))
  {
  }

  /** `extract_filename`, writing into a buffer. */
  method ExtractFilename(number: nat, maxDigits: nat, t: StepType) returns (out: Bytes)
    ensures out == StepFilename(number, maxDigits, t)
  {
    out := "step_";
    out := out + ZeroPad(Decimal(number), maxDigits);
    out := out + "_";
    out := out + TypeName(t);
    out := out + ".lua";
  }

  lemma {:induction false} PowAtLeastTenTimes(k: nat)
    ensures Pow10(k) >= 10 * k
  {
    if k > 0 {
      PowAtLeastTenTimes(k - 1);
    }
  }

  /** The width is enough for every step number of the sequence, so every
      number of a sequence is padded to the same length. */
  lemma MaxDigitsSuffice(n: nat, size: nat)
    requires n <= size
    ensures NumDigits(n) <= MaxDigits(size)
    ensures |ZeroPad(Decimal(n), MaxDigits(size))| == MaxDigits(size)
  {
    var w := MaxDigits(size);
    PowAtLeastTenTimes(w);
    NumDigitsBound(n, w);
    DecimalLength(n);
    ZeroPadShape(Decimal(n), w);
  }

  lemma {:induction false} ZerosValue(z: Bytes)
    requires forall i :: 0 <= i < |z| ==> z[i] == '0'
    ensures AllDigits(z) && DigitsValue(z) == 0
  {
    if z != [] {
      ZerosValue(z[..|z| - 1]);
    }
  }

  /** Leading zeros do not change the value of a digit string. */
  lemma {:induction false} LeadingZerosValue(z: Bytes, d: Bytes)
    requires forall i :: 0 <= i < |z| ==> z[i] == '0'
    requires AllDigits(d)
    ensures AllDigits(z + d) && DigitsValue(z + d) == DigitsValue(d)
  {
    if d == [] {
      assert z + d == z;
      ZerosValue(z);
    } else {
      var d' := d[..|d| - 1];
      LeadingZerosValue(z, d');
      assert (z + d)[..|z + d| - 1] == z + d';
    }
  }

  /** The padded field still spells the number. */
  lemma ZeroPadValue(n: nat, w: nat)
    ensures AllDigits(ZeroPad(Decimal(n), w))
    ensures DigitsValue(ZeroPad(Decimal(n), w)) == n
  {
    var d := Decimal(n);
    ZeroPadShape(d, w);
    LeadingZerosValue(Zeros(|ZeroPad(d, w)| - |d|), d);
    DecimalValue(n);
  }

  /** Digit strings of one length with one value are equal. */
  lemma {:induction false} DigitsValueInjective(a: Bytes, b: Bytes)
    requires |a| == |b| && AllDigits(a) && AllDigits(b)
    requires DigitsValue(a) == DigitsValue(b)
    ensures a == b
  {
    if a != [] {
      var a', b' := a[..|a| - 1], b[..|b| - 1];
      DigitsValueInjective(a', b');
      assert a == a' + [a[|a| - 1]] && b == b' + [b[|b| - 1]];
    }
  }

  /** Among digit strings of one length, the smaller value is the
      lexicographically smaller string. */
  lemma {:induction false} DigitsOrder(a: Bytes, b: Bytes)
    requires |a| == |b| && AllDigits(a) && AllDigits(b)
    requires DigitsValue(a) < DigitsValue(b)
    ensures LexLess(a, b)
  {
    var a', b' := a[..|a| - 1], b[..|b| - 1];
    var x, y := a[|a| - 1], b[|b| - 1];
    assert a == a' + [x] && b == b' + [y];
    if DigitsValue(a') < DigitsValue(b') {
      DigitsOrder(a', b');
      LexLessSameLengthAppend(a', b', [x], [y]);
    } else {
      assert DigitsValue(a') == DigitsValue(b');
      DigitsValueInjective(a', b');
      assert LexLess([x], [y]);
      LexLessCommonPrefix(a', [x], [y]);
    }
  }

  lemma {:induction false} LexLessSameLengthAppend(a: Bytes, b: Bytes, x: Bytes, y: Bytes)
    requires |a| == |b| && LexLess(a, b)
    ensures LexLess(a + x, b + y)
  {
    assert (a + x)[0] == a[0] && (b + y)[0] == b[0];
    if a[0] == b[0] {
      assert (a + x)[1..] == a[1..] + x && (b + y)[1..] == b[1..] + y;
      LexLessSameLengthAppend(a[1..], b[1..], x, y);
    }
  }

  lemma {:induction false} LexLessCommonPrefix(p: Bytes, u: Bytes, v: Bytes)
    requires LexLess(u, v)
    ensures LexLess(p + u, p + v)
  {
    if p != [] {
      assert (p + u)[1..] == p[1..] + u && (p + v)[1..] == p[1..] + v;
      LexLessCommonPrefix(p[1..], u, v);
    } else {
      assert p + u == u && p + v == v;
    }
  }

  /** The file names of the steps of a sequence sort in step order, whatever
      the step types, so a directory listing in alphabetical order lists the
      steps in sequence order. */
  lemma StepFilenamesOrdered(m: nat, n: nat, size: nat, s: StepType, t: StepType)
    requires m < n <= size
    ensures LexLess(StepFilename(m, MaxDigits(size), s), StepFilename(n, MaxDigits(size), t))
  {
    var w := MaxDigits(size);
    var a, b := ZeroPad(Decimal(m), w), ZeroPad(Decimal(n), w);
    MaxDigitsSuffice(m, size);
    MaxDigitsSuffice(n, size);
    ZeroPadValue(m, w);
    ZeroPadValue(n, w);
    DigitsOrder(a, b);
    StepFilenameParts(m, w, s);
    StepFilenameParts(n, w, t);
    LexLessSameLengthAppend(a, b, TypeSuffix(s), TypeSuffix(t));
    LexLessCommonPrefix("step_", a + TypeSuffix(s), b + TypeSuffix(t));
  }

  lemma StepFilenameExample()
    ensures StepFilename(7, MaxDigits(12), If) == "step_07_if.lua"
  {
    assert Decimal(7) == "7";
    assert ZeroPad("7", 2) == "07";
  }

  // ----------------------------------------------------------------------
  // The step file

  /** The header keywords, in the order the writer puts them. */
  const TypeKeyword: Bytes := "type"
  const LabelKeyword: Bytes := "label"
  const NamesKeyword: Bytes := "use context variable names"
  const ModificationKeyword: Bytes := "time of last modification"
  const ExecutionKeyword: Bytes := "time of last execution"
  const TimeoutKeyword: Bytes := "timeout"
  const DisabledKeyword: Bytes := "disabled"

  /** A header line: the keyword after "-- ", then ": " and the value. */
  function HeaderLine(keyword: Bytes, value: Bytes): Bytes
  {
    "-- " + keyword + ": " + value
  }

  /** The count of milliseconds, or "infinite" for the infinite timeout. */
  function TimeoutText(t: Timeout): Bytes
  {
    if t == Infinity() then "infinite" else Decimal(t.ms)
  }

  /** `std::boolalpha` output of a flag. */
  function BoolText(b: bool): Bytes
  {
    if b then "true" else "false"
  }

  function NameStrings(ns: seq<VariableNames.VariableName>): (r: seq<Bytes>)
    ensures |r| == |ns| && forall k :: 0 <= k < |ns| ==> r[k] == ns[k].name
  {
    seq(|ns|, k requires 0 <= k < |ns| => ns[k].name)
  }

  /** The names joined with ", ", in the order of the set. */
  function NamesText(ns: seq<VariableNames.VariableName>): Bytes
  {
    Join(NameStrings(ns), ", ")
  }

  /** The seven header lines `operator<<(Step)` writes, without their '\n';
      formatTime is the calendar form of a time point. */
  function HeaderLines(step: Step, formatTime: Time -> Bytes): seq<Bytes>
  {
    [HeaderLine(TypeKeyword, TypeName(step.stepType)),
     HeaderLine(LabelKeyword, Escape(step.stepLabel)),
     HeaderLine(NamesKeyword, "[" + NamesText(step.usedContextVariableNames) + "]"),
     HeaderLine(ModificationKeyword, formatTime(step.timeOfLastModification)),
     HeaderLine(ExecutionKeyword, formatTime(step.timeOfLastExecution)),
     HeaderLine(TimeoutKeyword, TimeoutText(step.timeout)),
     HeaderLine(DisabledKeyword, BoolText(step.isDisabled))]
  }

  /** The text of a step file: the header lines, each ended by '\n', then the
      script and one more '\n'. */
  function StepText(step: Step, formatTime: Time -> Bytes): Bytes
  {
    Deserialize.Unlines(HeaderLines(step, formatTime)) + step.script + "\n"
  }

  lemma UnlinesNext(ls: seq<Bytes>, k: nat)
    requires k < |ls|
    ensures Deserialize.Unlines(ls[..k + 1]) == Deserialize.Unlines(ls[..k]) + ls[k] + "\n"
  {
    assert ls[..k + 1] == ls[..k] + [ls[k]];
    Deserialize.UnlinesSnoc(ls[..k], ls[k]);
  }

  /** Seven lines written one after the other, each with its '\n'. */
  lemma UnlinesOfSeven(ls: seq<Bytes>)
    requires |ls| == 7
    ensures Deserialize.Unlines(ls) ==
              ls[0] + "\n" + ls[1] + "\n" + ls[2] + "\n" + ls[3] + "\n" + ls[4] + "\n" + ls[5] + "\n" + ls[6] + "\n"
  {
    var nothing: Bytes := [];
    calc {
      Deserialize.Unlines(ls);
      { assert ls[..7] == ls; }
      Deserialize.Unlines(ls[..7]);
      { UnlinesNext(ls, 6); }
      Deserialize.Unlines(ls[..6]) + ls[6] + "\n";
      { UnlinesNext(ls, 5); }
      Deserialize.Unlines(ls[..5]) + ls[5] + "\n" + ls[6] + "\n";
      { UnlinesNext(ls, 4); }
      Deserialize.Unlines(ls[..4]) + ls[4] + "\n" + ls[5] + "\n" + ls[6] + "\n";
      { UnlinesNext(ls, 3); }
      Deserialize.Unlines(ls[..3]) + ls[3] + "\n" + ls[4] + "\n" + ls[5] + "\n" + ls[6] + "\n";
      { UnlinesNext(ls, 2); }
      Deserialize.Unlines(ls[..2]) + ls[2] + "\n" + ls[3] + "\n" + ls[4] + "\n" + ls[5] + "\n" + ls[6] + "\n";
      { UnlinesNext(ls, 1); }
      Deserialize.Unlines(ls[..1]) + ls[1] + "\n" + ls[2] + "\n" + ls[3] + "\n" + ls[4] + "\n" + ls[5] + "\n" +
        ls[6] + "\n";
      { UnlinesNext(ls, 0); assert ls[..0] == []; }
      nothing + ls[0] + "\n" + ls[1] + "\n" + ls[2] + "\n" + ls[3] + "\n" + ls[4] + "\n" + ls[5] + "\n" +
        ls[6] + "\n";
      { assert nothing + ls[0] == ls[0]; }
      ls[0] + "\n" + ls[1] + "\n" + ls[2] + "\n" + ls[3] + "\n" + ls[4] + "\n" + ls[5] + "\n" + ls[6] + "\n";
    }
  }

  /** The step file line by line. */
  lemma StepTextLayout(step: Step, formatTime: Time -> Bytes)
    ensures StepText(step, formatTime) ==
              HeaderLine(TypeKeyword, TypeName(step.stepType)) + "\n" +
              HeaderLine(LabelKeyword, Escape(step.stepLabel)) + "\n" +
              HeaderLine(NamesKeyword, "[" + NamesText(step.usedContextVariableNames) + "]") + "\n" +
              HeaderLine(ModificationKeyword, formatTime(step.timeOfLastModification)) + "\n" +
              HeaderLine(ExecutionKeyword, formatTime(step.timeOfLastExecution)) + "\n" +
              HeaderLine(TimeoutKeyword, TimeoutText(step.timeout)) + "\n" +
              HeaderLine(DisabledKeyword, BoolText(step.isDisabled)) + "\n" +
              step.script + "\n"
  {
    UnlinesOfSeven(HeaderLines(step, formatTime));
  }

  const NewLine: Bytes := "\n"

  /** `operator<<(Step)`: the header lines one after the other, then the
      script followed by '\n'. */
  method WriteStep(step: Step, formatTime: Time -> Bytes) returns (out: Bytes)
    ensures out == StepText(step, formatTime)
  {
    out := HeaderLine(TypeKeyword, TypeName(step.stepType)) + NewLine;
    out := out + HeaderLine(LabelKeyword, Escape(step.stepLabel)) + NewLine;
    out := out + HeaderLine(NamesKeyword, "[" + NamesText(step.usedContextVariableNames) + "]") + NewLine;
    out := out + HeaderLine(ModificationKeyword, formatTime(step.timeOfLastModification)) + NewLine;
    out := out + HeaderLine(ExecutionKeyword, formatTime(step.timeOfLastExecution)) + NewLine;
    var timeout: Bytes;
    if step.timeout == Infinity() {
      timeout := "infinite";
    } else {
      timeout := Decimal(step.timeout.ms);
    }
    assert timeout == TimeoutText(step.timeout);
    out := out + HeaderLine(TimeoutKeyword, timeout) + NewLine;
    var disabled: Bytes := if step.isDisabled then "true" else "false";
    assert disabled == BoolText(step.isDisabled);
    out := out + HeaderLine(DisabledKeyword, disabled) + NewLine;
    out := out + step.script + NewLine;
    StepTextLayout(step, formatTime);
  }

  // ----------------------------------------------------------------------
  // Reading the step file back

  /** Neither end is whitespace. */
  predicate Unpadded(s: Bytes)
  {
    s == [] || (!IsSpace(s[0]) && !IsSpace(s[|s| - 1]))
  }

  /** A keyword the reader can find: not empty, unpadded, no ':'. */
  predicate IsHeaderKeyword(k: Bytes)
  {
    k != [] && Unpadded(k) && ':' !in k
  }

  lemma TrimAfterSpace(v: Bytes)
    requires Unpadded(v)
    ensures Trim(" " + v) == v
  {
    var s := " " + v;
    if v != [] {
      assert s[|s| - 1] == v[|v| - 1];
      assert TrimRight(s) == s;
      assert s[1..] == v;
    } else {
      assert TrimRight(s) == [];
    }
  }

  lemma TypeKeywordFound()
    ensures IsHeaderKeyword(TypeKeyword) && Djb2a(TypeKeyword) == TypeSh && TypeSh in HeaderShs
  {
    TypeHash();
  }

  lemma LabelKeywordFound()
    ensures IsHeaderKeyword(LabelKeyword) && Djb2a(LabelKeyword) == LabelSh && LabelSh in HeaderShs
  {
    LabelHash();
  }

  lemma NamesKeywordFound()
    ensures IsHeaderKeyword(NamesKeyword) && Djb2a(NamesKeyword) == UseContextVariableNamesSh && UseContextVariableNamesSh in HeaderShs
  {
    UseContextVariableNamesHash();
  }

  lemma ModificationKeywordFound()
    ensures IsHeaderKeyword(ModificationKeyword) && Djb2a(ModificationKeyword) == TimeOfLastModificationSh && TimeOfLastModificationSh in HeaderShs
  {
    TimeOfLastModificationHash();
  }

  lemma ExecutionKeywordFound()
    ensures IsHeaderKeyword(ExecutionKeyword) && Djb2a(ExecutionKeyword) == TimeOfLastExecutionSh && TimeOfLastExecutionSh in HeaderShs
  {
    TimeOfLastExecutionHash();
  }

  lemma TimeoutKeywordFound()
    ensures IsHeaderKeyword(TimeoutKeyword) && Djb2a(TimeoutKeyword) == TimeoutSh && TimeoutSh in HeaderShs
  {
    TimeoutHash();
  }

  lemma DisabledKeywordFound()
    ensures IsHeaderKeyword(DisabledKeyword) && Djb2a(DisabledKeyword) == DisabledSh && DisabledSh in HeaderShs
  {
    DisabledHash();
  }

  /** A header line as written is read as the field its keyword names, with
      the space and the value as the text after the colon. */
  lemma HeaderLineRead(rd: Deserialize.Reader, k: Bytes, h: bv64, value: Bytes,
                       parseTime: Bytes -> Option<Time>, now: Time)
    requires IsHeaderKeyword(k) && Djb2a(k) == h && h in HeaderShs
    requires !rd.loadScript && h !in rd.encountered
    ensures Deserialize.ReadStepLine(rd, HeaderLine(k, value), parseTime, now) ==
              Deserialize.ReadField(rd.(encountered := rd.encountered + {h}), h, " " + value, parseTime, now)
  {
    assert HeaderLine(k, value) == "-- " + k + ":" + (" " + value);
    Deserialize.KeywordOfHeaderLine(k, " " + value);
  }

  lemma TypeLineRead(rd: Deserialize.Reader, t: StepType, parseTime: Bytes -> Option<Time>, now: Time)
    requires !rd.loadScript && TypeSh !in rd.encountered
    ensures Deserialize.ReadStepLine(rd, HeaderLine(TypeKeyword, TypeName(t)), parseTime, now) ==
              Success(rd.(encountered := rd.encountered + {TypeSh}, step := SetType(rd.step, t, now), hasType := true))
  {
    TypeKeywordFound();
    HeaderLineRead(rd, TypeKeyword, TypeSh, TypeName(t), parseTime, now);
    TypeFieldRead(rd.(encountered := rd.encountered + {TypeSh}), t, parseTime, now);
  }

  lemma TypeFieldRead(rd: Deserialize.Reader, t: StepType, parseTime: Bytes -> Option<Time>, now: Time)
    ensures Deserialize.ReadField(rd, TypeSh, " " + TypeName(t), parseTime, now) ==
              Success(rd.(step := SetType(rd.step, t, now), hasType := true))
  {
    TrimAfterSpace(TypeName(t));
    Deserialize.ExtractTypeOfName(" " + TypeName(t), t, rd.step, now);
  }

  lemma EscapeByteEnds(c: Byte)
    requires !IsSpace(c)
    ensures EscapeByte(c) != [] && Unpadded(EscapeByte(c))
  {
  }

  /** The escape of the last byte ends the escaped text. */
  lemma {:induction false} EscapeSnoc(s: Bytes)
    requires s != []
    ensures Escape(s) == Escape(s[..|s| - 1]) + EscapeByte(s[|s| - 1])
    decreases |s|
  {
    if |s| == 1 {
      assert s[..0] == [];
    } else {
      var p := s[..|s| - 1];
      EscapeSnoc(s[1..]);
      assert s[1..][..|s| - 2] == p[1..];
      assert p[0] == s[0];
      assert Escape(p) == EscapeByte(s[0]) + Escape(p[1..]);
      AppendAssoc(EscapeByte(s[0]), Escape(p[1..]), EscapeByte(s[|s| - 1]));
    }
  }

  /** A label without whitespace at its ends keeps that property when escaped. */
  lemma EscapeUnpadded(s: Bytes)
    requires Unpadded(s)
    ensures Unpadded(Escape(s))
  {
    if s != [] {
      EscapeByteEnds(s[0]);
      EscapeByteEnds(s[|s| - 1]);
      EscapeSnoc(s);
      var e := Escape(s);
      assert e[0] == EscapeByte(s[0])[0];
      var l := EscapeByte(s[|s| - 1]);
      assert e[|e| - 1] == l[|l| - 1];
    }
  }

  lemma LabelFieldRead(rd: Deserialize.Reader, name: Bytes, parseTime: Bytes -> Option<Time>, now: Time)
    requires Unpadded(name)
    ensures Deserialize.ReadField(rd, LabelSh, " " + Escape(name), parseTime, now) ==
              Success(rd.(step := SetLabel(rd.step, name, now), hasLabel := true))
  {
    LabelValueExtracted(rd.step, name, now);
  }

  lemma LabelValueExtracted(step: Step, name: Bytes, now: Time)
    requires Unpadded(name)
    ensures Deserialize.ExtractLabel(" " + Escape(name), step, now) == SetLabel(step, name, now)
  {
    EscapeUnpadded(name);
    TrimAfterSpace(Escape(name));
    UnescapeEscape(name);
  }

  lemma LabelLineRead(rd: Deserialize.Reader, name: Bytes, parseTime: Bytes -> Option<Time>, now: Time)
    requires !rd.loadScript && LabelSh !in rd.encountered && Unpadded(name)
    ensures Deserialize.ReadStepLine(rd, HeaderLine(LabelKeyword, Escape(name)), parseTime, now) ==
              Success(rd.(encountered := rd.encountered + {LabelSh}, step := SetLabel(rd.step, name, now),
                          hasLabel := true))
  {
    LabelKeywordFound();
    HeaderLineRead(rd, LabelKeyword, LabelSh, Escape(name), parseTime, now);
    LabelFieldRead(rd.(encountered := rd.encountered + {LabelSh}), name, parseTime, now);
  }

  lemma ModificationFieldRead(rd: Deserialize.Reader, v: Bytes, t: Time, parseTime: Bytes -> Option<Time>, now: Time)
    requires parseTime(" " + v) == Some(t)
    ensures Deserialize.ReadField(rd, TimeOfLastModificationSh, " " + v, parseTime, now) ==
              Success(rd.(lastModification := t))
  {
  }

  lemma ModificationLineRead(rd: Deserialize.Reader, v: Bytes, t: Time, parseTime: Bytes -> Option<Time>, now: Time)
    requires !rd.loadScript && TimeOfLastModificationSh !in rd.encountered && parseTime(" " + v) == Some(t)
    ensures Deserialize.ReadStepLine(rd, HeaderLine(ModificationKeyword, v), parseTime, now) ==
              Success(rd.(encountered := rd.encountered + {TimeOfLastModificationSh}, lastModification := t))
  {
    ModificationKeywordFound();
    HeaderLineRead(rd, ModificationKeyword, TimeOfLastModificationSh, v, parseTime, now);
    ModificationFieldRead(rd.(encountered := rd.encountered + {TimeOfLastModificationSh}), v, t, parseTime, now);
  }

  lemma ExecutionFieldRead(rd: Deserialize.Reader, v: Bytes, t: Time, parseTime: Bytes -> Option<Time>, now: Time)
    requires parseTime(" " + v) == Some(t)
    ensures Deserialize.ReadField(rd, TimeOfLastExecutionSh, " " + v, parseTime, now) ==
              Success(rd.(step := SetTimeOfLastExecution(rd.step, t)))
  {
  }

  lemma ExecutionLineRead(rd: Deserialize.Reader, v: Bytes, t: Time, parseTime: Bytes -> Option<Time>, now: Time)
    requires !rd.loadScript && TimeOfLastExecutionSh !in rd.encountered && parseTime(" " + v) == Some(t)
    ensures Deserialize.ReadStepLine(rd, HeaderLine(ExecutionKeyword, v), parseTime, now) ==
              Success(rd.(encountered := rd.encountered + {TimeOfLastExecutionSh},
                          step := SetTimeOfLastExecution(rd.step, t)))
  {
    ExecutionKeywordFound();
    HeaderLineRead(rd, ExecutionKeyword, TimeOfLastExecutionSh, v, parseTime, now);
    ExecutionFieldRead(rd.(encountered := rd.encountered + {TimeOfLastExecutionSh}), v, t, parseTime, now);
  }

  /** `parse_timeout` reads back what the writer puts after "timeout:". */
  lemma ParseTimeoutText(t: Timeout)
    ensures Deserialize.ParseTimeout(" " + TimeoutText(t)) == Success(t)
  {
    if t == Infinity() {
      TrimAfterSpace("infinite");
    } else {
      var d := Decimal(t.ms);
      TrimAfterSpace(d);
      assert LowercaseAscii(d)[0] == d[0];
      assert LowercaseAscii("infinite")[0] == 'i';
      DecimalValue(t.ms);
    }
  }

  lemma TimeoutFieldRead(rd: Deserialize.Reader, t: Timeout, parseTime: Bytes -> Option<Time>, now: Time)
    ensures Deserialize.ReadField(rd, TimeoutSh, " " + TimeoutText(t), parseTime, now) ==
              Success(rd.(step := SetTimeout(rd.step, t)))
  {
    ParseTimeoutText(t);
  }

  lemma TimeoutLineRead(rd: Deserialize.Reader, t: Timeout, parseTime: Bytes -> Option<Time>, now: Time)
    requires !rd.loadScript && TimeoutSh !in rd.encountered
    ensures Deserialize.ReadStepLine(rd, HeaderLine(TimeoutKeyword, TimeoutText(t)), parseTime, now) ==
              Success(rd.(encountered := rd.encountered + {TimeoutSh}, step := SetTimeout(rd.step, t)))
  {
    TimeoutKeywordFound();
    HeaderLineRead(rd, TimeoutKeyword, TimeoutSh, TimeoutText(t), parseTime, now);
    TimeoutFieldRead(rd.(encountered := rd.encountered + {TimeoutSh}), t, parseTime, now);
  }

  lemma DisabledFieldRead(rd: Deserialize.Reader, d: bool, parseTime: Bytes -> Option<Time>, now: Time)
    ensures Deserialize.ReadField(rd, DisabledSh, " " + BoolText(d), parseTime, now) ==
              Success(rd.(step := SetDisabled(rd.step, d, now)))
  {
    DisabledTextRead(rd.step, d, now);
  }

  /** `extract_disabled` reads back what the writer puts after "disabled:". */
  lemma DisabledTextRead(step: Step, d: bool, now: Time)
    ensures Deserialize.ExtractDisabled(" " + BoolText(d), step, now) == Success(SetDisabled(step, d, now))
  {
    SpacedBoolText(d);
    if d {
      Deserialize.DisabledTrueExample(step, now);
    } else {
      Deserialize.DisabledFalseExample(step, now);
    }
  }

  lemma SpacedBoolText(d: bool)
    ensures " " + BoolText(d) == if d then " true" else " false"
  {
  }

  lemma DisabledLineRead(rd: Deserialize.Reader, d: bool, parseTime: Bytes -> Option<Time>, now: Time)
    requires !rd.loadScript && DisabledSh !in rd.encountered
    ensures Deserialize.ReadStepLine(rd, HeaderLine(DisabledKeyword, BoolText(d)), parseTime, now) ==
              Success(rd.(encountered := rd.encountered + {DisabledSh}, step := SetDisabled(rd.step, d, now)))
  {
    DisabledKeywordFound();
    HeaderLineRead(rd, DisabledKeyword, DisabledSh, BoolText(d), parseTime, now);
    DisabledFieldRead(rd.(encountered := rd.encountered + {DisabledSh}), d, parseTime, now);
  }

  /** A valid variable name has no whitespace, no ',' and no ']'. */
  lemma ValidNameBytes(n: Bytes)
    requires VariableNames.IsValidName(n)
    ensures Unpadded(n) && ',' !in n && ']' !in n && '\n' !in n
  {
    forall i | 0 <= i < |n| ensures n[i] != ',' && n[i] != ']' && !IsSpace(n[i]) {
      if i > 0 { assert n[i] == '_' || IsAlnum(n[i]); }
    }
  }

  lemma {:induction false} JoinAvoids(ws: seq<Bytes>, sep: Bytes, c: Byte)
    requires c !in sep && forall k :: 0 <= k < |ws| ==> c !in ws[k]
    ensures c !in Join(ws, sep)
  {
    if |ws| > 1 {
      JoinAvoids(ws[1..], sep, c);
    }
  }

  lemma NoCommaNoContains(x: Bytes)
    requires ',' !in x
    ensures !Contains(x, ",")
  {
    forall i | 0 <= i <= |x| - 1 ensures !OccursAt(x, ",", i) {
      assert x[i..i + 1] == [x[i]];
    }
  }

  /** The entries of a list of names as the split at the commas leaves
      them: the first after the prefix p, every later one after a space. */
  function NameEntries(ws: seq<Bytes>, p: Bytes): (r: seq<Bytes>)
    ensures |r| == |ws|
  {
    seq(|ws|, k requires 0 <= k < |ws| => if k == 0 then p + ws[0] else " " + ws[k])
  }

  /** Splitting names joined with ", " at the commas gives their entries. */
  lemma {:induction false} SplitJoinedNames(ws: seq<Bytes>, p: Bytes)
    requires |ws| >= 1 && ',' !in p && forall k :: 0 <= k < |ws| ==> ',' !in ws[k]
    ensures Split(p + Join(ws, ", "), ",") == NameEntries(ws, p)
    decreases |ws|
  {
    if |ws| == 1 {
      NoCommaNoContains(p + ws[0]);
      SplitWithout(p + ws[0], ",");
    } else {
      var a := p + ws[0];
      var b := " " + Join(ws[1..], ", ");
      assert Split(p + Join(ws, ", "), ",") == [a] + Split(b, ",") by {
        assert p + Join(ws, ", ") == a + "," + b;
        NoCommaNoContains(a);
        forall j | 0 <= j < |a| ensures !OccursAt(a + "," + b, ",", j) {
          assert (a + "," + b)[j..j + 1] == [a[j]];
        }
        SplitAtFirst(a, ",", b);
      }
      SplitJoinedNames(ws[1..], " ");
      NameEntriesCons(ws, p);
    }
  }

  lemma NameEntriesCons(ws: seq<Bytes>, p: Bytes)
    requires |ws| >= 2
    ensures NameEntries(ws, p) == [p + ws[0]] + NameEntries(ws[1..], " ")
  {
    var r := NameEntries(ws[1..], " ");
    forall k | 1 <= k < |ws| ensures ([p + ws[0]] + r)[k] == NameEntries(ws, p)[k] {
      assert ([p + ws[0]] + r)[k] == r[k - 1];
      assert ws[1..][k - 1] == ws[k];
      assert r[k - 1] == " " + ws[k];
    }
  }

  /** Each entry trims to its name. */
  lemma WrittenEntries(names: seq<VariableNames.VariableName>)
    requires names != []
    ensures forall k :: 0 <= k < |names| ==> Trim(NameEntries(NameStrings(names), [])[k]) == names[k].name
  {
    var ws := NameStrings(names);
    var es := NameEntries(ws, []);
    forall k | 0 <= k < |es| ensures Trim(es[k]) == names[k].name {
      ValidNameBytes(ws[k]);
      if k == 0 {
        assert es[0] == ws[0];
        TrimOfUnpadded(ws[0]);
      } else {
        TrimAfterSpace(ws[k]);
      }
    }
  }

  /** The names written in the list are read back, each one. */
  lemma CollectWrittenMembers(names: seq<VariableNames.VariableName>)
    requires names != []
    ensures Deserialize.CollectNames(NameEntries(NameStrings(names), []), []).Success?
    ensures forall n :: n in Deserialize.CollectNames(NameEntries(NameStrings(names), []), []).value <==> n in names
  {
    WrittenEntries(names);
    CollectedExactly(NameEntries(NameStrings(names), []), names);
  }

  /** Entries that trim to the given names are collected as those names. */
  lemma CollectedExactly(es: seq<Bytes>, names: seq<VariableNames.VariableName>)
    requires |es| == |names| && forall k :: 0 <= k < |names| ==> Trim(es[k]) == names[k].name
    ensures Deserialize.CollectNames(es, []).Success?
    ensures forall n :: n in Deserialize.CollectNames(es, []).value <==> n in names
  {
    var r := Deserialize.CollectNames(es, []);
    assert r.Success?;
    forall n ensures n in r.value <==> n in names {
      if n in names {
        var k :| 0 <= k < |names| && names[k] == n;
        assert Trim(es[k]) == n.name;
      }
      if n in r.value {
        var k :| 0 <= k < |es| && Trim(es[k]) == n.name;
        assert names[k].name == n.name;
        assert names[k] == VariableNames.VariableName(n.name) == n;
      }
    }
  }

  /** The names written in the list are read back as the same set. */
  lemma CollectWrittenNames(names: NameSet)
    requires names != []
    ensures Deserialize.CollectNames(Split(NamesText(names), ","), []) == Success(names)
  {
    var ws := NameStrings(names);
    var es := NameEntries(ws, []);
    assert Split(NamesText(names), ",") == es by {
      forall k | 0 <= k < |ws| ensures ',' !in ws[k] {
        ValidNameBytes(ws[k]);
      }
      SplitJoinedNames(ws, []);
      assert [] + Join(ws, ", ") == NamesText(names);
    }
    var r := Deserialize.CollectNames(es, []);
    assert r.Success? && forall n :: n in r.value <==> n in names by {
      CollectWrittenMembers(names);
    }
    SortedUnique(r.value, names, VariableNames.Key);
  }

  /** The bracketed list as the reader takes it apart: after trimming it
      starts with '[', and the first ']' is the one that closes it. */
  lemma BracketedList(j: Bytes)
    requires ']' !in j
    ensures Trim(" " + ("[" + j + "]")) == "[" + j + "]"
    ensures StartsWith("[" + j + "]", "[")
    ensures ("[" + j + "]")[1..] == j + "]"
    ensures Find(j + "]", "]") == Some(|j|) && (j + "]")[..|j|] == j
  {
    var v := "[" + j + "]";
    assert Unpadded(v) by {
      assert v[0] == '[' && v[|v| - 1] == ']';
    }
    TrimAfterSpace(v);
    assert v[..1] == "[";
    assert v[1..] == j + "]";
    FirstClosingBracket(j);
  }

  lemma FirstClosingBracket(j: Bytes)
    requires ']' !in j
    ensures Find(j + "]", "]") == Some(|j|) && (j + "]")[..|j|] == j
  {
    var inner := j + "]";
    assert OccursAt(inner, "]", |j|) by {
      assert inner[|j|] == ']';
      assert inner[|j|..|j| + 1] == [inner[|j|]];
    }
    forall i | 0 <= i < |j| ensures !OccursAt(inner, "]", i) {
      assert inner[i..i + 1] == [j[i]];
    }
    assert inner[..|j|] == j;
  }

  /** `extract_context_variable_names` on a bracketed list: the entries
      between the brackets are collected. */
  lemma ExtractBracketed(j: Bytes, step: Step)
    requires ']' !in j
    ensures Deserialize.ExtractContextVariableNames(" " + ("[" + j + "]"), step) ==
              match Deserialize.CollectNames(Split(j, ","), [])
              case Failure(msg) => Failure(msg)
              case Success(ns) => Success(if ns == [] then step else SetUsedContextVariableNames(step, ns))
  {
    BracketedList(j);
  }

  /** `extract_context_variable_names` reads back the bracketed list the
      writer puts after "use context variable names:"; an empty list leaves
      the names as they were. */
  lemma NamesListRead(names: NameSet, step: Step)
    ensures Deserialize.ExtractContextVariableNames(" " + ("[" + NamesText(names) + "]"), step) ==
              Success(if names == [] then step else SetUsedContextVariableNames(step, names))
  {
    var j := NamesText(names);
    assert ']' !in j by {
      forall k | 0 <= k < |NameStrings(names)| ensures ']' !in NameStrings(names)[k] {
        ValidNameBytes(NameStrings(names)[k]);
      }
      JoinAvoids(NameStrings(names), ", ", ']');
    }
    ExtractBracketed(j, step);
    if names == [] {
      assert j == [];
      assert Split(j, ",") == [[]] by {
        NoCommaNoContains([]);
        SplitWithout([], ",");
      }
      var none: NameSet := [];
      assert Deserialize.CollectNames([[]], none) == Success(none) by {
        var nothing: Bytes := [];
        assert Trim(nothing) == nothing;
        assert [nothing][1..] == [];
      }
    } else {
      CollectWrittenNames(names);
    }
  }

  lemma NamesFieldRead(rd: Deserialize.Reader, names: NameSet, parseTime: Bytes -> Option<Time>, now: Time)
    ensures Deserialize.ReadField(rd, UseContextVariableNamesSh, " " + ("[" + NamesText(names) + "]"), parseTime, now) ==
              Success(rd.(step := if names == [] then rd.step else SetUsedContextVariableNames(rd.step, names)))
  {
    NamesListRead(names, rd.step);
  }

  lemma NamesLineRead(rd: Deserialize.Reader, names: NameSet, parseTime: Bytes -> Option<Time>, now: Time)
    requires !rd.loadScript && UseContextVariableNamesSh !in rd.encountered
    ensures Deserialize.ReadStepLine(rd, HeaderLine(NamesKeyword, "[" + NamesText(names) + "]"), parseTime, now) ==
              Success(rd.(encountered := rd.encountered + {UseContextVariableNamesSh},
                          step := if names == [] then rd.step else SetUsedContextVariableNames(rd.step, names)))
  {
    NamesKeywordFound();
    HeaderLineRead(rd, NamesKeyword, UseContextVariableNamesSh, "[" + NamesText(names) + "]", parseTime, now);
    NamesFieldRead(rd.(encountered := rd.encountered + {UseContextVariableNamesSh}), names, parseTime, now);
  }

  // ----------------------------------------------------------------------
  // The header read back line by line

  /** The hashes of the first k header keywords. */
  function HeaderHashSet(k: nat): (r: set<bv64>)
    requires k <= |HeaderShs|
    ensures forall x :: x in r ==> x in HeaderShs
    ensures forall i :: 0 <= i < |HeaderShs| ==> (HeaderShs[i] in r <==> i < k)
  {
    if k == 0 then {}
    else
      var r := HeaderHashSet(k - 1) + {HeaderShs[k - 1]};
      assert forall i :: 0 <= i < |HeaderShs| && i != k - 1 ==> HeaderShs[i] != HeaderShs[k - 1];
      r
  }

  /** The loop state of the reader after the first k header lines of the
      file of step: the fields read so far are set, the time of last
      modification read is kept aside, and the temporary step has been
      modified now. */
  function HeaderState(step: Step, now: Time, k: nat): Deserialize.Reader
    requires k <= 7
  {
    Deserialize.Reader(false, k >= 1, k >= 2, HeaderHashSet(k),
      Step(if k >= 2 then step.stepLabel else [], [],
           if k >= 3 then step.usedContextVariableNames else [], now,
           if k >= 5 then step.timeOfLastExecution else 0,
           if k >= 6 then step.timeout else Default(),
           if k >= 1 then step.stepType else Action, 0, false, k >= 7 && step.isDisabled),
      [], if k >= 4 then step.timeOfLastModification else 0)
  }

  /** What the writer promises about the step and the calendar functions
      for its header to be read back. */
  predicate HeaderReadable(step: Step, formatTime: Time -> Bytes, parseTime: Bytes -> Option<Time>)
  {
    Unpadded(step.stepLabel) &&
    parseTime(" " + formatTime(step.timeOfLastModification)) == Some(step.timeOfLastModification) &&
    parseTime(" " + formatTime(step.timeOfLastExecution)) == Some(step.timeOfLastExecution)
  }

  /** The header lines by position. */
  lemma HeaderLinesAt(step: Step, formatTime: Time -> Bytes)
    ensures HeaderLines(step, formatTime)[0] == HeaderLine(TypeKeyword, TypeName(step.stepType))
    ensures HeaderLines(step, formatTime)[1] == HeaderLine(LabelKeyword, Escape(step.stepLabel))
    ensures HeaderLines(step, formatTime)[2] == HeaderLine(NamesKeyword, "[" + NamesText(step.usedContextVariableNames) + "]")
    ensures HeaderLines(step, formatTime)[3] == HeaderLine(ModificationKeyword, formatTime(step.timeOfLastModification))
    ensures HeaderLines(step, formatTime)[4] == HeaderLine(ExecutionKeyword, formatTime(step.timeOfLastExecution))
    ensures HeaderLines(step, formatTime)[5] == HeaderLine(TimeoutKeyword, TimeoutText(step.timeout))
    ensures HeaderLines(step, formatTime)[6] == HeaderLine(DisabledKeyword, BoolText(step.isDisabled))
  {
  }

  /** Reading header line k moves the loop state to HeaderState(k + 1). */
  lemma StateAfterType(step: Step, now: Time)
    ensures var rd := HeaderState(step, now, 0);
      TypeSh !in rd.encountered &&
      rd.(encountered := rd.encountered + {TypeSh}, step := SetType(rd.step, step.stepType, now), hasType := true) ==
      HeaderState(step, now, 1)
  {
  }

  lemma StateAfterLabel(step: Step, now: Time)
    requires Unpadded(step.stepLabel)
    ensures var rd := HeaderState(step, now, 1);
      LabelSh !in rd.encountered &&
      rd.(encountered := rd.encountered + {LabelSh}, step := SetLabel(rd.step, step.stepLabel, now), hasLabel := true) ==
      HeaderState(step, now, 2)
  {
    var rd := HeaderState(step, now, 1);
    assert HeaderShs[1] == LabelSh;
    assert HeaderHashSet(2) == rd.encountered + {LabelSh};
    assert SetLabel(rd.step, step.stepLabel, now).stepLabel == step.stepLabel by {
      TrimOfUnpadded(step.stepLabel);
    }
  }

  lemma StateAfterNames(step: Step, now: Time)
    ensures var rd := HeaderState(step, now, 2); var names := step.usedContextVariableNames;
      UseContextVariableNamesSh !in rd.encountered &&
      rd.(encountered := rd.encountered + {UseContextVariableNamesSh},
          step := if names == [] then rd.step else SetUsedContextVariableNames(rd.step, names)) ==
      HeaderState(step, now, 3)
  {
  }

  lemma StateAfterModification(step: Step, now: Time)
    ensures var rd := HeaderState(step, now, 3);
      TimeOfLastModificationSh !in rd.encountered &&
      rd.(encountered := rd.encountered + {TimeOfLastModificationSh}, lastModification := step.timeOfLastModification) ==
      HeaderState(step, now, 4)
  {
  }

  lemma StateAfterExecution(step: Step, now: Time)
    ensures var rd := HeaderState(step, now, 4);
      TimeOfLastExecutionSh !in rd.encountered &&
      rd.(encountered := rd.encountered + {TimeOfLastExecutionSh},
          step := SetTimeOfLastExecution(rd.step, step.timeOfLastExecution)) ==
      HeaderState(step, now, 5)
  {
  }

  lemma StateAfterTimeout(step: Step, now: Time)
    ensures var rd := HeaderState(step, now, 5);
      TimeoutSh !in rd.encountered &&
      rd.(encountered := rd.encountered + {TimeoutSh}, step := SetTimeout(rd.step, step.timeout)) ==
      HeaderState(step, now, 6)
  {
  }

  lemma StateAfterDisabled(step: Step, now: Time)
    ensures var rd := HeaderState(step, now, 6);
      DisabledSh !in rd.encountered &&
      rd.(encountered := rd.encountered + {DisabledSh}, step := SetDisabled(rd.step, step.isDisabled, now)) ==
      HeaderState(step, now, 7)
  {
  }

  lemma HeaderStep0(step: Step, formatTime: Time -> Bytes, parseTime: Bytes -> Option<Time>, now: Time)
    requires HeaderReadable(step, formatTime, parseTime)
    ensures Deserialize.ReadStepLine(HeaderState(step, now, 0), HeaderLines(step, formatTime)[0], parseTime, now) ==
              Success(HeaderState(step, now, 1))
  {
    HeaderLinesAt(step, formatTime);
    StateAfterType(step, now);
    TypeLineRead(HeaderState(step, now, 0), step.stepType, parseTime, now);
  }

  lemma HeaderStep1(step: Step, formatTime: Time -> Bytes, parseTime: Bytes -> Option<Time>, now: Time)
    requires HeaderReadable(step, formatTime, parseTime)
    ensures Deserialize.ReadStepLine(HeaderState(step, now, 1), HeaderLines(step, formatTime)[1], parseTime, now) ==
              Success(HeaderState(step, now, 2))
  {
    HeaderLinesAt(step, formatTime);
    StateAfterLabel(step, now);
    LabelLineRead(HeaderState(step, now, 1), step.stepLabel, parseTime, now);
  }

  lemma HeaderStep2(step: Step, formatTime: Time -> Bytes, parseTime: Bytes -> Option<Time>, now: Time)
    requires HeaderReadable(step, formatTime, parseTime)
    ensures Deserialize.ReadStepLine(HeaderState(step, now, 2), HeaderLines(step, formatTime)[2], parseTime, now) ==
              Success(HeaderState(step, now, 3))
  {
    HeaderLinesAt(step, formatTime);
    StateAfterNames(step, now);
    NamesLineRead(HeaderState(step, now, 2), step.usedContextVariableNames, parseTime, now);
  }

  lemma HeaderStep3(step: Step, formatTime: Time -> Bytes, parseTime: Bytes -> Option<Time>, now: Time)
    requires HeaderReadable(step, formatTime, parseTime)
    ensures Deserialize.ReadStepLine(HeaderState(step, now, 3), HeaderLines(step, formatTime)[3], parseTime, now) ==
              Success(HeaderState(step, now, 4))
  {
    HeaderLinesAt(step, formatTime);
    StateAfterModification(step, now);
    ModificationLineRead(HeaderState(step, now, 3), formatTime(step.timeOfLastModification),
                         step.timeOfLastModification, parseTime, now);
  }

  lemma HeaderStep4(step: Step, formatTime: Time -> Bytes, parseTime: Bytes -> Option<Time>, now: Time)
    requires HeaderReadable(step, formatTime, parseTime)
    ensures Deserialize.ReadStepLine(HeaderState(step, now, 4), HeaderLines(step, formatTime)[4], parseTime, now) ==
              Success(HeaderState(step, now, 5))
  {
    HeaderLinesAt(step, formatTime);
    StateAfterExecution(step, now);
    ExecutionLineRead(HeaderState(step, now, 4), formatTime(step.timeOfLastExecution),
                      step.timeOfLastExecution, parseTime, now);
  }

  lemma HeaderStep5(step: Step, formatTime: Time -> Bytes, parseTime: Bytes -> Option<Time>, now: Time)
    requires HeaderReadable(step, formatTime, parseTime)
    ensures Deserialize.ReadStepLine(HeaderState(step, now, 5), HeaderLines(step, formatTime)[5], parseTime, now) ==
              Success(HeaderState(step, now, 6))
  {
    HeaderLinesAt(step, formatTime);
    StateAfterTimeout(step, now);
    TimeoutLineRead(HeaderState(step, now, 5), step.timeout, parseTime, now);
  }

  lemma HeaderStep6(step: Step, formatTime: Time -> Bytes, parseTime: Bytes -> Option<Time>, now: Time)
    requires HeaderReadable(step, formatTime, parseTime)
    ensures Deserialize.ReadStepLine(HeaderState(step, now, 6), HeaderLines(step, formatTime)[6], parseTime, now) ==
              Success(HeaderState(step, now, 7))
  {
    HeaderLinesAt(step, formatTime);
    StateAfterDisabled(step, now);
    DisabledLineRead(HeaderState(step, now, 6), step.isDisabled, parseTime, now);
  }

  lemma HeaderStepAt(step: Step, formatTime: Time -> Bytes, parseTime: Bytes -> Option<Time>, now: Time, k: nat)
    requires k < 7 && HeaderReadable(step, formatTime, parseTime)
    ensures Deserialize.ReadStepLine(HeaderState(step, now, k), HeaderLines(step, formatTime)[k], parseTime, now) ==
              Success(HeaderState(step, now, k + 1))
  {
    if k == 0 { HeaderStep0(step, formatTime, parseTime, now); }
    else if k == 1 { HeaderStep1(step, formatTime, parseTime, now); }
    else if k == 2 { HeaderStep2(step, formatTime, parseTime, now); }
    else if k == 3 { HeaderStep3(step, formatTime, parseTime, now); }
    else if k == 4 { HeaderStep4(step, formatTime, parseTime, now); }
    else if k == 5 { HeaderStep5(step, formatTime, parseTime, now); }
    else { HeaderStep6(step, formatTime, parseTime, now); }
  }

  /** The reader reaches HeaderState(k) after the first k header lines. */
  lemma {:induction false} HeaderPrefixRead(step: Step, formatTime: Time -> Bytes, parseTime: Bytes -> Option<Time>,
                                            now: Time, k: nat)
    requires k <= 7 && HeaderReadable(step, formatTime, parseTime)
    ensures Deserialize.ReadLines(Deserialize.StartReader(now), HeaderLines(step, formatTime)[..k], parseTime, now) ==
              Success(HeaderState(step, now, k))
  {
    var ls := HeaderLines(step, formatTime);
    if k == 0 {
      assert ls[..0] == [];
      assert HeaderState(step, now, 0) == Deserialize.StartReader(now);
    } else {
      HeaderPrefixRead(step, formatTime, parseTime, now, k - 1);
      Deserialize.ReadLinesStep(Deserialize.StartReader(now), ls, k - 1, parseTime, now);
      HeaderStepAt(step, formatTime, parseTime, now, k - 1);
    }
  }

  /** Reading a + b is reading a, then b from where a left off. */
  lemma {:induction false} ReadLinesAppend(rd: Deserialize.Reader, a: seq<Bytes>, b: seq<Bytes>,
                                           parseTime: Bytes -> Option<Time>, now: Time)
    ensures Deserialize.ReadLines(rd, a + b, parseTime, now) ==
              match Deserialize.ReadLines(rd, a, parseTime, now)
              case Failure(e) => Failure(e)
              case Success(r) => Deserialize.ReadLines(r, b, parseTime, now)
    decreases |b|
  {
    if b == [] {
      assert a + b == a;
    } else {
      var init := b[..|b| - 1];
      ReadLinesAppend(rd, a, init, parseTime, now);
      assert (a + b)[..|a + b| - 1] == a + init;
      assert (a + b)[|a + b| - 1] == b[|b| - 1];
    }
  }

  lemma HeaderLineNoNewline(keyword: Bytes, value: Bytes)
    requires '\n' !in keyword && '\n' !in value
    ensures '\n' !in HeaderLine(keyword, value)
  {
  }

  lemma LowerNoNewline(r: Bytes)
    requires forall i :: 0 <= i < |r| ==> IsLower(r[i])
    ensures '\n' !in r
  {
  }

  lemma DigitsNoNewline(r: Bytes)
    requires AllDigits(r)
    ensures '\n' !in r
  {
  }

  lemma EscapeNoNewline(s: Bytes)
    ensures '\n' !in Escape(s)
  {
  }

  /** The keywords are single lines. */
  lemma KeywordsNoNewline()
    ensures '\n' !in TypeKeyword && '\n' !in LabelKeyword && '\n' !in NamesKeyword
    ensures '\n' !in ModificationKeyword && '\n' !in ExecutionKeyword
    ensures '\n' !in TimeoutKeyword && '\n' !in DisabledKeyword
  {
  }

  lemma NamesListNoNewline(names: seq<VariableNames.VariableName>)
    ensures '\n' !in "[" + NamesText(names) + "]"
  {
    var ws := NameStrings(names);
    forall k | 0 <= k < |ws| ensures '\n' !in ws[k] {
      ValidNameBytes(ws[k]);
    }
    JoinAvoids(ws, ", ", '\n');
  }

  /** No header line holds a '\n' when the calendar form of a time has none. */
  lemma HeaderLinesNoNewline(step: Step, formatTime: Time -> Bytes)
    requires '\n' !in formatTime(step.timeOfLastModification) && '\n' !in formatTime(step.timeOfLastExecution)
    ensures forall k :: 0 <= k < |HeaderLines(step, formatTime)| ==> '\n' !in HeaderLines(step, formatTime)[k]
  {
    var ls := HeaderLines(step, formatTime);
    HeaderLinesAt(step, formatTime);
    KeywordsNoNewline();
    assert '\n' !in ls[0] by {
      LowerNoNewline(TypeName(step.stepType));
      HeaderLineNoNewline(TypeKeyword, TypeName(step.stepType));
    }
    assert '\n' !in ls[1] by {
      EscapeNoNewline(step.stepLabel);
      HeaderLineNoNewline(LabelKeyword, Escape(step.stepLabel));
    }
    assert '\n' !in ls[2] by {
      NamesListNoNewline(step.usedContextVariableNames);
      HeaderLineNoNewline(NamesKeyword, "[" + NamesText(step.usedContextVariableNames) + "]");
    }
    assert '\n' !in ls[3] by {
      HeaderLineNoNewline(ModificationKeyword, formatTime(step.timeOfLastModification));
    }
    assert '\n' !in ls[4] by {
      HeaderLineNoNewline(ExecutionKeyword, formatTime(step.timeOfLastExecution));
    }
    assert '\n' !in ls[5] by {
      if step.timeout != Infinity() {
        DigitsNoNewline(Decimal(step.timeout.ms));
      }
      HeaderLineNoNewline(TimeoutKeyword, TimeoutText(step.timeout));
    }
    assert '\n' !in ls[6] by {
      HeaderLineNoNewline(DisabledKeyword, BoolText(step.isDisabled));
    }
  }

  /** The first line the reader finds in a script written with its final
      '\n'. */
  function FirstLine(script: Bytes): Bytes
  {
    Deserialize.Lines(script + "\n")[0]
  }

  /** A script the reader takes back whole: empty, or its first line is
      neither blank nor a header keyword line (the reader would skip the one
      and take the other as a header field). */
  predicate ScriptReadable(script: Bytes)
  {
    script == [] ||
    (!Deserialize.IsBlank(FirstLine(script)) &&
     Djb2a(Deserialize.ExtractKeyword(FirstLine(script)).0) !in HeaderShs)
  }

  /** An empty script leaves a single empty line, which the reader skips. */
  lemma EmptyScriptRead(rd: Deserialize.Reader, script: Bytes, parseTime: Bytes -> Option<Time>, now: Time)
    requires !rd.loadScript && script == []
    ensures Deserialize.ReadLines(rd, Deserialize.Lines(script + "\n"), parseTime, now) == Success(rd)
  {
    var nothing: Bytes := [];
    assert script + "\n" == "\n";
    Deserialize.LinesCons(nothing, nothing);
    assert nothing + "\n" + nothing == "\n";
    assert Deserialize.Lines("\n") == [nothing];
    assert [nothing][..0] == [];
    assert Deserialize.IsBlank(nothing);
    Deserialize.BlankLineSkipped(rd, nothing, parseTime, now);
  }

  /** A line neither blank nor a header keyword line starts the script. */
  lemma FirstScriptLineRead(rd: Deserialize.Reader, first: Bytes, h: bv64, parseTime: Bytes -> Option<Time>, now: Time)
    requires !rd.loadScript && (forall x :: x in rd.encountered ==> x in HeaderShs)
    requires !Deserialize.IsBlank(first)
    requires h == Djb2a(Deserialize.ExtractKeyword(first).0) && h !in HeaderShs
    ensures Deserialize.ReadLines(rd, [first], parseTime, now) ==
              Success(rd.(loadScript := true, encountered := rd.encountered + {h}, script := rd.script + first + "\n"))
  {
    assert [first][..0] == [];
    Deserialize.OtherLineStartsScript(rd, first, parseTime, now);
  }

  /** Once a reads to r, reading a + b is reading b from r. */
  lemma ReadLinesAfter(rd: Deserialize.Reader, a: seq<Bytes>, b: seq<Bytes>, r: Deserialize.Reader,
                       parseTime: Bytes -> Option<Time>, now: Time)
    requires Deserialize.ReadLines(rd, a, parseTime, now) == Success(r)
    ensures Deserialize.ReadLines(rd, a + b, parseTime, now) == Deserialize.ReadLines(r, b, parseTime, now)
  {
    ReadLinesAppend(rd, a, b, parseTime, now);
  }

  lemma UnlinesAfter(p: Bytes, lines: seq<Bytes>)
    requires lines != []
    ensures p + lines[0] + "\n" + Deserialize.Unlines(lines[1..]) == p + Deserialize.Unlines(lines)
  {
  }

  /** After a first line that starts the script, the rest is read from
      the state that line leaves. */
  lemma ScriptStart(rd: Deserialize.Reader, lines: seq<Bytes>, h: bv64, parseTime: Bytes -> Option<Time>, now: Time)
    requires !rd.loadScript && (forall x :: x in rd.encountered ==> x in HeaderShs)
    requires lines != [] && !Deserialize.IsBlank(lines[0])
    requires h == Djb2a(Deserialize.ExtractKeyword(lines[0]).0) && h !in HeaderShs
    ensures Deserialize.ReadLines(rd, lines, parseTime, now) ==
              Deserialize.ReadLines(rd.(loadScript := true, encountered := rd.encountered + {h},
                                        script := rd.script + lines[0] + "\n"), lines[1..], parseTime, now)
  {
    assert lines == [lines[0]] + lines[1..];
    FirstScriptLineRead(rd, lines[0], h, parseTime, now);
    ReadLinesAfter(rd, [lines[0]], lines[1..],
                   rd.(loadScript := true, encountered := rd.encountered + {h}, script := rd.script + lines[0] + "\n"),
                   parseTime, now);
  }

  /** Lines whose first is neither blank nor a header keyword line: that
      line starts the script and every line is kept. */
  lemma ScriptLinesRead(rd: Deserialize.Reader, lines: seq<Bytes>, h: bv64,
                        parseTime: Bytes -> Option<Time>, now: Time)
    requires !rd.loadScript && (forall x :: x in rd.encountered ==> x in HeaderShs)
    requires lines != [] && !Deserialize.IsBlank(lines[0])
    requires h == Djb2a(Deserialize.ExtractKeyword(lines[0]).0) && h !in HeaderShs
    ensures Deserialize.ReadLines(rd, lines, parseTime, now) ==
              Success(rd.(loadScript := true, encountered := rd.encountered + {h},
                          script := rd.script + Deserialize.Unlines(lines)))
  {
    var rd1 := rd.(loadScript := true, encountered := rd.encountered + {h}, script := rd.script + lines[0] + "\n");
    ScriptStart(rd, lines, h, parseTime, now);
    Deserialize.ScriptKeepsEveryLine(rd1, lines[1..], parseTime, now);
    UnlinesAfter(rd.script, lines);
  }

  /** A readable script that is not empty starts the script at its first
      line and is kept whole, with its final '\n'. */
  lemma ScriptTextRead(rd: Deserialize.Reader, script: Bytes, parseTime: Bytes -> Option<Time>, now: Time)
    requires !rd.loadScript && (forall x :: x in rd.encountered ==> x in HeaderShs) && rd.script == []
    requires script != [] && ScriptReadable(script)
    ensures Deserialize.ReadLines(rd, Deserialize.Lines(script + "\n"), parseTime, now) ==
              Success(rd.(loadScript := true,
                          encountered := rd.encountered + {Djb2a(Deserialize.ExtractKeyword(FirstLine(script)).0)},
                          script := script + "\n"))
  {
    ScriptLinesRead(rd, Deserialize.Lines(script + "\n"), Djb2a(Deserialize.ExtractKeyword(FirstLine(script)).0),
                    parseTime, now);
    ScriptUnlines(rd.script, script);
  }

  lemma ScriptUnlines(p: Bytes, script: Bytes)
    requires p == []
    ensures p + Deserialize.Unlines(Deserialize.Lines(script + "\n")) == script + "\n"
  {
    Deserialize.UnlinesOfLines(script + "\n");
  }

  /** The step the reader gives back for a written step: the same step,
      except that it is not running and at level 0, and that a time of last
      modification of 0 (none) becomes now. */
  function ReadBack(step: Step, now: Time): Step
  {
    step.(timeOfLastModification := if step.timeOfLastModification != 0 then step.timeOfLastModification else now,
          indentationLevel := 0, isRunning := false)
  }

  /** The file's lines are the header lines, then the lines of the script. */
  lemma StepTextLines(step: Step, formatTime: Time -> Bytes)
    requires '\n' !in formatTime(step.timeOfLastModification) && '\n' !in formatTime(step.timeOfLastExecution)
    ensures Deserialize.Lines(StepText(step, formatTime)) ==
              HeaderLines(step, formatTime) + Deserialize.Lines(step.script + "\n")
  {
    HeaderLinesNoNewline(step, formatTime);
    assert StepText(step, formatTime) == Deserialize.Unlines(HeaderLines(step, formatTime)) + (step.script + "\n");
    Deserialize.LinesAppendUnlines(HeaderLines(step, formatTime), step.script + "\n");
  }

  lemma HeaderLinesWhole(step: Step, formatTime: Time -> Bytes)
    ensures HeaderLines(step, formatTime)[..7] == HeaderLines(step, formatTime)
  {
  }

  /** After the header lines the reader goes on from HeaderState(7). */
  lemma HeadersRead(step: Step, formatTime: Time -> Bytes, parseTime: Bytes -> Option<Time>, now: Time,
                    tail: seq<Bytes>)
    requires HeaderReadable(step, formatTime, parseTime)
    ensures Deserialize.ReadLines(Deserialize.StartReader(now), HeaderLines(step, formatTime) + tail, parseTime, now) ==
              Deserialize.ReadLines(HeaderState(step, now, 7), tail, parseTime, now)
  {
    HeaderPrefixRead(step, formatTime, parseTime, now, 7);
    HeaderLinesWhole(step, formatTime);
    ReadLinesAfter(Deserialize.StartReader(now), HeaderLines(step, formatTime), tail, HeaderState(step, now, 7),
                   parseTime, now);
  }

  /** The checks after the loop pass on the state the header and the script
      leave, and give the step back. */
  lemma FinishWrittenStep(step: Step, now: Time, rd: Deserialize.Reader)
    requires rd.hasType && rd.hasLabel && rd.step == HeaderState(step, now, 7).step
    requires rd.lastModification == step.timeOfLastModification
    requires rd.script == (if step.script == [] then [] else step.script + "\n")
    ensures Deserialize.FinishStep(rd, now) == Success(ReadBack(step, now))
  {
    var r := Deserialize.FinishStep(rd, now);
    assert r.value.script == step.script by {
      if step.script != [] {
        assert rd.script[..|rd.script| - 1] == step.script;
      }
    }
  }

  /** Reading the script's lines from HeaderState(7) and finishing gives
      the step back. */
  predicate ScriptReadsBack(step: Step, parseTime: Bytes -> Option<Time>, now: Time)
  {
    var r := Deserialize.ReadLines(HeaderState(step, now, 7), Deserialize.Lines(step.script + "\n"), parseTime, now);
    r.Success? && Deserialize.FinishStep(r.value, now) == Success(ReadBack(step, now))
  }

  lemma WrittenEmptyScriptRead(step: Step, parseTime: Bytes -> Option<Time>, now: Time)
    requires step.script == []
    ensures ScriptReadsBack(step, parseTime, now)
  {
    EmptyScriptRead(HeaderState(step, now, 7), step.script, parseTime, now);
    FinishWrittenStep(step, now, HeaderState(step, now, 7));
  }

  lemma WrittenTextScriptRead(step: Step, parseTime: Bytes -> Option<Time>, now: Time)
    requires step.script != [] && ScriptReadable(step.script)
    ensures ScriptReadsBack(step, parseTime, now)
  {
    var rd := HeaderState(step, now, 7);
    ScriptTextRead(rd, step.script, parseTime, now);
    var h := Djb2a(Deserialize.ExtractKeyword(FirstLine(step.script)).0);
    FinishWrittenStep(step, now, rd.(loadScript := true, encountered := rd.encountered + {h},
                                     script := step.script + "\n"));
  }

  /** The script after the header is read back whole and the step is
      complete. */
  lemma WrittenScriptRead(step: Step, parseTime: Bytes -> Option<Time>, now: Time)
    requires ScriptReadable(step.script)
    ensures ScriptReadsBack(step, parseTime, now)
  {
    if step.script == [] {
      WrittenEmptyScriptRead(step, parseTime, now);
    } else {
      WrittenTextScriptRead(step, parseTime, now);
    }
  }

  /** Reading a written step file gives the step back, provided the calendar
      functions read back what they write and the script's first line is
      neither blank nor a header keyword line. */
  lemma ReadWrittenStep(step: Step, formatTime: Time -> Bytes, parseTime: Bytes -> Option<Time>, now: Time)
    requires HeaderReadable(step, formatTime, parseTime)
    requires '\n' !in formatTime(step.timeOfLastModification) && '\n' !in formatTime(step.timeOfLastExecution)
    requires ScriptReadable(step.script)
    ensures Deserialize.ReadStepText(StepText(step, formatTime), parseTime, now) == Success(ReadBack(step, now))
  {
    var tail := Deserialize.Lines(step.script + "\n");
    StepTextLines(step, formatTime);
    HeadersRead(step, formatTime, parseTime, now, tail);
    WrittenScriptRead(step, parseTime, now);
  }
}
