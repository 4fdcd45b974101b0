/** SequenceName: the machine-readable name of a sequence, at most 64 bytes
    of letters, digits, '-', '_' and '.'.  The class documentation and the
    tests also forbid a leading period, which the validity check as written
    does not test; both versions are modelled here and the rest of the model
    uses the documented one. */
module SequenceNames {
  import opened Wrappers
  import opened Text

  const MaxLength: nat := 64

  /** `SequenceName::valid_characters`. */
  predicate IsValidChar(c: char)
  {
    IsAlnum(c) || c == '-' || c == '_' || c == '.'
  }

  predicate AllValidChars(s: Bytes)
  {
    forall i :: 0 <= i < |s| ==> IsValidChar(s[i])
  }

  /** The index of the first byte outside the valid set
      (`find_first_not_of(valid_characters)`), or None. */
  function FirstInvalid(s: Bytes): (r: Option<nat>)
    ensures r.None? <==> AllValidChars(s)
    ensures r.Some? ==> r.value < |s| && !IsValidChar(s[r.value]) &&
                        AllValidChars(s[..r.value])
  {
    if s == [] then None
    else if !IsValidChar(s[0]) then Some(0)
    else match FirstInvalid(s[1..])
      case None => None
      case Some(k) =>
        assert s[..k + 1] == [s[0]] + s[1..][..k];
        Some(k + 1)
  }

  /** `check_validity` exactly as written: the length test, then the
      character test. */
  function CheckValidityAsWritten(str: Bytes): (r: Option<string>)
    ensures r.None? <==> |str| <= MaxLength && AllValidChars(str)
  {
    if |str| > MaxLength then
      Some("Sequence name '" + str + "' is too long: " + Decimal(|str|) + " bytes > 64 bytes")
    else if FirstInvalid(str).Some? then
      Some("Sequence name '" + Escape(str) + "' contains invalid characters")
    else None
  }

  /** The documented rule, which also rejects a leading period. */
  predicate IsValid(str: Bytes)
  {
    |str| <= MaxLength && AllValidChars(str) && (str == [] || str[0] != '.')
  }

  /** `check_validity` with the documented leading-period test added after
      the two tests the source makes. */
  function CheckValidity(str: Bytes): (r: Option<string>)
    ensures r.None? <==> IsValid(str)
    ensures CheckValidityAsWritten(str).Some? ==> r == CheckValidityAsWritten(str)
  {
    match CheckValidityAsWritten(str)
    case Some(msg) => Some(msg)
    case None =>
      if str != [] && str[0] == '.' then
        Some("Sequence name '" + str + "' must not start with a period")
      else None
  }

  type Name = s: Bytes | IsValid(s) witness []

  datatype SequenceName = SequenceName(str: Name)

  /** `SequenceName()`: the empty name. */
  function Empty(): (n: SequenceName)
    ensures n.str == []
  {
    SequenceName([])
  }

  /** `SequenceName(str)`: stores the input unchanged (no case folding) or
      throws. */
  function Create(str: Bytes): (r: Result<SequenceName>)
    ensures r.Success? <==> IsValid(str)
    ensures r.Success? ==> r.value.str == str
    ensures r.Failure? ==> Some(r.error) == CheckValidity(str)
  {
    match CheckValidity(str)
    case Some(msg) => Failure(msg)
    case None => Success(SequenceName(str))
  }

  /** `from_string`: the constructor with the exception turned into None. */
  function FromString(str: Bytes): (r: Option<SequenceName>)
    ensures r.None? <==> Create(str).Failure?
    ensures r.Some? ==> r == Some(Create(str).value)
  {
    match Create(str)
    case Failure(_) => None
    case Success(n) => Some(n)
  }

  /** The check as written lets a name with a leading period through, although
      the documentation and the tests reject ".abcd". */
  lemma LeadingPeriodAcceptedAsWritten()
    ensures CheckValidityAsWritten(".abcd").None?
    ensures FromString(".abcd").None?
  {
    assert AllValidChars(".abcd");
    assert (".abcd")[0] == '.';
  }

  /** The name is stored as given, so names differing only in case differ. */
  lemma NoCaseFolding()
    ensures FromString("Gulag").Some? && FromString("gulag").Some?
    ensures FromString("Gulag") != FromString("gulag")
  {
    assert AllValidChars("Gulag") && AllValidChars("gulag");
    assert ("Gulag")[0] == 'G' && ("gulag")[0] == 'g';
  }

  /** The empty name is valid; a name over 64 bytes is not. */
  lemma LengthLimits(str: Bytes)
    ensures FromString([]).Some?
    ensures |str| > MaxLength ==> FromString(str).None?
  {
  }
}
