/** VariableName: the name of a context variable that a step may import and
    export.  A valid name is 1 to 64 bytes long, starts with an ASCII letter
    and continues with letters, digits and underscores. */
module VariableNames {
  import opened Wrappers
  import opened Text
  import opened Ordering

  const MaxLength: nat := 64

  /** The validity rule stated on its own. */
  predicate IsValidName(name: Bytes)
  {
    0 < |name| <= MaxLength && IsAlpha(name[0]) &&
    forall i :: 1 <= i < |name| ==> name[i] == '_' || IsAlnum(name[i])
  }

  type Name = name: Bytes | IsValidName(name) witness "a"

  datatype VariableName = VariableName(name: Name)

  /** `check_name`: the checks in the order the source makes them, each with
      its own message; None when the name is accepted. */
  function CheckName(name: Bytes): (r: Option<string>)
    ensures r.None? <==> IsValidName(name)
    ensures |name| == 0 ==> r == Some("A variable name may not be empty")
    ensures |name| > MaxLength ==>
              r == Some("Variable name \"" + name + "\" is too long (>64 characters)")
  {
    if |name| == 0 then Some("A variable name may not be empty")
    else if |name| > MaxLength then
      Some("Variable name \"" + name + "\" is too long (>64 characters)")
    else if !IsAlpha(name[0]) then
      Some("Variable name \"" + name + "\"does not start with a letter")
    else if exists i :: 1 <= i < |name| && !(name[i] == '_' || IsAlnum(name[i])) then
      Some("Variable name \"" + name + "\" contains illegal characters")
    else None
  }

  /** `VariableName(const std::string&)`: stores the input unchanged or
      throws the check's message. */
  function FromString(name: Bytes): (r: Result<VariableName>)
    ensures r.Success? <==> IsValidName(name)
    ensures r.Success? ==> r.value.name == name
    ensures r.Failure? ==> Some(r.error) == CheckName(name)
  {
    match CheckName(name)
    case Some(msg) => Failure(msg)
    case None => Success(VariableName(name))
  }

  /** `VariableName(const char*)`: a C string (the bytes before its
      terminator), where None is the null pointer. */
  function FromCString(p: Option<Bytes>): (r: Result<VariableName>)
    requires p.Some? ==> forall i :: 0 <= i < |p.value| ==> p.value[i] != '\0'
    ensures p.None? ==> r == Failure("A null pointer is not a valid variable name")
    ensures p.Some? ==> r == FromString(p.value)
  {
    if p.None? then Failure("A null pointer is not a valid variable name")
    else FromString(p.value)
  }

  /** `operator+=`: the concatenated name is checked first; on failure the
      exception leaves the original name in place, which here means the caller
      keeps `v`. */
  function Append(v: VariableName, suffix: Bytes): (r: Result<VariableName>)
    ensures r.Success? <==> IsValidName(v.name + suffix)
    ensures r.Success? ==> r.value.name == v.name + suffix
  {
    FromString(v.name + suffix)
  }

  /** Appending letters, digits and underscores to a valid name keeps it
      valid as long as it stays within 64 bytes. */
  lemma AppendWordCharacters(v: VariableName, suffix: Bytes)
    requires |v.name| + |suffix| <= MaxLength
    requires forall i :: 0 <= i < |suffix| ==> suffix[i] == '_' || IsAlnum(suffix[i])
    ensures Append(v, suffix).Success?
  {
    var n := v.name + suffix;
    forall i | 1 <= i < |n| ensures n[i] == '_' || IsAlnum(n[i]) {
      if i >= |v.name| { assert n[i] == suffix[i - |v.name|]; }
    }
  }

  /** Names the test suite rejects. */
  lemma RejectedExamples()
    ensures !IsValidName("") && !IsValidName("_a") && !IsValidName("1a") && !IsValidName("42")
    ensures !IsValidName("a c") && !IsValidName("a\tc") && !IsValidName("a-c")
    ensures !IsValidName("a+c") && !IsValidName("a\0b")
  {
    assert !IsValidName("a c") by { assert ("a c")[1] == ' '; }
    assert !IsValidName("a\tc") by { assert ("a\tc")[1] == '\t'; }
    assert !IsValidName("a-c") by { assert ("a-c")[1] == '-'; }
    assert !IsValidName("a+c") by { assert ("a+c")[1] == '+'; }
    assert !IsValidName("a\0b") by { assert ("a\0b")[1] == '\0'; }
  }

  /** Names the test suite accepts. */
  lemma AcceptedExamples()
    ensures IsValidName("a") && IsValidName("b52") && IsValidName("snake_case")
    ensures IsValidName("CamelCase")
  {
  }

  /** A name longer than 64 bytes is rejected, whatever its bytes. */
  lemma TooLongRejected(name: Bytes)
    requires |name| > MaxLength
    ensures FromString(name).Failure?
    ensures FromString(name).error == "Variable name \"" + name + "\" is too long (>64 characters)"
  {
  }

  /** Names are ordered as their strings are (operator<). */
  function Key(v: VariableName): Bytes
  {
    v.name
  }

  /** The sorted form of std::set<VariableName> is keyed by the name, and
      a name determines the variable name. */
  lemma KeyInjective()
    ensures Injective(Key)
  {
  }
}
