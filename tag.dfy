/** Tag: a label attached to a sequence, 1 to 32 bytes of lowercase letters,
    digits and '-'.  Uppercase ASCII letters are folded to lowercase before
    the check, so tags compare case-insensitively. */
module Tags {
  import opened Wrappers
  import opened Text
  import opened Ordering

  const MaxLength: nat := 32

  /** `Tag::valid_characters`. */
  predicate IsValidChar(c: char)
  {
    IsLower(c) || IsDigit(c) || c == '-'
  }

  predicate IsValid(name: Bytes)
  {
    0 < |name| <= MaxLength && forall i :: 0 <= i < |name| ==> IsValidChar(name[i])
  }

  type Name = s: Bytes | IsValid(s) witness "a"

  datatype Tag = Tag(name: Name)

  /** `check_validity`: emptiness, then length, then the characters. */
  function CheckValidity(name: Bytes): (r: Option<string>)
    ensures r.None? <==> IsValid(name)
    ensures name == [] ==> r == Some("Tag must not be empty")
  {
    if name == [] then Some("Tag must not be empty")
    else if |name| > MaxLength then
      Some("Tag '" + name + "' is too long: " + Decimal(|name|) + " bytes > 32 bytes")
    else if exists i :: 0 <= i < |name| && !IsValidChar(name[i]) then
      Some("Tag '" + Escape(name) + "' contains invalid characters")
    else None
  }

  /** `Tag()`: the default tag "-". */
  function Default(): (t: Tag)
    ensures t.name == "-"
  {
    Tag("-")
  }

  /** `Tag(name)`: the ASCII-lowercased name if it is valid, else the check's
      message. */
  function Create(name: Bytes): (r: Result<Tag>)
    ensures r.Success? <==> IsValid(LowercaseAscii(name))
    ensures r.Success? ==> r.value.name == LowercaseAscii(name)
    ensures r.Failure? ==> Some(r.error) == CheckValidity(LowercaseAscii(name))
  {
    var lower := LowercaseAscii(name);
    match CheckValidity(lower)
    case Some(msg) => Failure(msg)
    case None => Success(Tag(lower))
  }

  /** `from_string`: the constructor with the exception turned into None. */
  function FromString(name: Bytes): (r: Option<Tag>)
    ensures r.None? <==> Create(name).Failure?
    ensures r.Some? ==> r == Some(Create(name).value)
  {
    match Create(name)
    case Failure(_) => None
    case Success(t) => Some(t)
  }

  /** Constructing is insensitive to ASCII case: two spellings that differ
      only in case give the same tag or the same error. */
  lemma CaseInsensitive(a: Bytes, b: Bytes)
    requires EqualsNocase(a, b)
    ensures Create(a) == Create(b)
  {
  }

  /** A stored tag is its own lowercase form, so constructing a tag from a
      tag's name gives the same tag back. */
  lemma CreateOfName(t: Tag)
    ensures Create(t.name) == Success(t)
  {
    assert LowercaseAscii(t.name) == t.name;
  }

  /** Only the ASCII letters are folded: a string that is valid after folding
      holds nothing but letters, digits and '-'. */
  lemma AcceptedBytes(name: Bytes)
    requires Create(name).Success?
    ensures forall i :: 0 <= i < |name| ==> IsAlnum(name[i]) || name[i] == '-'
  {
    var lower := LowercaseAscii(name);
    forall i | 0 <= i < |name| ensures IsAlnum(name[i]) || name[i] == '-' {
      assert IsValidChar(lower[i]);
    }
  }

  function Key(t: Tag): Bytes
  {
    t.name
  }

  lemma KeyInjective()
    ensures Injective(Key)
  {
  }

  /** Examples from the test suite. */
  lemma CaseFoldingExample()
    ensures Create("Gulag") == Create("gulag") && Create("gulag").Success?
  {
    assert LowercaseAscii("gulag") == "gulag";
    assert LowercaseAscii("Gulag") == "gulag";
  }

  lemma RejectedExamples()
    ensures Create("").Failure? && Create("a b").Failure? && Create(".abcd").Failure?
  {
    assert LowercaseAscii("a b")[1] == ' ';
    assert LowercaseAscii(".abcd")[0] == '.';
  }
}
