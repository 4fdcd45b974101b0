/** UniqueId: an unsigned 64-bit number that identifies a sequence, written
    as 16 lowercase hexadecimal digits.  `from_string` as written accepts any
    string that merely starts with a hexadecimal number; the documented rule
    is that the whole string must be one, and the rest of the model uses
    that. */
module UniqueIds {
  import opened Wrappers
  import opened Text

  const U64Limit: int := 0x1_0000_0000_0000_0000
  type U64 = x: int | 0 <= x < U64Limit

  datatype UniqueId = UniqueId(id: U64)

  /** Two hexadecimal digits per byte of the value type. */
  const MaxDigits: nat := 16

  function Pow16(k: nat): (p: nat)
    ensures p >= 1
  {
    if k == 0 then 1 else 16 * Pow16(k - 1)
  }

  predicate AllHex(s: Bytes)
  {
    forall i :: 0 <= i < |s| ==> IsHexDigit(s[i])
  }

  /** The value of a string of hexadecimal digits, in either case. */
  function HexValueOf(s: Bytes): nat
    requires AllHex(s)
  {
    if s == [] then 0
    else HexValueOf(s[..|s| - 1]) * 16 + HexValue(s[|s| - 1])
  }

  lemma {:induction false} HexValueBound(s: Bytes)
    requires AllHex(s)
    ensures HexValueOf(s) < Pow16(|s|)
  {
    if s != [] {
      HexValueBound(s[..|s| - 1]);
    }
  }

  /** Length of the leading run of hexadecimal digits, where from_chars
      stops. */
  function HexPrefixLength(s: Bytes): (n: nat)
    ensures n <= |s| && AllHex(s[..n])
    ensures n < |s| ==> !IsHexDigit(s[n])
  {
    if s == [] || !IsHexDigit(s[0]) then 0
    else
      var k := HexPrefixLength(s[1..]);
      assert s[..k + 1] == [s[0]] + s[1..][..k];
      k + 1
  }

  /** `from_string` as written: the length test, then std::from_chars in
      base 16, which fails only when no digit comes first; whatever follows
      the digits is ignored. */
  function FromStringAsWritten(str: Bytes): (r: Option<UniqueId>)
    ensures r.Some? <==> 0 < |str| <= MaxDigits && IsHexDigit(str[0])
    ensures r.Some? ==> r.value.id == HexValueOf(str[..HexPrefixLength(str)])
  {
    if |str| == 0 || |str| > MaxDigits then None
    else
      var n := HexPrefixLength(str);
      if n == 0 then None
      else
        HexValueBound(str[..n]);
        PowMonotone(n, MaxDigits);
        Pow16OfMaxDigits();
        Some(UniqueId(HexValueOf(str[..n])))
  }

  lemma Pow16OfMaxDigits()
    ensures Pow16(MaxDigits) == U64Limit
  {
    assert Pow16(2) == 0x100;
    assert Pow16(4) == 0x1_0000;
    assert Pow16(6) == 0x100_0000;
    assert Pow16(8) == 0x1_0000_0000;
    assert Pow16(10) == 0x100_0000_0000;
    assert Pow16(12) == 0x1_0000_0000_0000;
    assert Pow16(14) == 0x100_0000_0000_0000;
  }

  lemma {:induction false} PowMonotone(a: nat, b: nat)
    requires a <= b
    ensures Pow16(a) <= Pow16(b)
  {
    if a < b { PowMonotone(a, b - 1); }
  }

  /** `from_string` as documented: 1 to 16 hexadecimal digits and nothing
      else. */
  function FromString(str: Bytes): (r: Option<UniqueId>)
    ensures r.Some? <==> 0 < |str| <= MaxDigits && AllHex(str)
    ensures r.Some? ==> r.value.id == HexValueOf(str)
    ensures r.Some? ==> r == FromStringAsWritten(str)
  {
    match FromStringAsWritten(str)
    case None => None
    case Some(u) =>
      if HexPrefixLength(str) == |str| then
        assert str[..|str|] == str;
        Some(u)
      else None
  }

  /** A "0x" prefix is accepted as written ("0x1" reads as 0) although it is
      documented as not allowed; the documented rule rejects it. */
  lemma HexPrefixAcceptedAsWritten()
    ensures FromStringAsWritten("0x1") == Some(UniqueId(0))
    ensures FromString("0x1") == None
  {
    assert HexPrefixLength("0x1") == 1;
    assert ("0x1")[..1] == "0";
  }

  /** The n lowest hexadecimal digits of v, most significant first, in
      lowercase (hex_string). */
  function HexDigits(v: nat, n: nat): (r: Bytes)
    ensures |r| == n && AllHex(r)
    ensures forall i :: 0 <= i < n ==> !IsUpper(r[i])
  {
    if n == 0 then [] else HexDigits(v / 16, n - 1) + [HexDigit(v % 16)]
  }

  lemma {:induction false} HexDigitsValue(v: nat, n: nat)
    requires v < Pow16(n)
    ensures HexValueOf(HexDigits(v, n)) == v
  {
    if n > 0 {
      var r := HexDigits(v, n);
      assert r[..n - 1] == HexDigits(v / 16, n - 1);
      HexDigitsValue(v / 16, n - 1);
      HexValueOfDigit(v % 16);
    }
  }

  /** `to_string(uid)`: exactly 16 lowercase hexadecimal digits. */
  function ToString(u: UniqueId): (r: Bytes)
    ensures |r| == MaxDigits && AllHex(r)
    ensures forall i :: 0 <= i < |r| ==> !IsUpper(r[i])
  {
    HexDigits(u.id, MaxDigits)
  }

  /** Reading back the written form gives the same id, by either version of
      from_string. */
  lemma RoundTrip(u: UniqueId)
    ensures FromString(ToString(u)) == Some(u)
    ensures FromStringAsWritten(ToString(u)) == Some(u)
  {
    Pow16OfMaxDigits();
    HexDigitsValue(u.id, MaxDigits);
  }

  /** Distinct ids are written differently. */
  lemma ToStringInjective(a: UniqueId, b: UniqueId)
    ensures ToString(a) == ToString(b) <==> a == b
  {
    RoundTrip(a);
    RoundTrip(b);
  }

  /** Examples from the test suite. */
  lemma FromStringExamples()
    ensures FromString("1234") == Some(UniqueId(0x1234))
    ensures FromString("") == None && FromString("gabbagabba") == None
    ensures FromString("0123456789abcdef0") == None
  {
    assert HexValueOf("1") == 1;
    assert ("12")[..1] == "1";
    assert HexValueOf("12") == 0x12;
    assert ("123")[..2] == "12";
    assert HexValueOf("123") == 0x123;
    assert ("1234")[..3] == "123";
    assert HexValueOf("1234") == 0x1234;
    assert !IsHexDigit(("gabbagabba")[0]);
  }
}
