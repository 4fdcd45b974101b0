/** Byte strings and the small string helpers the core relies on: trimming,
    splitting, tokenizing, joining, ASCII case folding, C-style escaping and
    decimal/hexadecimal digits.  These are the helpers taskolib takes from
    its utility library; their definitions are stated here. */
module Text {
  import opened Wrappers

  /** One byte of a std::string, as a character code below 256. */
  type Byte = c: char | c as int < 256
  type Bytes = seq<Byte>

  /** The default whitespace set: space, \t, \n, \r, \a, \b, \f and \v. */
  predicate IsSpace(c: char)
  {
    c == ' ' || (7 <= c as int <= 13)
  }

  predicate IsUpper(c: char) { 'A' <= c <= 'Z' }
  predicate IsLower(c: char) { 'a' <= c <= 'z' }
  predicate IsDigit(c: char) { '0' <= c <= '9' }
  predicate IsAlpha(c: char) { IsUpper(c) || IsLower(c) }
  predicate IsAlnum(c: char) { IsAlpha(c) || IsDigit(c) }
  predicate IsHexDigit(c: char) { IsDigit(c) || 'a' <= c <= 'f' || 'A' <= c <= 'F' }

  /** A control character: a byte below 0x20, or DEL. */
  predicate IsControl(c: char) { c as int < 0x20 || c as int == 0x7F }

  predicate HasControl(s: Bytes) { exists i :: 0 <= i < |s| && IsControl(s[i]) }

  predicate AllSpace(s: Bytes) { forall i :: 0 <= i < |s| ==> IsSpace(s[i]) }

  /** The number of whitespace bytes at the start of s. */
  function LeadingSpaces(s: Bytes): (n: nat)
    ensures n <= |s|
    ensures forall i :: 0 <= i < n ==> IsSpace(s[i])
    ensures n == |s| || !IsSpace(s[n])
  {
    if s != [] && IsSpace(s[0]) then 1 + LeadingSpaces(s[1..]) else 0
  }

  /** The number of whitespace bytes at the end of s. */
  function TrailingSpaces(s: Bytes): (n: nat)
    ensures n <= |s|
    ensures forall i :: |s| - n <= i < |s| ==> IsSpace(s[i])
    ensures n == |s| || !IsSpace(s[|s| - n - 1])
  {
    if s != [] && IsSpace(s[|s| - 1]) then 1 + TrailingSpaces(s[..|s| - 1]) else 0
  }

  /** Removes the leading whitespace. */
  function TrimLeft(s: Bytes): Bytes
  {
    s[LeadingSpaces(s)..]
  }

  /** Removes the trailing whitespace. */
  function TrimRight(s: Bytes): Bytes
  {
    s[..|s| - TrailingSpaces(s)]
  }

  /** Removes whitespace at both ends. */
  function Trim(s: Bytes): Bytes
  {
    TrimLeft(TrimRight(s))
  }

  /** Trim returns the infix of s that neither starts nor ends with
      whitespace and has only whitespace around it. */
  lemma TrimIsInfix(s: Bytes)
    ensures exists i :: 0 <= i <= |s| - |Trim(s)| && Trim(s) == s[i..i + |Trim(s)|]
              && AllSpace(s[..i]) && AllSpace(s[i + |Trim(s)|..])
    ensures Trim(s) == [] || (!IsSpace(Trim(s)[0]) && !IsSpace(Trim(s)[|Trim(s)| - 1]))
  {
    var t := TrimRight(s);
    var i := LeadingSpaces(t);
    var r := t[i..];
    assert r == Trim(s);
    assert r == s[i..i + |r|];
    assert AllSpace(s[..i]) by {
      forall k | 0 <= k < i ensures IsSpace(s[..i][k]) { assert s[..i][k] == t[k]; }
    }
    assert AllSpace(s[i + |r|..]) by {
      forall k | 0 <= k < |s| - |t| ensures IsSpace(s[|t|..][k]) { assert s[|t|..][k] == s[|t| + k]; }
    }
    if r != [] {
      assert r[|r| - 1] == s[|t| - 1];
    }
  }

  lemma TrimOfUnpadded(s: Bytes)
    requires s == [] || (!IsSpace(s[0]) && !IsSpace(s[|s| - 1]))
    ensures Trim(s) == s
  {
  }

  /** Trimming twice is trimming once. */
  lemma TrimIdempotent(s: Bytes)
    ensures Trim(Trim(s)) == Trim(s)
  {
    TrimIsInfix(s);
    TrimOfUnpadded(Trim(s));
  }

  predicate StartsWith(s: Bytes, p: Bytes)
  {
    |p| <= |s| && s[..|p|] == p
  }

  /** The pattern p occurs in s at position i. */
  predicate OccursAt(s: Bytes, p: Bytes, i: int)
  {
    0 <= i && i + |p| <= |s| && s[i..i + |p|] == p
  }

  predicate Contains(s: Bytes, p: Bytes)
  {
    exists i :: 0 <= i <= |s| - |p| && OccursAt(s, p, i)
  }

  /** The first position at or after `from` where p occurs in s. */
  function FindFrom(s: Bytes, p: Bytes, from: nat): (r: Option<nat>)
    ensures r.Some? ==> from <= r.value && OccursAt(s, p, r.value)
    ensures forall j :: from <= j && (r.None? || j < r.value) ==> !OccursAt(s, p, j)
    decreases |s| - from
  {
    if from + |p| > |s| then None
    else if s[from..from + |p|] == p then Some(from)
    else FindFrom(s, p, from + 1)
  }

  function Find(s: Bytes, p: Bytes): (r: Option<nat>)
    ensures r.Some? ==> OccursAt(s, p, r.value)
    ensures r.None? <==> !Contains(s, p)
    ensures forall j :: r.Some? && 0 <= j < r.value ==> !OccursAt(s, p, j)
  {
    FindFrom(s, p, 0)
  }

  /** Concatenates the parts with sep between each adjacent pair. */
  function Join(parts: seq<Bytes>, sep: Bytes): Bytes
  {
    if |parts| == 0 then []
    else if |parts| == 1 then parts[0]
    else parts[0] + sep + Join(parts[1..], sep)
  }

  lemma JoinCons(parts: seq<Bytes>, sep: Bytes)
    requires |parts| > 1
    ensures Join(parts, sep) == parts[0] + (sep + Join(parts[1..], sep))
  {
  }

  /** Splits s at every non-overlapping occurrence of sep, scanning from the
      left; the result always has one part more than there are occurrences. */
  function Split(s: Bytes, sep: Bytes): (r: seq<Bytes>)
    requires |sep| > 0
    ensures |r| >= 1
    ensures Join(r, sep) == s
    ensures forall k :: 0 <= k < |r| ==> !Contains(r[k], sep)
    decreases |s|
  {
    match Find(s, sep)
    case None => [s]
    case Some(k) =>
      var head := s[..k];
      assert !Contains(head, sep) by {
        forall j | OccursAt(head, sep, j) ensures false {
          assert s[j..j + |sep|] == head[j..j + |sep|];
          assert OccursAt(s, sep, j);
        }
      }
      var rest := Split(s[k + |sep|..], sep);
      assert s == head + sep + s[k + |sep|..];
      [head] + rest
  }

  /** Splitting a string that does not contain the separator yields it alone. */
  lemma SplitWithout(s: Bytes, sep: Bytes)
    requires |sep| > 0 && !Contains(s, sep)
    ensures Split(s, sep) == [s]
  {
  }

  /** Splitting a.sep.b where a does not contain sep puts a first. */
  lemma {:induction false} SplitAtFirst(a: Bytes, sep: Bytes, b: Bytes)
    requires |sep| > 0 && !Contains(a, sep)
    requires forall j :: 0 <= j < |a| ==> !OccursAt(a + sep + b, sep, j)
    ensures Split(a + sep + b, sep) == [a] + Split(b, sep)
  {
    var s := a + sep + b;
    assert OccursAt(s, sep, |a|) by { assert s[|a|..|a| + |sep|] == sep; }
    var f := Find(s, sep);
    assert f == Some(|a|);
    assert s[..|a|] == a;
    assert s[|a| + |sep|..] == b;
  }

  /** Length of the leading run of non-whitespace bytes. */
  function WordLength(s: Bytes): (n: nat)
    ensures n <= |s|
    ensures forall i :: 0 <= i < n ==> !IsSpace(s[i])
    ensures n == |s| || IsSpace(s[n])
  {
    if s == [] || IsSpace(s[0]) then 0 else 1 + WordLength(s[1..])
  }

  predicate IsWord(w: Bytes)
  {
    w != [] && forall i :: 0 <= i < |w| ==> !IsSpace(w[i])
  }

  /** The maximal runs of non-whitespace bytes, in order. */
  function Tokenize(s: Bytes): (r: seq<Bytes>)
    decreases |s|
  {
    var t := TrimLeft(s);
    if t == [] then [] else [t[..WordLength(t)]] + Tokenize(t[WordLength(t)..])
  }

  /** Every token is a non-empty run of non-whitespace bytes. */
  lemma {:induction false} TokensAreWords(s: Bytes)
    ensures forall k :: 0 <= k < |Tokenize(s)| ==> IsWord(Tokenize(s)[k])
    decreases |s|
  {
    var t := TrimLeft(s);
    if t != [] {
      var n := WordLength(t);
      assert IsWord(t[..n]);
      TokensAreWords(t[n..]);
      var r := Tokenize(s);
      assert r == [t[..n]] + Tokenize(t[n..]);
      forall k | 0 <= k < |r| ensures IsWord(r[k]) {
        if k > 0 { assert r[k] == Tokenize(t[n..])[k - 1]; }
      }
    }
  }

  lemma {:induction false} WordLengthOfWord(w: Bytes, rest: Bytes)
    requires IsWord(w) && (rest == [] || IsSpace(rest[0]))
    ensures WordLength(w + rest) == |w|
    decreases |w|
  {
    var s := w + rest;
    assert s[0] == w[0] && !IsSpace(s[0]);
    assert s[1..] == w[1..] + rest;
    if |w| == 1 {
      assert s[1..] == rest;
    } else {
      assert IsWord(w[1..]) by {
        forall i | 0 <= i < |w[1..]| ensures !IsSpace(w[1..][i]) { assert w[1..][i] == w[i + 1]; }
      }
      WordLengthOfWord(w[1..], rest);
    }
  }

  /** A word followed by nothing or by whitespace is the first token. */
  lemma TokenizeWordThen(w: Bytes, rest: Bytes)
    requires IsWord(w) && (rest == [] || IsSpace(rest[0]))
    ensures Tokenize(w + rest) == [w] + Tokenize(rest)
  {
    var s := w + rest;
    WordLengthOfWord(w, rest);
    assert LeadingSpaces(s) == 0;
    assert s[..|w|] == w;
    assert s[|w|..] == rest;
  }

  lemma SpaceThenTokenize(t: Bytes)
    ensures Tokenize([' '] + t) == Tokenize(t)
  {
    var s := [' '] + t;
    assert s[1..] == t;
    assert LeadingSpaces(s) == 1 + LeadingSpaces(t);
  }

  lemma TokenizeOneWord(w: Bytes)
    requires IsWord(w)
    ensures Tokenize(Join([w], [' '])) == [w]
  {
    TokenizeWordThen(w, []);
    assert w + [] == w;
  }

  lemma TokenizeJoinCons(ws: seq<Bytes>)
    requires |ws| > 1 && IsWord(ws[0])
    requires Tokenize(Join(ws[1..], [' '])) == ws[1..]
    ensures Tokenize(Join(ws, [' '])) == ws
  {
    var w, more := ws[0], ws[1..];
    var tail := Join(more, [' ']);
    assert Join(ws, [' ']) == w + ([' '] + tail) by { JoinCons(ws, [' ']); }
    assert Tokenize(w + ([' '] + tail)) == [w] + Tokenize([' '] + tail) by {
      TokenizeWordThen(w, [' '] + tail);
    }
    assert Tokenize([' '] + tail) == more by { SpaceThenTokenize(tail); }
    assert ws == [w] + more;
  }

  /** Tokenizing words joined by single spaces gives the words back. */
  lemma {:induction false} TokenizeJoin(ws: seq<Bytes>)
    requires forall k :: 0 <= k < |ws| ==> IsWord(ws[k])
    ensures Tokenize(Join(ws, [' '])) == ws
    decreases |ws|
  {
    if |ws| == 1 {
      TokenizeOneWord(ws[0]);
    } else if |ws| > 1 {
      TokenizeJoin(ws[1..]);
      TokenizeJoinCons(ws);
    }
  }

  function LowerAscii(c: Byte): (r: Byte)
    ensures !IsUpper(r)
    ensures IsUpper(c) ==> r as int == c as int + 32
    ensures !IsUpper(c) ==> r == c
  {
    if IsUpper(c) then (c as int + 32) as char else c
  }

  /** ASCII-only lowercasing; all other bytes are kept. */
  function LowercaseAscii(s: Bytes): (r: Bytes)
    ensures |r| == |s|
    ensures forall i :: 0 <= i < |s| ==> r[i] == LowerAscii(s[i])
  {
    seq(|s|, i requires 0 <= i < |s| => LowerAscii(s[i]))
  }

  /** Case-insensitive ASCII equality. */
  predicate EqualsNocase(a: Bytes, b: Bytes)
  {
    LowercaseAscii(a) == LowercaseAscii(b)
  }

  /** The lowercase hexadecimal digit of a value below 16. */
  function HexDigit(n: nat): (c: Byte)
    requires n < 16
    ensures IsHexDigit(c) && !IsUpper(c)
  {
    if n < 10 then ('0' as int + n) as char else ('a' as int + n - 10) as char
  }

  function HexValue(c: Byte): (n: nat)
    requires IsHexDigit(c)
    ensures n < 16
  {
    if IsDigit(c) then c as int - '0' as int
    else if 'a' <= c <= 'f' then c as int - 'a' as int + 10
    else c as int - 'A' as int + 10
  }

  lemma HexValueOfDigit(n: nat)
    requires n < 16
    ensures HexValue(HexDigit(n)) == n
  {
  }

  /** Two lowercase hex digits of a byte value. */
  function Hex2(b: nat): (r: Bytes)
    requires b < 256
    ensures |r| == 2 && IsHexDigit(r[0]) && IsHexDigit(r[1])
    ensures HexValue(r[0]) * 16 + HexValue(r[1]) == b
  {
    HexValueOfDigit(b / 16);
    HexValueOfDigit(b % 16);
    [HexDigit(b / 16), HexDigit(b % 16)]
  }

  /** C-style escape of one byte: \n, \r, \t, backslash and double quote get
      a backslash form; other bytes below 32 or from 127 become \xHH. */
  function EscapeByte(c: Byte): (r: Bytes)
  {
    if c == '\n' then ['\\', 'n']
    else if c == '\r' then ['\\', 'r']
    else if c == '\t' then ['\\', 't']
    else if c == '\\' then ['\\', '\\']
    else if c == '"' then ['\\', '"']
    else if c as int < 32 || c as int >= 127 then ['\\', 'x'] + Hex2(c as int)
    else [c]
  }

  function Escape(s: Bytes): (r: Bytes)
    ensures !HasControl(r)
    decreases |s|
  {
    if s == [] then []
    else
      var e := EscapeByte(s[0]);
      var rest := Escape(s[1..]);
      assert !HasControl(e + rest) by {
        forall i | 0 <= i < |e + rest| ensures !IsControl((e + rest)[i]) {
          if i >= |e| { assert (e + rest)[i] == rest[i - |e|]; }
        }
      }
      e + rest
  }

  /** The inverse of Escape: \n, \r, \t, \\, \" and \xHH are decoded; any
      other backslash is kept as it is. */
  function Unescape(s: Bytes): (r: Bytes)
    decreases |s|
  {
    if s == [] then []
    else if s[0] == '\\' && |s| > 1 then
      if s[1] == 'n' then ['\n'] + Unescape(s[2..])
      else if s[1] == 'r' then ['\r'] + Unescape(s[2..])
      else if s[1] == 't' then ['\t'] + Unescape(s[2..])
      else if s[1] == '\\' then ['\\'] + Unescape(s[2..])
      else if s[1] == '"' then ['"'] + Unescape(s[2..])
      else if s[1] == 'x' && |s| > 3 && IsHexDigit(s[2]) && IsHexDigit(s[3]) then
        [(HexValue(s[2]) * 16 + HexValue(s[3])) as char] + Unescape(s[4..])
      else ['\\'] + Unescape(s[1..])
    else [s[0]] + Unescape(s[1..])
  }

  lemma UnescapeByte(c: Byte, rest: Bytes)
    ensures Unescape(EscapeByte(c) + rest) == [c] + Unescape(rest)
  {
    var e := EscapeByte(c);
    var s := e + rest;
    if |e| == 2 {
      assert s[2..] == rest;
    } else if |e| == 4 {
      assert s[4..] == rest;
      assert s[2] == e[2] && s[3] == e[3];
    } else {
      assert s[1..] == rest;
    }
  }

  lemma {:induction false} UnescapeEscape(s: Bytes)
    ensures Unescape(Escape(s)) == s
    decreases |s|
  {
    if s != [] {
      UnescapeByte(s[0], Escape(s[1..]));
      UnescapeEscape(s[1..]);
    }
  }

  function DigitChar(d: nat): (c: Byte)
    requires d < 10
    ensures IsDigit(c)
  {
    ('0' as int + d) as char
  }

  predicate AllDigits(s: Bytes)
  {
    forall i :: 0 <= i < |s| ==> IsDigit(s[i])
  }

  /** The value of a string of decimal digits. */
  function DigitsValue(s: Bytes): nat
    requires AllDigits(s)
  {
    if s == [] then 0
    else DigitsValue(s[..|s| - 1]) * 10 + (s[|s| - 1] as int - '0' as int)
  }

  /** std::to_string of an unsigned value: its shortest decimal form. */
  function Decimal(n: nat): (r: Bytes)
    ensures r != [] && AllDigits(r)
    ensures |r| > 1 ==> r[0] != '0'
  {
    if n < 10 then [DigitChar(n)] else Decimal(n / 10) + [DigitChar(n % 10)]
  }

  lemma {:induction false} DecimalValue(n: nat)
    ensures DigitsValue(Decimal(n)) == n
  {
    if n >= 10 {
      var r := Decimal(n);
      assert r[..|r| - 1] == Decimal(n / 10);
      DecimalValue(n / 10);
    }
  }

  /** Decimal form of a signed value, with '-' before a negative one. */
  function SignedDecimal(n: int): (r: Bytes)
    ensures n < 0 ==> r == "-" + Decimal(-n)
    ensures n >= 0 ==> r == Decimal(n)
  {
    if n < 0 then "-" + Decimal(-n) else Decimal(n)
  }

  /** The number of decimal digits of n (at least one). */
  function NumDigits(n: nat): (k: nat)
    ensures k >= 1
  {
    if n < 10 then 1 else 1 + NumDigits(n / 10)
  }

  lemma {:induction false} DecimalLength(n: nat)
    ensures |Decimal(n)| == NumDigits(n)
  {
    if n >= 10 { DecimalLength(n / 10); }
  }

  function Pow10(k: nat): (p: nat)
    ensures p >= 1
  {
    if k == 0 then 1 else 10 * Pow10(k - 1)
  }

  /** n has at most k digits exactly when it is below 10^k (k >= 1). */
  lemma {:induction false} NumDigitsBound(n: nat, k: nat)
    requires k >= 1
    ensures NumDigits(n) <= k <==> n < Pow10(k)
  {
    if n >= 10 {
      if k == 1 {
        assert Pow10(1) == 10;
      } else {
        NumDigitsBound(n / 10, k - 1);
        assert n / 10 < Pow10(k - 1) <==> n < 10 * Pow10(k - 1);
      }
    } else {
      assert Pow10(k) >= 10 by { PowAtLeastTen(k); }
    }
  }

  lemma {:induction false} PowAtLeastTen(k: nat)
    requires k >= 1
    ensures Pow10(k) >= 10
  {
    if k > 1 { PowAtLeastTen(k - 1); }
  }

  /** Unsigned decimal parse of a whole string, failing on an empty string,
      any non-digit byte, or a value above `max`. */
  function ParseUnsigned(s: Bytes, max: nat): (r: Option<nat>)
    ensures r.Some? <==> s != [] && AllDigits(s) && DigitsValue(s) <= max
    ensures r.Some? ==> r.value == DigitsValue(s)
  {
    if s != [] && AllDigits(s) && DigitsValue(s) <= max then Some(DigitsValue(s)) else None
  }

  /** k bytes '0'. */
  function Zeros(k: nat): (r: Bytes)
    ensures |r| == k && forall i :: 0 <= i < k ==> r[i] == '0'
  {
    if k == 0 then [] else Zeros(k - 1) + "0"
  }

  /** The digits right-aligned in a field of width w, filled with '0' on the
      left (std::setw with the fill character '0'). */
  function ZeroPad(digits: Bytes, w: nat): Bytes
  {
    if |digits| >= w then digits else Zeros(w - |digits|) + digits
  }

  /** The field is w wide unless the digits are wider, and the digits are
      its end. */
  lemma ZeroPadShape(digits: Bytes, w: nat)
    ensures |ZeroPad(digits, w)| == if |digits| < w then w else |digits|
    ensures ZeroPad(digits, w) == Zeros(|ZeroPad(digits, w)| - |digits|) + digits
  {
    if |digits| >= w {
      assert Zeros(0) + digits == digits;
    }
  }
}
