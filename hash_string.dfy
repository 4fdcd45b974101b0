/** The djb2a string hash used to switch on keywords: starting from 5381,
    every byte c turns the accumulator h into (h * 33) xor c, all in 64-bit
    unsigned arithmetic (`unsigned long`). */
module HashString {
  import opened Text

  const Seed: bv64 := 5381

  /** The byte as an unsigned 64-bit value. */
  function Widen(c: Byte): bv64
  {
    (c as bv8) as bv64
  }

  /** One step of the hash, written as the source writes it: (h << 5) + h. */
  function Mix(h: bv64, c: Byte): bv64
  {
    ((h << 5) + h) ^ Widen(c)
  }

  /** The hash of a byte string, defined by recursion on its last byte. */
  function Djb2a(s: Bytes): bv64
  {
    if |s| == 0 then Seed else Mix(Djb2a(s[..|s| - 1]), s[|s| - 1])
  }

  /** `hash_djb2a`: the accumulator loop over the bytes of sv. */
  method HashDjb2a(sv: Bytes) returns (hash: bv64)
    ensures hash == Djb2a(sv)
  {
    hash := 5381;
    var i := 0;
    while i < |sv|
      invariant 0 <= i <= |sv|
      invariant hash == Djb2a(sv[..i])
    {
      assert sv[..i + 1][..i] == sv[..i];
      hash := Mix(hash, sv[i]);
      i := i + 1;
    }
    assert sv[..i] == sv;
  }

  /** `operator"" _sh(str, len)`: the hash of the first len bytes of str. */
  function ShLiteral(str: Bytes, len: nat): bv64
    requires len <= |str|
  {
    Djb2a(str[..len])
  }

  /** The literal operator hashes exactly the bytes hash_djb2a hashes. */
  lemma ShLiteralIsDjb2a(s: Bytes, len: nat)
    requires len == |s|
    ensures ShLiteral(s, len) == Djb2a(s)
  {
    assert s[..len] == s;
  }

  lemma EmptyHash()
    ensures Djb2a([]) == 5381
  {
  }

  /** Appending a byte applies one step to the hash of the prefix. */
  lemma HashSnoc(s: Bytes, c: Byte)
    ensures Djb2a(s + [c]) == Mix(Djb2a(s), c)
  {
    assert (s + [c])[..|s|] == s;
  }

  /** One step multiplies by 33 modulo 2^64 and xors in the byte. */
  lemma MixIsTimes33(h: bv64, c: Byte)
    ensures Mix(h, c) == (h * 33) ^ Widen(c)
  {
    ShiftAddIsTimes33(h);
  }

  lemma ShiftAddIsTimes33(h: bv64)
    ensures (h << 5) + h == h * 33
  {
  }
}
