/** Lowercase hexadecimal encoding, as Go's hex.EncodeToString writes it. */
module Hex {
  import opened ByteStrings

  /** '0'-'9' and 'a'-'f'. */
  predicate IsLowerHexDigit(c: byte) {
    (48 <= c <= 57) || (97 <= c <= 102)
  }

  predicate IsLowerHex(s: Bytes) {
    forall i :: 0 <= i < |s| ==> IsLowerHexDigit(s[i])
  }

  /** The digit of a 4-bit value. */
  function Digit(v: byte): (c: byte)
    requires v < 16
    ensures IsLowerHexDigit(c)
  {
    if v < 10 then 48 + v else 87 + v
  }

  /** Different values get different digits. */
  lemma DigitInjective(v: byte, w: byte)
    requires v < 16 && w < 16 && Digit(v) == Digit(w)
    ensures v == w
  {
  }

  /** A byte is its high nibble followed by its low nibble. */
  lemma Nibbles(x: byte, y: byte)
    requires x >> 4 == y >> 4 && x & 15 == y & 15
    ensures x == y
  {
  }

  /** Each byte becomes two digits, high nibble first. */
  function Encode(b: Bytes): (s: Bytes)
    ensures |s| == 2 * |b|
    ensures IsLowerHex(s)
    ensures forall i :: 0 <= i < |b| ==> s[2 * i] == Digit(b[i] >> 4) && s[2 * i + 1] == Digit(b[i] & 15)
    decreases |b|
  {
    if |b| == 0 then []
    else
      var rest := Encode(b[1..]);
      assert forall i :: 1 <= i < |b| ==> b[1..][i - 1] == b[i];
      [Digit(b[0] >> 4), Digit(b[0] & 15)] + rest
  }

  /** Distinct byte strings have distinct encodings. */
  lemma EncodeInjective(x: Bytes, y: Bytes)
    requires Encode(x) == Encode(y)
    ensures x == y
  {
    assert |x| == |y|;
    forall i | 0 <= i < |x|
      ensures x[i] == y[i]
    {
      var s := Encode(x);
      assert s[2 * i] == Digit(x[i] >> 4) == Digit(y[i] >> 4);
      assert s[2 * i + 1] == Digit(x[i] & 15) == Digit(y[i] & 15);
      DigitInjective(x[i] >> 4, y[i] >> 4);
      DigitInjective(x[i] & 15, y[i] & 15);
      Nibbles(x[i], y[i]);
    }
  }
}
