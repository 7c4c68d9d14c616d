/**
 * Standard base64 with padding (section 4 of RFC 4648), as Go's
 * base64.StdEncoding encodes it and as StdEncoding.Strict() decodes it.
 */
module Base64 {
  import opened Wrappers
  import opened ByteStrings

  const PAD: byte := 61  // '='
  const LF: byte := 10
  const CR: byte := 13

  /** 'A'-'Z', 'a'-'z', '0'-'9', '+' and '/'. */
  predicate IsAlphabet(c: byte) {
    (65 <= c <= 90) || (97 <= c <= 122) || (48 <= c <= 57) || c == 43 || c == 47
  }

  /** The index of an alphabet character. */
  function Val(c: byte): (v: byte)
    requires IsAlphabet(c)
    ensures v < 64
  {
    if 65 <= c <= 90 then c - 65
    else if 97 <= c <= 122 then c - 71
    else if 48 <= c <= 57 then c + 4
    else if c == 43 then 62
    else 63
  }

  /** The alphabet character of a 6-bit value; Val undoes it. */
  function Char(v: byte): (c: byte)
    requires v < 64
    ensures IsAlphabet(c) && Val(c) == v
  {
    if v < 26 then 65 + v
    else if v < 52 then 71 + v
    else if v < 62 then v - 4
    else if v == 62 then 43
    else 47
  }

  lemma CharOfVal(c: byte)
    requires IsAlphabet(c)
    ensures Char(Val(c)) == c
  {
  }

  /** Four 6-bit values, high bits first. */
  datatype Sextets = Sextets(v0: byte, v1: byte, v2: byte, v3: byte)

  /** Three bytes. */
  datatype Octets = Octets(b0: byte, b1: byte, b2: byte)

  /** Three bytes cut into four 6-bit values. */
  function ToSextets(b0: byte, b1: byte, b2: byte): (v: Sextets)
    ensures v.v0 < 64 && v.v1 < 64 && v.v2 < 64 && v.v3 < 64
  {
    Sextets(b0 >> 2, ((b0 & 3) << 4) | (b1 >> 4), ((b1 & 15) << 2) | (b2 >> 6), b2 & 63)
  }

  /** Four 6-bit values glued into three bytes. */
  function ToOctets(v: Sextets): Octets {
    Octets((v.v0 << 2) | (v.v1 >> 4), ((v.v1 & 15) << 4) | (v.v2 >> 2), ((v.v2 & 3) << 6) | v.v3)
  }

  lemma OctetsOfSextets(b0: byte, b1: byte, b2: byte)
    ensures ToOctets(ToSextets(b0, b1, b2)) == Octets(b0, b1, b2)
  {
  }

  lemma SextetsOfOctets(v: Sextets)
    requires v.v0 < 64 && v.v1 < 64 && v.v2 < 64 && v.v3 < 64
    ensures var b := ToOctets(v); ToSextets(b.b0, b.b1, b.b2) == v
  {
  }

  /** What a short tail leaves in the sextets: zero bits that strict decoding checks. */
  lemma TailSextets(b0: byte, b1: byte)
    ensures ToSextets(b0, 0, 0).v1 & 15 == 0 && ToSextets(b0, b1, 0).v2 & 3 == 0
    ensures ToSextets(b0, 0, 0).v0 == ToSextets(b0, b1, 0).v0
  {
  }

  /** Padded tails: the discarded bits zero means the dropped bytes were zero. */
  lemma TailOctets(v0: byte, v1: byte, v2: byte)
    requires v0 < 64 && v1 < 64 && v2 < 64
    ensures v1 & 15 == 0 ==>
      ToSextets(ToOctets(Sextets(v0, v1, 0, 0)).b0, 0, 0) == Sextets(v0, v1, 0, 0)
    ensures v2 & 3 == 0 ==>
      var o := ToOctets(Sextets(v0, v1, v2, 0)); ToSextets(o.b0, o.b1, 0) == Sextets(v0, v1, v2, 0)
  {
  }

  function EncodeQuantum(b0: byte, b1: byte, b2: byte): Bytes {
    var v := ToSextets(b0, b1, b2);
    [Char(v.v0), Char(v.v1), Char(v.v2), Char(v.v3)]
  }

  /** EncodeToString: every 3 bytes become 4 characters, the tail is padded with '='. */
  function Encode(b: Bytes): (s: Bytes)
    ensures |s| == 4 * ((|b| + 2) / 3)
    ensures forall i :: 0 <= i < |s| ==> IsAlphabet(s[i]) || s[i] == PAD
    decreases |b|
  {
    if |b| == 0 then []
    else if |b| == 1 then
      var v := ToSextets(b[0], 0, 0);
      [Char(v.v0), Char(v.v1), PAD, PAD]
    else if |b| == 2 then
      var v := ToSextets(b[0], b[1], 0);
      [Char(v.v0), Char(v.v1), Char(v.v2), PAD]
    else EncodeQuantum(b[0], b[1], b[2]) + Encode(b[3..])
  }

  function DecodeQuantum(c0: byte, c1: byte, c2: byte, c3: byte): (b: Bytes)
    requires IsAlphabet(c0) && IsAlphabet(c1) && IsAlphabet(c2) && IsAlphabet(c3)
    ensures |b| == 3
  {
    var o := ToOctets(Sextets(Val(c0), Val(c1), Val(c2), Val(c3)));
    [o.b0, o.b1, o.b2]
  }

  /**
   * The last quantum: four characters, or two or three followed by padding.
   * Strict decoding refuses padding whose discarded bits are not zero.
   */
  function DecodeFinal(c0: byte, c1: byte, c2: byte, c3: byte): Option<Bytes> {
    if !IsAlphabet(c0) || !IsAlphabet(c1) then None
    else if c2 == PAD && c3 == PAD then
      if Val(c1) & 15 == 0 then Some([ToOctets(Sextets(Val(c0), Val(c1), 0, 0)).b0]) else None
    else if IsAlphabet(c2) && c3 == PAD then
      if Val(c2) & 3 == 0 then
        var o := ToOctets(Sextets(Val(c0), Val(c1), Val(c2), 0));
        Some([o.b0, o.b1])
      else None
    else if IsAlphabet(c2) && IsAlphabet(c3) then Some(DecodeQuantum(c0, c1, c2, c3))
    else None
  }

  /** Decoding of input with no line breaks: whole quanta, padding only at the end. */
  function DecodeQuanta(s: Bytes): Option<Bytes>
    decreases |s|
  {
    if |s| == 0 then Some([])
    else if |s| < 4 then None
    else if |s| == 4 then DecodeFinal(s[0], s[1], s[2], s[3])
    else if IsAlphabet(s[0]) && IsAlphabet(s[1]) && IsAlphabet(s[2]) && IsAlphabet(s[3]) then
      match DecodeQuanta(s[4..])
      case Some(rest) => Some(DecodeQuantum(s[0], s[1], s[2], s[3]) + rest)
      case None => None
    else None
  }

  /** Go's decoder skips '\r' and '\n' wherever they occur. */
  function RemoveNewlines(s: Bytes): (r: Bytes)
    ensures forall i :: 0 <= i < |r| ==> r[i] != LF && r[i] != CR
    decreases |s|
  {
    if |s| == 0 then []
    else if s[0] == LF || s[0] == CR then RemoveNewlines(s[1..])
    else [s[0]] + RemoveNewlines(s[1..])
  }

  /** StdEncoding.Strict().DecodeString; None where Go reports an error. */
  function StrictDecode(s: Bytes): (r: Option<Bytes>)
    ensures r.Some? ==> |RemoveNewlines(s)| == 4 * ((|r.value| + 2) / 3)
  {
    var r := DecodeQuanta(RemoveNewlines(s));
    if r.Some? then DecodeQuantaCanonical(RemoveNewlines(s)); r else r
  }

  lemma QuantumRoundTrip(b0: byte, b1: byte, b2: byte)
    ensures var q := EncodeQuantum(b0, b1, b2);
      DecodeQuantum(q[0], q[1], q[2], q[3]) == [b0, b1, b2]
  {
    OctetsOfSextets(b0, b1, b2);
  }

  lemma OneByteRoundTrip(b0: byte)
    ensures var v := ToSextets(b0, 0, 0); DecodeFinal(Char(v.v0), Char(v.v1), PAD, PAD) == Some([b0])
  {
    TailSextets(b0, 0);
    OctetsOfSextets(b0, 0, 0);
  }

  lemma TwoByteRoundTrip(b0: byte, b1: byte)
    ensures var v := ToSextets(b0, b1, 0); DecodeFinal(Char(v.v0), Char(v.v1), Char(v.v2), PAD) == Some([b0, b1])
  {
    TailSextets(b0, b1);
    OctetsOfSextets(b0, b1, 0);
  }

  /** One full quantum in front of a non-empty remainder. */
  lemma DecodeQuantaCons(q: Bytes, rest: Bytes)
    requires |q| == 4 && IsAlphabet(q[0]) && IsAlphabet(q[1]) && IsAlphabet(q[2]) && IsAlphabet(q[3])
    requires |rest| > 0
    ensures DecodeQuanta(q + rest)
         == if DecodeQuanta(rest).Some? then Some(DecodeQuantum(q[0], q[1], q[2], q[3]) + DecodeQuanta(rest).value)
            else None
  {
    var s := q + rest;
    assert s[4..] == rest;
    assert s[0] == q[0] && s[1] == q[1] && s[2] == q[2] && s[3] == q[3];
  }

  lemma {:induction false} DecodeQuantaEncode(b: Bytes)
    ensures DecodeQuanta(Encode(b)) == Some(b)
    decreases |b|
  {
    if |b| == 1 {
      OneByteRoundTrip(b[0]);
      assert b == [b[0]];
    } else if |b| == 2 {
      TwoByteRoundTrip(b[0], b[1]);
      assert b == [b[0], b[1]];
    } else if |b| >= 3 {
      var q, rest := EncodeQuantum(b[0], b[1], b[2]), Encode(b[3..]);
      assert Encode(b) == q + rest;
      QuantumRoundTrip(b[0], b[1], b[2]);
      if |b| == 3 {
        assert rest == [];
        assert q + rest == q;
        assert b == [b[0], b[1], b[2]];
      } else {
        DecodeQuantaEncode(b[3..]);
        DecodeQuantaCons(q, rest);
        assert b == [b[0], b[1], b[2]] + b[3..];
      }
    }
  }

  lemma {:induction false} RemoveNewlinesNoop(s: Bytes)
    requires forall i :: 0 <= i < |s| ==> s[i] != LF && s[i] != CR
    ensures RemoveNewlines(s) == s
    decreases |s|
  {
    if |s| > 0 {
      RemoveNewlinesNoop(s[1..]);
      assert s == [s[0]] + s[1..];
    }
  }

  /** Strict decoding inverts encoding. */
  lemma DecodeEncode(b: Bytes)
    ensures StrictDecode(Encode(b)) == Some(b)
  {
    RemoveNewlinesNoop(Encode(b));
    DecodeQuantaEncode(b);
  }

  lemma QuantumCanonical(c0: byte, c1: byte, c2: byte, c3: byte)
    requires IsAlphabet(c0) && IsAlphabet(c1) && IsAlphabet(c2) && IsAlphabet(c3)
    ensures var b := DecodeQuantum(c0, c1, c2, c3); EncodeQuantum(b[0], b[1], b[2]) == [c0, c1, c2, c3]
  {
    SextetsOfOctets(Sextets(Val(c0), Val(c1), Val(c2), Val(c3)));
    CharOfVal(c0);
    CharOfVal(c1);
    CharOfVal(c2);
    CharOfVal(c3);
  }

  lemma FinalCanonical(c0: byte, c1: byte, c2: byte, c3: byte)
    requires DecodeFinal(c0, c1, c2, c3).Some?
    ensures Encode(DecodeFinal(c0, c1, c2, c3).value) == [c0, c1, c2, c3]
  {
    var b := DecodeFinal(c0, c1, c2, c3).value;
    CharOfVal(c0);
    CharOfVal(c1);
    if c2 == PAD && c3 == PAD {
      TailOctets(Val(c0), Val(c1), 0);
      assert |b| == 1;
    } else if c3 == PAD {
      CharOfVal(c2);
      TailOctets(Val(c0), Val(c1), Val(c2));
      assert |b| == 2;
    } else {
      QuantumCanonical(c0, c1, c2, c3);
      assert Encode(b) == EncodeQuantum(b[0], b[1], b[2]) + Encode([]);
    }
  }

  lemma EncodeCons(d: Bytes, rest: Bytes)
    requires |d| == 3
    ensures Encode(d + rest) == EncodeQuantum(d[0], d[1], d[2]) + Encode(rest)
  {
    var b := d + rest;
    assert b[3..] == rest;
  }

  /** A longer input that decodes starts with a full quantum, and the rest decodes too. */
  lemma DecodeQuantaHead(s: Bytes)
    requires |s| > 4 && DecodeQuanta(s).Some?
    ensures IsAlphabet(s[0]) && IsAlphabet(s[1]) && IsAlphabet(s[2]) && IsAlphabet(s[3])
    ensures DecodeQuanta(s[4..]).Some?
    ensures DecodeQuanta(s).value == DecodeQuantum(s[0], s[1], s[2], s[3]) + DecodeQuanta(s[4..]).value
  {
  }

  /** Strict decoding accepts only canonical encodings: what it accepts re-encodes to itself. */
  lemma {:induction false} DecodeQuantaCanonical(s: Bytes)
    requires DecodeQuanta(s).Some?
    ensures Encode(DecodeQuanta(s).value) == s
    decreases |s|
  {
    if |s| == 4 {
      FinalCanonical(s[0], s[1], s[2], s[3]);
      assert s == [s[0], s[1], s[2], s[3]];
    } else if |s| > 4 {
      DecodeQuantaHead(s);
      var tail := s[4..];
      var d := DecodeQuantum(s[0], s[1], s[2], s[3]);
      DecodeQuantaCanonical(tail);
      QuantumCanonical(s[0], s[1], s[2], s[3]);
      EncodeCons(d, DecodeQuanta(tail).value);
      assert s == [s[0], s[1], s[2], s[3]] + tail;
    }
  }

  lemma DecodeCanonical(s: Bytes)
    requires StrictDecode(s).Some?
    ensures Encode(StrictDecode(s).value) == RemoveNewlines(s)
  {
    DecodeQuantaCanonical(RemoveNewlines(s));
  }

  /** The alphabet and the padding character exclude '-'. */
  lemma EncodeNoDash(b: Bytes)
    ensures NoDash(Encode(b))
  {
  }
}
