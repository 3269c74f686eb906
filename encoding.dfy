/** The two renderings the signed payload is made of: the decimal text of the
    counter (`strconv.Itoa`) and the standard base64 encoding with padding of
    the chain anchor (`base64.StdEncoding.EncodeToString`, the alphabet of
    section 4 of RFC 4648).  Each comes with its inverse and a round-trip
    lemma. */
module Encoding {
  import opened Types

  // ---------------------------------------------------------------------
  // Decimal rendering of a natural number
  // ---------------------------------------------------------------------

  const Zero: byte := 48  // '0'

  predicate IsDigit(c: byte)
  {
    Zero <= c <= Zero + 9
  }

  /** `strconv.Itoa(n)` for n >= 0: most significant digit first, no sign,
      no leading zero. */
  function Decimal(n: nat): (s: Bytes)
    ensures |s| > 0
    ensures forall i :: 0 <= i < |s| ==> IsDigit(s[i])
    ensures s[0] == Zero <==> n == 0
    ensures n < 10 <==> |s| == 1
  {
    if n < 10 then [Zero + n] else Decimal(n / 10) + [Zero + n % 10]
  }

  /** The value of a string of decimal digits. */
  function DigitsValue(s: Bytes): nat
    requires forall i :: 0 <= i < |s| ==> IsDigit(s[i])
  {
    if |s| == 0 then 0
    else
      assert IsDigit(s[|s| - 1]);
      DigitsValue(s[..|s| - 1]) * 10 + (s[|s| - 1] - Zero)
  }

  /** Reads back what `Decimal` writes: a non-empty string of digits without
      a leading zero (except "0" itself). */
  function ParseDecimal(s: Bytes): (r: Option<nat>)
    ensures r.Some? <==> (|s| > 0 && (forall i :: 0 <= i < |s| ==> IsDigit(s[i])) && (|s| > 1 ==> s[0] != Zero))
  {
    if |s| == 0 then None
    else if exists i :: 0 <= i < |s| && !IsDigit(s[i]) then None
    else if |s| > 1 && s[0] == Zero then None
    else Some(DigitsValue(s))
  }

  lemma {:induction false} DigitsOfDecimal(n: nat)
    ensures DigitsValue(Decimal(n)) == n
  {
    if n >= 10 {
      var s := Decimal(n);
      assert s[..|s| - 1] == Decimal(n / 10);
      DigitsOfDecimal(n / 10);
    }
  }

  /** Decimal rendering is undone by parsing. */
  lemma DecimalRoundTrip(n: nat)
    ensures ParseDecimal(Decimal(n)) == Some(n)
  {
    DigitsOfDecimal(n);
  }

  /** A digit string that does not start with '0' has a positive value. */
  lemma {:induction false} LeadingDigitPositive(s: Bytes)
    requires |s| > 0 && forall i :: 0 <= i < |s| ==> IsDigit(s[i])
    requires s[0] != Zero
    ensures DigitsValue(s) > 0
  {
    if |s| > 1 {
      LeadingDigitPositive(s[..|s| - 1]);
    }
  }

  lemma {:induction false} DecimalOfDigits(s: Bytes)
    requires |s| > 0 && forall i :: 0 <= i < |s| ==> IsDigit(s[i])
    requires |s| > 1 ==> s[0] != Zero
    ensures Decimal(DigitsValue(s)) == s
  {
    if |s| > 1 {
      var init := s[..|s| - 1];
      LeadingDigitPositive(init);
      DecimalOfDigits(init);
      assert init + [s[|s| - 1]] == s;
    }
  }

  /** Parsing is undone by rendering: the decimal text of a number is
      unique, so two counters never share a payload prefix. */
  lemma ParseDecimalRoundTrip(s: Bytes, n: nat)
    requires ParseDecimal(s) == Some(n)
    ensures Decimal(n) == s
  {
    DecimalOfDigits(s);
  }

  // ---------------------------------------------------------------------
  // Base64, standard alphabet, with padding
  // ---------------------------------------------------------------------

  const PadChar: byte := 61  // '='

  /** The character for a 6-bit value: 'A'..'Z', 'a'..'z', '0'..'9', '+', '/'. */
  function Sextet(v: int): (c: byte)
    requires 0 <= v < 64
  {
    if v < 26 then 65 + v
    else if v < 52 then 97 + (v - 26)
    else if v < 62 then 48 + (v - 52)
    else if v == 62 then 43
    else 47
  }

  /** The 6-bit value of an alphabet character; None for any other byte. */
  function SextetValue(c: byte): (r: Option<int>)
    ensures r.Some? ==> 0 <= r.value < 64
  {
    if 65 <= c <= 90 then Some(c - 65)
    else if 97 <= c <= 122 then Some(c - 97 + 26)
    else if 48 <= c <= 57 then Some(c - 48 + 52)
    else if c == 43 then Some(62)
    else if c == 47 then Some(63)
    else None
  }

  predicate IsBase64Char(c: byte)
  {
    SextetValue(c).Some? || c == PadChar
  }

  lemma SextetRoundTrip(v: int)
    requires 0 <= v < 64
    ensures SextetValue(Sextet(v)) == Some(v)
  {
  }

  /** The four characters for three bytes: 24 bits cut into four sextets. */
  function Quad(b0: byte, b1: byte, b2: byte): (q: Bytes)
  {
    [Sextet(b0 / 4), Sextet((b0 % 4) * 16 + b1 / 16), Sextet((b1 % 16) * 4 + b2 / 64), Sextet(b2 % 64)]
  }

  /** Base64 of a byte string: each group of three bytes becomes four
      characters; a final group of two or one byte is completed with one or
      two '=' characters. */
  function Base64Encode(b: Bytes): (s: Bytes)
    ensures |s| == (|b| + 2) / 3 * 4
    decreases |b|
  {
    if |b| == 0 then []
    else if |b| == 1 then Quad(b[0], 0, 0)[..2] + [PadChar, PadChar]
    else if |b| == 2 then Quad(b[0], b[1], 0)[..3] + [PadChar]
    else Quad(b[0], b[1], b[2]) + Base64Encode(b[3..])
  }

  lemma QuadInAlphabet(b0: byte, b1: byte, b2: byte)
    ensures forall i :: 0 <= i < 4 ==> SextetValue(Quad(b0, b1, b2)[i]).Some?
  {
    SextetRoundTrip(b0 / 4);
    SextetRoundTrip((b0 % 4) * 16 + b1 / 16);
    SextetRoundTrip((b1 % 16) * 4 + b2 / 64);
    SextetRoundTrip(b2 % 64);
  }

  /** Every character of the encoding is in the alphabet or is '='. */
  lemma {:induction false} Base64Alphabet(b: Bytes)
    ensures forall i :: 0 <= i < |Base64Encode(b)| ==> IsBase64Char(Base64Encode(b)[i])
    decreases |b|
  {
    var s := Base64Encode(b);
    if |b| > 0 {
      QuadInAlphabet(b[0], if |b| > 1 then b[1] else 0, if |b| > 2 then b[2] else 0);
    }
    if |b| > 3 {
      Base64Alphabet(b[3..]);
      assert forall i :: 4 <= i < |s| ==> s[i] == Base64Encode(b[3..])[i - 4];
    }
  }

  /** Three bytes from four 6-bit values. */
  function Join(v0: int, v1: int, v2: int, v3: int): (r: Bytes)
    requires 0 <= v0 < 64 && 0 <= v1 < 64 && 0 <= v2 < 64 && 0 <= v3 < 64
    ensures |r| == 3
  {
    [v0 * 4 + v1 / 16, (v1 % 16) * 16 + v2 / 4, (v2 % 4) * 64 + v3]
  }

  /** A group of four characters; with `last`, padding is allowed in it. */
  function DecodeQuad(q: Bytes, last: bool): (r: Option<Bytes>)
    requires |q| == 4
    ensures r.Some? ==> 1 <= |r.value| <= 3
  {
    var v0, v1, v2, v3 := SextetValue(q[0]), SextetValue(q[1]), SextetValue(q[2]), SextetValue(q[3]);
    if v0.None? || v1.None? then None
    else if last && q[2] == PadChar && q[3] == PadChar then
      Some(Join(v0.value, v1.value, 0, 0)[..1])
    else if v2.None? then None
    else if last && q[3] == PadChar then
      Some(Join(v0.value, v1.value, v2.value, 0)[..2])
    else if v3.None? then None
    else Some(Join(v0.value, v1.value, v2.value, v3.value))
  }

  /** The inverse of `Base64Encode`; None for text that is not base64. */
  function Base64Decode(s: Bytes): (r: Option<Bytes>)
    decreases |s|
  {
    if |s| == 0 then Some([])
    else if |s| < 4 then None
    else if |s| == 4 then DecodeQuad(s, true)
    else
      match DecodeQuad(s[..4], false)
      case None => None
      case Some(head) =>
        match Base64Decode(s[4..])
        case None => None
        case Some(tail) => Some(head + tail)
  }

  lemma JoinSplit(b0: byte, b1: byte, b2: byte)
    ensures Join(b0 / 4, (b0 % 4) * 16 + b1 / 16, (b1 % 16) * 4 + b2 / 64, b2 % 64) == [b0, b1, b2]
  {
  }

  lemma QuadDecodes(b0: byte, b1: byte, b2: byte, last: bool)
    ensures DecodeQuad(Quad(b0, b1, b2), last) == Some([b0, b1, b2])
  {
    var v0, v1, v2, v3 := b0 / 4, (b0 % 4) * 16 + b1 / 16, (b1 % 16) * 4 + b2 / 64, b2 % 64;
    var q := Quad(b0, b1, b2);
    assert q == [Sextet(v0), Sextet(v1), Sextet(v2), Sextet(v3)];
    SextetRoundTrip(v0);
    SextetRoundTrip(v1);
    SextetRoundTrip(v2);
    SextetRoundTrip(v3);
    assert SextetValue(PadChar).None?;
    assert q[3] != PadChar;
    JoinSplit(b0, b1, b2);
  }

  lemma PaddedQuadDecodes(b0: byte, b1: byte, n: nat)
    requires n == 1 || n == 2
    ensures DecodeQuad(Quad(b0, b1, 0)[..n + 1] + seq(3 - n, _ => PadChar), true)
         == Some([b0, b1][..n])
  {
    var v0, v1, v2 := b0 / 4, (b0 % 4) * 16 + b1 / 16, (b1 % 16) * 4;
    var q := Quad(b0, b1, 0)[..n + 1] + seq(3 - n, _ => PadChar);
    SextetRoundTrip(v0);
    SextetRoundTrip(v1);
    SextetRoundTrip(v2);
    assert SextetValue(PadChar).None?;
    JoinSplit(b0, b1, 0);
    if n == 1 {
      assert q == [Sextet(v0), Sextet(v1), PadChar, PadChar];
      assert Join(v0, v1, 0, 0)[0] == Join(v0, v1, v2, 0)[0] == b0;
      assert Join(v0, v1, 0, 0)[..1] == [b0] == [b0, b1][..1];
      assert DecodeQuad(q, true) == Some(Join(v0, v1, 0, 0)[..1]);
    } else {
      assert q == [Sextet(v0), Sextet(v1), Sextet(v2), PadChar];
      assert q[2] != PadChar;
      assert Join(v0, v1, v2, 0)[..2] == [b0, b1] == [b0, b1][..2];
      assert DecodeQuad(q, true) == Some(Join(v0, v1, v2, 0)[..2]);
    }
  }

  /** Decoding the encoding gives the original bytes back, so base64 loses
      nothing: distinct anchors give distinct payloads. */
  lemma {:induction false} Base64RoundTrip(b: Bytes)
    ensures Base64Decode(Base64Encode(b)) == Some(b)
    decreases |b|
  {
    var s := Base64Encode(b);
    if |b| == 1 {
      PaddedQuadDecodes(b[0], 0, 1);
      assert seq(2, _ => PadChar) == [PadChar, PadChar];
      assert [b[0], 0][..1] == b;
    } else if |b| == 2 {
      PaddedQuadDecodes(b[0], b[1], 2);
      assert seq(1, _ => PadChar) == [PadChar];
      assert [b[0], b[1]][..2] == b;
    } else if |b| >= 3 {
      QuadDecodes(b[0], b[1], b[2], |b| == 3);
      if |b| == 3 {
        assert s == Quad(b[0], b[1], b[2]);
        assert [b[0], b[1], b[2]] == b;
      } else {
        assert |s| > 4;
        assert s[..4] == Quad(b[0], b[1], b[2]);
        Base64RoundTrip(b[3..]);
        assert s[4..] == Base64Encode(b[3..]);
        assert [b[0], b[1], b[2]] + b[3..] == b;
      }
    }
  }

  /** The first part of the encoding is the encoding of the first part, as
      long as that part is a whole number of three-byte groups.  This is what
      makes standard base64 a streaming encoding: an encoder may emit the
      output of each complete three-byte group before it has read the rest,
      and appending bytes never changes the text already produced for them. */
  lemma {:induction false} Base64Concat(x: Bytes, y: Bytes)
    requires |x| % 3 == 0
    ensures Base64Encode(x + y) == Base64Encode(x) + Base64Encode(y)
    decreases |x|
  {
    if x == [] {
      assert x + y == y;
    } else {
      assert (x + y)[3..] == x[3..] + y;
      Base64Concat(x[3..], y);
    }
  }
}
