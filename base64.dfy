/** The standard Base64 encoding of section 4 of RFC 4648, with `=` padding,
    as the `BASE64_STANDARD` engine encodes and decodes it: the decoder is
    canonical, so it accepts exactly the strings the encoder produces. */
module Base64 {
  import opened Wrappers

  type byte = x: int | 0 <= x < 256

  /** A 6-bit value, the index of one character of the alphabet. */
  type sextet = x: int | 0 <= x < 64

  /** The 64 characters of the alphabet of section 4 of RFC 4648. */
  predicate IsAlphabet(c: char) {
    ('A' <= c <= 'Z') || ('a' <= c <= 'z') || ('0' <= c <= '9') || c == '+' || c == '/'
  }

  /** A character the encoder may emit: the alphabet or the pad character. */
  predicate IsEncodedChar(c: char) {
    IsAlphabet(c) || c == '='
  }

  function CharOf(i: sextet): (c: char)
    ensures IsAlphabet(c)
  {
    if i < 26 then ('A' as int + i) as char
    else if i < 52 then ('a' as int + (i - 26)) as char
    else if i < 62 then ('0' as int + (i - 52)) as char
    else if i == 62 then '+'
    else '/'
  }

  function IndexOf(c: char): (i: sextet)
    requires IsAlphabet(c)
    ensures CharOf(i) == c
  {
    if 'A' <= c <= 'Z' then c as int - 'A' as int
    else if 'a' <= c <= 'z' then c as int - 'a' as int + 26
    else if '0' <= c <= '9' then c as int - '0' as int + 52
    else if c == '+' then 62
    else 63
  }

  /** The alphabet is a bijection between sextets and its 64 characters. */
  lemma IndexOfCharOf(i: sextet)
    ensures IndexOf(CharOf(i)) == i
  {
  }

  // ---- Groups of three bytes and their (possibly padded) quadruples ----

  /** Text made only of characters the encoder may emit. */
  predicate AllEncoded(s: string) {
    forall i | 0 <= i < |s| :: IsEncodedChar(s[i])
  }

  lemma AllEncodedAppend(a: string, b: string)
    requires AllEncoded(a) && AllEncoded(b)
    ensures AllEncoded(a + b)
  {
    assert forall i | |a| <= i < |a + b| :: (a + b)[i] == b[i - |a|];
  }

  function EncodeGroup(b0: byte, b1: byte, b2: byte): (q: string)
    ensures |q| == 4 && AllEncoded(q)
  {
    [CharOf(b0 / 4), CharOf((b0 % 4) * 16 + b1 / 16), CharOf((b1 % 16) * 4 + b2 / 64), CharOf(b2 % 64)]
  }

  /** The last group of an input whose length is not a multiple of three,
      or the last full group. */
  function EncodeLast(b: seq<byte>): (q: string)
    requires 1 <= |b| <= 3
    ensures |q| == 4 && AllEncoded(q)
  {
    if |b| == 1 then [CharOf(b[0] / 4), CharOf((b[0] % 4) * 16), '=', '=']
    else if |b| == 2 then [CharOf(b[0] / 4), CharOf((b[0] % 4) * 16 + b[1] / 16), CharOf((b[1] % 16) * 4), '=']
    else EncodeGroup(b[0], b[1], b[2])
  }

  /** The standard Base64 text of `b`. */
  function Encode(b: seq<byte>): (s: string)
    ensures |s| % 4 == 0 && (|s| == 0 <==> |b| == 0)
    ensures AllEncoded(s)
    decreases |b|
  {
    if |b| == 0 then ""
    else if |b| <= 3 then EncodeLast(b)
    else
      var head, tail := EncodeGroup(b[0], b[1], b[2]), Encode(b[3..]);
      AllEncodedAppend(head, tail);
      head + tail
  }

  function DecodeGroup(i0: sextet, i1: sextet, i2: sextet, i3: sextet): seq<byte> {
    [i0 * 4 + i1 / 16, (i1 % 16) * 16 + i2 / 4, (i2 % 4) * 64 + i3]
  }

  predicate AllAlphabet(q: string) {
    forall i | 0 <= i < |q| :: IsAlphabet(q[i])
  }

  /** A quadruple that is not the last one: no padding is allowed in it. */
  function DecodeInner(q: string): Option<seq<byte>>
    requires |q| == 4
  {
    if AllAlphabet(q) then Some(DecodeGroup(IndexOf(q[0]), IndexOf(q[1]), IndexOf(q[2]), IndexOf(q[3])))
    else None
  }

  /** The last quadruple: up to two pad characters, and the bits that the
      padding drops must be zero (canonical decoding). */
  function DecodeFinal(q: string): Option<seq<byte>>
    requires |q| == 4
  {
    if AllAlphabet(q) then
      Some(DecodeGroup(IndexOf(q[0]), IndexOf(q[1]), IndexOf(q[2]), IndexOf(q[3])))
    else if IsAlphabet(q[0]) && IsAlphabet(q[1]) && q[2] == '=' && q[3] == '=' then
      if IndexOf(q[1]) % 16 == 0 then Some([IndexOf(q[0]) * 4 + IndexOf(q[1]) / 16]) else None
    else if IsAlphabet(q[0]) && IsAlphabet(q[1]) && IsAlphabet(q[2]) && q[3] == '=' then
      if IndexOf(q[2]) % 4 == 0
      then Some([IndexOf(q[0]) * 4 + IndexOf(q[1]) / 16, (IndexOf(q[1]) % 16) * 16 + IndexOf(q[2]) / 4])
      else None
    else None
  }

  /** Decodes standard, padded, canonical Base64; `None` for any other text
      (a length that is not a multiple of four, a character outside the
      alphabet, misplaced padding, non-zero trailing bits). */
  function Decode(s: string): Option<seq<byte>>
    decreases |s|
  {
    if |s| == 0 then Some([])
    else if |s| % 4 != 0 then None
    else if |s| == 4 then DecodeFinal(s)
    else
      match DecodeInner(s[..4])
      case None => None
      case Some(head) =>
        match Decode(s[4..])
        case None => None
        case Some(tail) => Some(head + tail)
  }

  // ---- Proofs ----

  lemma DivMod4(q: int, r: int)
    requires 0 <= r < 4
    ensures (q * 4 + r) / 4 == q && (q * 4 + r) % 4 == r
  {
  }

  lemma DivMod16(q: int, r: int)
    requires 0 <= r < 16
    ensures (q * 16 + r) / 16 == q && (q * 16 + r) % 16 == r
  {
  }

  lemma DivMod64(q: int, r: int)
    requires 0 <= r < 64
    ensures (q * 64 + r) / 64 == q && (q * 64 + r) % 64 == r
  {
  }

  lemma GroupRoundTrip(b0: byte, b1: byte, b2: byte)
    ensures DecodeInner(EncodeGroup(b0, b1, b2)) == Some([b0, b1, b2])
    ensures DecodeFinal(EncodeGroup(b0, b1, b2)) == Some([b0, b1, b2])
  {
    var i0, i1, i2, i3 := b0 / 4, (b0 % 4) * 16 + b1 / 16, (b1 % 16) * 4 + b2 / 64, b2 % 64;
    var q := EncodeGroup(b0, b1, b2);
    assert q == [CharOf(i0), CharOf(i1), CharOf(i2), CharOf(i3)];
    IndexOfCharOf(i0);
    IndexOfCharOf(i1);
    IndexOfCharOf(i2);
    IndexOfCharOf(i3);
    assert AllAlphabet(q);
    DivMod16(b0 % 4, b1 / 16);
    DivMod4(b1 % 16, b2 / 64);
    assert DecodeGroup(i0, i1, i2, i3) == [b0, b1, b2];
  }

  lemma LastRoundTrip(b: seq<byte>)
    requires 1 <= |b| <= 3
    ensures DecodeFinal(EncodeLast(b)) == Some(b)
  {
    if |b| == 1 {
      OneByteRoundTrip(b);
    } else if |b| == 2 {
      TwoBytesRoundTrip(b);
    } else {
      ThreeBytesRoundTrip(b);
    }
  }

  lemma ThreeBytesRoundTrip(b: seq<byte>)
    requires |b| == 3
    ensures DecodeFinal(EncodeLast(b)) == Some(b)
  {
    GroupRoundTrip(b[0], b[1], b[2]);
    assert [b[0], b[1], b[2]] == b;
  }

  lemma OneByteRoundTrip(b: seq<byte>)
    requires |b| == 1
    ensures DecodeFinal(EncodeLast(b)) == Some(b)
  {
    var i0, i1 := b[0] / 4, (b[0] % 4) * 16;
    IndexOfCharOf(i0);
    IndexOfCharOf(i1);
    DivMod16(b[0] % 4, 0);
    assert i0 * 4 + i1 / 16 == b[0];
    var q := EncodeLast(b);
    assert q == [CharOf(i0), CharOf(i1), '=', '='];
    assert !AllAlphabet(q) by { assert !IsAlphabet(q[3]); }
    assert IndexOf(q[1]) % 16 == 0;
    assert b == [b[0]];
  }

  lemma TwoBytesRoundTrip(b: seq<byte>)
    requires |b| == 2
    ensures DecodeFinal(EncodeLast(b)) == Some(b)
  {
    var i0, i1, i2 := b[0] / 4, (b[0] % 4) * 16 + b[1] / 16, (b[1] % 16) * 4;
    IndexOfCharOf(i0);
    IndexOfCharOf(i1);
    IndexOfCharOf(i2);
    DivMod16(b[0] % 4, b[1] / 16);
    DivMod4(b[1] % 16, 0);
    assert i0 * 4 + i1 / 16 == b[0];
    assert (i1 % 16) * 16 + i2 / 4 == b[1];
    var q := EncodeLast(b);
    assert q == [CharOf(i0), CharOf(i1), CharOf(i2), '='];
    assert !AllAlphabet(q) by { assert !IsAlphabet(q[3]); }
    assert IndexOf(q[2]) % 4 == 0;
    assert b == [b[0], b[1]];
  }

  /** Prepending an inner group to decodable text prepends its bytes. */
  lemma DecodeCons(g: string, t: string, h: seq<byte>, u: seq<byte>)
    requires |g| == 4 && |t| > 0 && |t| % 4 == 0 && DecodeInner(g) == Some(h) && Decode(t) == Some(u)
    ensures Decode(g + t) == Some(h + u)
  {
    var s := g + t;
    DivMod4(|t| / 4 + 1, 0);
    assert |s| % 4 == 0 && |s| != 4;
    assert s[..4] == g && s[4..] == t;
  }

  lemma SplitThree(b: seq<byte>)
    requires |b| >= 3
    ensures [b[0], b[1], b[2]] + b[3..] == b
  {
  }

  lemma EncodeUnfold(b: seq<byte>)
    requires |b| > 3
    ensures Encode(b) == EncodeGroup(b[0], b[1], b[2]) + Encode(b[3..])
    ensures |Encode(b[3..])| % 4 == 0 && |Encode(b[3..])| > 0
  {
  }

  lemma DecodeEncodeStep(b: seq<byte>)
    requires |b| > 3 && Decode(Encode(b[3..])) == Some(b[3..])
    ensures Decode(Encode(b)) == Some(b)
  {
    var g, t := EncodeGroup(b[0], b[1], b[2]), Encode(b[3..]);
    EncodeUnfold(b);
    GroupRoundTrip(b[0], b[1], b[2]);
    SplitThree(b);
    DecodeCons(g, t, [b[0], b[1], b[2]], b[3..]);
  }

  /** Decoding the encoder's output gives back the original bytes. */
  lemma {:induction false} DecodeEncode(b: seq<byte>)
    ensures Decode(Encode(b)) == Some(b)
    decreases |b|
  {
    if |b| == 0 {
    } else if |b| <= 3 {
      LastRoundTrip(b);
    } else {
      DecodeEncode(b[3..]);
      DecodeEncodeStep(b);
    }
  }

  lemma GroupCanonicalArith(i0: sextet, i1: sextet, i2: sextet, i3: sextet)
    ensures var h0, h1, h2 := i0 * 4 + i1 / 16, (i1 % 16) * 16 + i2 / 4, (i2 % 4) * 64 + i3;
      h0 / 4 == i0 && (h0 % 4) * 16 + h1 / 16 == i1 && (h1 % 16) * 4 + h2 / 64 == i2 && h2 % 64 == i3
  {
    DivMod4(i0, i1 / 16);
    DivMod16(i1 % 16, i2 / 4);
    DivMod64(i2 % 4, i3);
  }

  lemma GroupCanonical(i0: sextet, i1: sextet, i2: sextet, i3: sextet)
    ensures var h := DecodeGroup(i0, i1, i2, i3);
      EncodeGroup(h[0], h[1], h[2]) == [CharOf(i0), CharOf(i1), CharOf(i2), CharOf(i3)]
  {
    var h := DecodeGroup(i0, i1, i2, i3);
    GroupCanonicalArith(i0, i1, i2, i3);
    assert h[0] / 4 == i0;
    assert (h[0] % 4) * 16 + h[1] / 16 == i1;
    assert (h[1] % 16) * 4 + h[2] / 64 == i2;
    assert h[2] % 64 == i3;
  }

  lemma InnerCanonical(q: string, h: seq<byte>)
    requires |q| == 4 && DecodeInner(q) == Some(h)
    ensures |h| == 3 && EncodeGroup(h[0], h[1], h[2]) == q
  {
    assert IsAlphabet(q[0]) && IsAlphabet(q[1]) && IsAlphabet(q[2]) && IsAlphabet(q[3]);
    GroupCanonical(IndexOf(q[0]), IndexOf(q[1]), IndexOf(q[2]), IndexOf(q[3]));
  }

  lemma FinalCanonical(q: string, h: seq<byte>)
    requires |q| == 4 && DecodeFinal(q) == Some(h)
    ensures 1 <= |h| <= 3 && EncodeLast(h) == q
  {
    if AllAlphabet(q) {
      assert IsAlphabet(q[0]) && IsAlphabet(q[1]) && IsAlphabet(q[2]) && IsAlphabet(q[3]);
      GroupCanonical(IndexOf(q[0]), IndexOf(q[1]), IndexOf(q[2]), IndexOf(q[3]));
    } else if IsAlphabet(q[0]) && IsAlphabet(q[1]) && q[2] == '=' && q[3] == '=' {
      OnePadCanonical(q, h);
    } else {
      TwoPadCanonical(q, h);
    }
  }

  /** A final quadruple with two pad characters. */
  lemma OnePadCanonical(q: string, h: seq<byte>)
    requires |q| == 4 && IsAlphabet(q[0]) && IsAlphabet(q[1]) && q[2] == '=' && q[3] == '='
    requires IndexOf(q[1]) % 16 == 0 && h == [IndexOf(q[0]) * 4 + IndexOf(q[1]) / 16]
    ensures EncodeLast(h) == q
  {
    var i0, i1 := IndexOf(q[0]), IndexOf(q[1]);
    DivMod4(i0, i1 / 16);
    assert h[0] / 4 == i0;
    assert (h[0] % 4) * 16 == i1;
  }

  /** A final quadruple with one pad character. */
  lemma TwoPadCanonical(q: string, h: seq<byte>)
    requires |q| == 4 && IsAlphabet(q[0]) && IsAlphabet(q[1]) && IsAlphabet(q[2]) && q[3] == '='
    requires IndexOf(q[2]) % 4 == 0
    requires h == [IndexOf(q[0]) * 4 + IndexOf(q[1]) / 16, (IndexOf(q[1]) % 16) * 16 + IndexOf(q[2]) / 4]
    ensures EncodeLast(h) == q
  {
    var i0, i1, i2 := IndexOf(q[0]), IndexOf(q[1]), IndexOf(q[2]);
    DivMod4(i0, i1 / 16);
    DivMod16(i1 % 16, i2 / 4);
    assert h[0] / 4 == i0;
    assert (h[0] % 4) * 16 + h[1] / 16 == i1;
    assert (h[1] % 16) * 4 == i2;
  }

  /** The decoder is canonical: the only text that decodes to `b` is the
      encoder's output for `b`. */
  lemma {:induction false} EncodeDecode(s: string, b: seq<byte>)
    requires Decode(s) == Some(b)
    ensures Encode(b) == s
    decreases |s|
  {
    if |s| == 0 {
    } else if |s| == 4 {
      FinalCanonical(s, b);
    } else {
      var head := DecodeInner(s[..4]).value;
      var tail := Decode(s[4..]).value;
      assert b == head + tail;
      InnerCanonical(s[..4], head);
      EncodeDecode(s[4..], tail);
      assert |tail| > 0;
      assert b[..3] == head && b[3..] == tail;
      assert s == s[..4] + s[4..];
    }
  }

  /** Every three bytes of input, and a last incomplete group, become
      four characters. */
  lemma {:induction false} EncodedLength(b: seq<byte>)
    ensures |Encode(b)| == 4 * ((|b| + 2) / 3)
    decreases |b|
  {
    if |b| > 3 {
      EncodedLength(b[3..]);
      assert (|b| + 2) / 3 == (|b| - 1) / 3 + 1;
    }
  }

  /** Decoding succeeds with `b` exactly on the encoding of `b`. */
  lemma DecodeIffEncode(s: string, b: seq<byte>)
    ensures Decode(s) == Some(b) <==> s == Encode(b)
  {
    if Decode(s) == Some(b) { EncodeDecode(s, b); }
    if s == Encode(b) { DecodeEncode(b); }
  }
}
