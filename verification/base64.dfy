/**
 * Base64 as produced by `binascii.b2a_base64(data, newline=False)`: the
 * standard alphabet and `=` padding of section 4 of RFC 4648, with no line
 * breaks and no trailing newline.  `Decode` is a strict decoder used as the
 * partner of `Encode`.
 */
module Base64 {
  import opened Common

  /** The padding character `=`. */
  const Pad: byte := 61
  /** The line feed that `b2a_base64` appends unless `newline=False`. */
  const Newline: byte := 10

  /** The alphabet character for the 6-bit value `v` (RFC 4648, section 4, Table 1). */
  function EncodeSextet(v: int): (c: byte)
    requires 0 <= v < 64
    ensures DecodeSextet(c) == Some(v)
  {
    if v < 26 then 65 + v               // 'A'..'Z'
    else if v < 52 then 97 + (v - 26)   // 'a'..'z'
    else if v < 62 then 48 + (v - 52)   // '0'..'9'
    else if v == 62 then 43             // '+'
    else 47                             // '/'
  }

  /** The 6-bit value of an alphabet character; `None` for any other byte, `=` included. */
  function DecodeSextet(c: byte): (r: Option<int>)
    ensures r.Some? ==> 0 <= r.value < 64
  {
    if 65 <= c <= 90 then Some(c - 65)
    else if 97 <= c <= 122 then Some(c - 97 + 26)
    else if 48 <= c <= 57 then Some(c - 48 + 52)
    else if c == 43 then Some(62)
    else if c == 47 then Some(63)
    else None
  }

  /** A byte that may appear in encoded text: an alphabet character or the pad. */
  predicate IsEncodedChar(c: byte)
  {
    DecodeSextet(c).Some? || c == Pad
  }

  /** Three input bytes become four characters. */
  function EncodeGroup(b0: byte, b1: byte, b2: byte): seq<byte>
  {
    [EncodeSextet(b0 / 4), EncodeSextet((b0 % 4) * 16 + b1 / 16),
     EncodeSextet((b1 % 16) * 4 + b2 / 64), EncodeSextet(b2 % 64)]
  }

  /** A final group of two bytes: three characters and one pad. */
  function EncodeTail2(b0: byte, b1: byte): seq<byte>
  {
    [EncodeSextet(b0 / 4), EncodeSextet((b0 % 4) * 16 + b1 / 16),
     EncodeSextet((b1 % 16) * 4), Pad]
  }

  /** A final group of one byte: two characters and two pads. */
  function EncodeTail1(b0: byte): seq<byte>
  {
    [EncodeSextet(b0 / 4), EncodeSextet((b0 % 4) * 16), Pad, Pad]
  }

  /** `binascii.b2a_base64(data, newline=False)`. */
  function Encode(data: seq<byte>): (text: seq<byte>)
    ensures |text| == 4 * ((|data| + 2) / 3)
    ensures forall i :: 0 <= i < |text| ==> IsEncodedChar(text[i])
    ensures Newline !in text
    decreases |data|
  {
    if |data| == 0 then []
    else if |data| == 1 then EncodeTail1(data[0])
    else if |data| == 2 then EncodeTail2(data[0], data[1])
    else
      var group, rest := EncodeGroup(data[0], data[1], data[2]), Encode(data[3..]);
      assert (|data| - 3 + 2) / 3 + 1 == (|data| + 2) / 3;
      assert forall i :: 0 <= i < 4 ==> IsEncodedChar(group[i]);
      group + rest
  }

  /**
   * One quad of four characters.  Padding is accepted only in the last quad
   * (`last`), and the bits it discards must be zero.
   */
  function DecodeQuad(c0: byte, c1: byte, c2: byte, c3: byte, last: bool): Option<seq<byte>>
  {
    var s0, s1, s2, s3 := DecodeSextet(c0), DecodeSextet(c1), DecodeSextet(c2), DecodeSextet(c3);
    if s0.None? || s1.None? then None
    else if c2 == Pad && c3 == Pad then
      if last && s1.value % 16 == 0 then Some([s0.value * 4 + s1.value / 16]) else None
    else if s2.None? then None
    else if c3 == Pad then
      if last && s2.value % 4 == 0
      then Some([s0.value * 4 + s1.value / 16, (s1.value % 16) * 16 + s2.value / 4])
      else None
    else if s3.None? then None
    else Some([s0.value * 4 + s1.value / 16, (s1.value % 16) * 16 + s2.value / 4,
               (s2.value % 4) * 64 + s3.value])
  }

  /** Strict decoding: the length is a multiple of four and every quad decodes. */
  function Decode(text: seq<byte>): (r: Option<seq<byte>>)
    decreases |text|
  {
    if |text| == 0 then Some([])
    else if |text| < 4 then None
    else
      match DecodeQuad(text[0], text[1], text[2], text[3], |text| == 4)
      case None => None
      case Some(group) =>
        if |text| == 4 then Some(group)
        else
          match Decode(text[4..])
          case None => None
          case Some(rest) => Some(group + rest)
  }

  /** Splitting a 6-bit value into 2 + 4 bits, 4 + 2 bits, and a byte into 6 + 2 bits. */
  lemma SplitArith(v0: int, v1: int, v2: int, v3: int)
    requires 0 <= v0 < 64 && 0 <= v1 < 64 && 0 <= v2 < 64 && 0 <= v3 < 64
    ensures var b0, b1, b2 := v0 * 4 + v1 / 16, (v1 % 16) * 16 + v2 / 4, (v2 % 4) * 64 + v3;
      && 0 <= b0 < 256 && 0 <= b1 < 256 && 0 <= b2 < 256
      && b0 / 4 == v0 && (b0 % 4) * 16 + b1 / 16 == v1
      && (b1 % 16) * 4 + b2 / 64 == v2 && b2 % 64 == v3
  {
    var h1, l1, h2, l2 := v1 / 16, v1 % 16, v2 / 4, v2 % 4;
    assert v1 == 16 * h1 + l1 && v2 == 4 * h2 + l2;
    var b0, b1, b2 := 4 * v0 + h1, 16 * l1 + h2, 64 * l2 + v3;
    assert b0 / 4 == v0 && b0 % 4 == h1;
    assert b1 / 16 == l1 && b1 % 16 == h2;
    assert b2 / 64 == l2 && b2 % 64 == v3;
  }

  /** Joining a byte into 6 + 2 bits, 4 + 4 bits and 2 + 6 bits, and back. */
  lemma JoinArith(b0: byte, b1: byte, b2: byte)
    ensures b0 / 4 * 4 + ((b0 % 4) * 16 + b1 / 16) / 16 == b0
    ensures ((b0 % 4) * 16 + b1 / 16) % 16 * 16 + ((b1 % 16) * 4 + b2 / 64) / 4 == b1
    ensures ((b1 % 16) * 4 + b2 / 64) % 4 * 64 + b2 % 64 == b2
    ensures ((b0 % 4) * 16) % 16 == 0 && ((b1 % 16) * 4) % 4 == 0
  {
    var x, y := (b0 % 4) * 16 + b1 / 16, (b1 % 16) * 4 + b2 / 64;
    assert x / 16 == b0 % 4 && x % 16 == b1 / 16;
    assert y / 4 == b1 % 16 && y % 4 == b2 / 64;
  }

  lemma GroupRoundTrip(b0: byte, b1: byte, b2: byte, last: bool)
    ensures var g := EncodeGroup(b0, b1, b2); DecodeQuad(g[0], g[1], g[2], g[3], last) == Some([b0, b1, b2])
  {
    JoinArith(b0, b1, b2);
  }

  lemma Tail2RoundTrip(b0: byte, b1: byte)
    ensures var g := EncodeTail2(b0, b1); DecodeQuad(g[0], g[1], g[2], g[3], true) == Some([b0, b1])
  {
    JoinArith(b0, b1, 0);
  }

  lemma Tail1RoundTrip(b0: byte)
    ensures var g := EncodeTail1(b0); DecodeQuad(g[0], g[1], g[2], g[3], true) == Some([b0])
  {
    JoinArith(b0, 0, 0);
  }

  /** A leading unpadded quad followed by more decodable text. */
  lemma DecodeCons(text: seq<byte>, group: seq<byte>, rest: seq<byte>)
    requires |text| > 4
    requires DecodeQuad(text[0], text[1], text[2], text[3], false) == Some(group)
    requires Decode(text[4..]) == Some(rest)
    ensures Decode(text) == Some(group + rest)
  {
  }

  /** Three leading bytes become one leading group of the encoding. */
  lemma EncodeCons(data: seq<byte>)
    requires |data| >= 3
    ensures var g, text := EncodeGroup(data[0], data[1], data[2]), Encode(data);
      && text == g + Encode(data[3..])
      && text[..4] == g && text[4..] == Encode(data[3..])
  {
  }

  /** The first quad of text that starts with the group for `b0 b1 b2` decodes to those bytes. */
  lemma LeadingGroup(text: seq<byte>, b0: byte, b1: byte, b2: byte, last: bool)
    requires |text| >= 4 && text[..4] == EncodeGroup(b0, b1, b2)
    ensures DecodeQuad(text[0], text[1], text[2], text[3], last) == Some([b0, b1, b2])
  {
    var g := EncodeGroup(b0, b1, b2);
    assert text[0] == g[0] && text[1] == g[1] && text[2] == g[2] && text[3] == g[3];
    GroupRoundTrip(b0, b1, b2, last);
  }

  /** A group put in front of decodable text decodes to its three bytes in front of the rest. */
  lemma DecodeGroupCons(b0: byte, b1: byte, b2: byte, tail: seq<byte>, rest: seq<byte>)
    requires |tail| >= 4 && Decode(tail) == Some(rest)
    ensures Decode(EncodeGroup(b0, b1, b2) + tail) == Some([b0, b1, b2] + rest)
  {
    var text := EncodeGroup(b0, b1, b2) + tail;
    assert text[..4] == EncodeGroup(b0, b1, b2) && text[4..] == tail;
    LeadingGroup(text, b0, b1, b2, false);
    DecodeCons(text, [b0, b1, b2], rest);
  }

  lemma DecodeEncodeOne(data: seq<byte>)
    requires |data| == 1
    ensures Decode(Encode(data)) == Some(data)
  {
    Tail1RoundTrip(data[0]);
    assert data == [data[0]];
  }

  lemma DecodeEncodeTwo(data: seq<byte>)
    requires |data| == 2
    ensures Decode(Encode(data)) == Some(data)
  {
    Tail2RoundTrip(data[0], data[1]);
    assert data == [data[0], data[1]];
  }

  lemma DecodeEncodeThree(data: seq<byte>)
    requires |data| == 3
    ensures Decode(Encode(data)) == Some(data)
  {
    EncodeCons(data);
    LeadingGroup(Encode(data), data[0], data[1], data[2], true);
    assert data == [data[0], data[1], data[2]];
  }

  /** Decoding undoes encoding: every byte string survives the round trip. */
  lemma {:induction false} DecodeEncode(data: seq<byte>)
    ensures Decode(Encode(data)) == Some(data)
    decreases |data|
  {
    if |data| == 1 {
      DecodeEncodeOne(data);
    } else if |data| == 2 {
      DecodeEncodeTwo(data);
    } else if |data| == 3 {
      DecodeEncodeThree(data);
    } else if |data| > 3 {
      DecodeEncode(data[3..]);
      EncodeCons(data);
      DecodeGroupCons(data[0], data[1], data[2], Encode(data[3..]), data[3..]);
      assert data == [data[0], data[1], data[2]] + data[3..];
    }
  }

  lemma SextetInverse(c: byte)
    requires DecodeSextet(c).Some?
    ensures EncodeSextet(DecodeSextet(c).value) == c
  {
  }

  /** Re-encoding the bytes rebuilt from four sextets gives those sextets back. */
  lemma GroupOfSextets(v0: int, v1: int, v2: int, v3: int)
    requires 0 <= v0 < 64 && 0 <= v1 < 64 && 0 <= v2 < 64 && 0 <= v3 < 64
    ensures 0 <= v0 * 4 + v1 / 16 < 256 && 0 <= (v1 % 16) * 16 + v2 / 4 < 256 && 0 <= (v2 % 4) * 64 + v3 < 256
    ensures EncodeGroup(v0 * 4 + v1 / 16, (v1 % 16) * 16 + v2 / 4, (v2 % 4) * 64 + v3)
         == [EncodeSextet(v0), EncodeSextet(v1), EncodeSextet(v2), EncodeSextet(v3)]
  {
    SplitArith(v0, v1, v2, v3);
  }

  lemma Tail2OfSextets(v0: int, v1: int, v2: int)
    requires 0 <= v0 < 64 && 0 <= v1 < 64 && 0 <= v2 < 64 && v2 % 4 == 0
    ensures 0 <= v0 * 4 + v1 / 16 < 256 && 0 <= (v1 % 16) * 16 + v2 / 4 < 256
    ensures EncodeTail2(v0 * 4 + v1 / 16, (v1 % 16) * 16 + v2 / 4)
         == [EncodeSextet(v0), EncodeSextet(v1), EncodeSextet(v2), Pad]
  {
    SplitArith(v0, v1, v2, 0);
  }

  lemma Tail1OfSextets(v0: int, v1: int)
    requires 0 <= v0 < 64 && 0 <= v1 < 64 && v1 % 16 == 0
    ensures 0 <= v0 * 4 + v1 / 16 < 256
    ensures EncodeTail1(v0 * 4 + v1 / 16) == [EncodeSextet(v0), EncodeSextet(v1), Pad, Pad]
  {
    SplitArith(v0, v1, 0, 0);
  }

  /** What an unpadded quad decodes to, spelled out. */
  lemma DecodeQuadFull(c0: byte, c1: byte, c2: byte, c3: byte, last: bool)
    requires c3 != Pad && DecodeQuad(c0, c1, c2, c3, last).Some?
    ensures DecodeSextet(c0).Some? && DecodeSextet(c1).Some? && DecodeSextet(c2).Some? && DecodeSextet(c3).Some?
    ensures var v0, v1, v2, v3 := DecodeSextet(c0).value, DecodeSextet(c1).value, DecodeSextet(c2).value, DecodeSextet(c3).value;
      DecodeQuad(c0, c1, c2, c3, last).value == [v0 * 4 + v1 / 16, (v1 % 16) * 16 + v2 / 4, (v2 % 4) * 64 + v3]
  {
  }

  /** What a quad ending in one pad decodes to, spelled out. */
  lemma DecodeQuadTail2(c0: byte, c1: byte, c2: byte, c3: byte, last: bool)
    requires c3 == Pad && c2 != Pad && DecodeQuad(c0, c1, c2, c3, last).Some?
    ensures last && DecodeSextet(c0).Some? && DecodeSextet(c1).Some? && DecodeSextet(c2).Some?
    ensures var v0, v1, v2 := DecodeSextet(c0).value, DecodeSextet(c1).value, DecodeSextet(c2).value;
      v2 % 4 == 0 && DecodeQuad(c0, c1, c2, c3, last).value == [v0 * 4 + v1 / 16, (v1 % 16) * 16 + v2 / 4]
  {
  }

  /** What a quad ending in two pads decodes to, spelled out. */
  lemma DecodeQuadTail1(c0: byte, c1: byte, c2: byte, c3: byte, last: bool)
    requires c2 == Pad && c3 == Pad && DecodeQuad(c0, c1, c2, c3, last).Some?
    ensures last && DecodeSextet(c0).Some? && DecodeSextet(c1).Some?
    ensures var v0, v1 := DecodeSextet(c0).value, DecodeSextet(c1).value;
      v1 % 16 == 0 && DecodeQuad(c0, c1, c2, c3, last).value == [v0 * 4 + v1 / 16]
  {
  }

  lemma FullInverse(c0: byte, c1: byte, c2: byte, c3: byte, last: bool)
    requires c3 != Pad && DecodeQuad(c0, c1, c2, c3, last).Some?
    ensures var g := DecodeQuad(c0, c1, c2, c3, last).value;
      |g| == 3 && EncodeGroup(g[0], g[1], g[2]) == [c0, c1, c2, c3]
  {
    DecodeQuadFull(c0, c1, c2, c3, last);
    var v0, v1, v2, v3 := DecodeSextet(c0).value, DecodeSextet(c1).value, DecodeSextet(c2).value, DecodeSextet(c3).value;
    var b0, b1, b2 := v0 * 4 + v1 / 16, (v1 % 16) * 16 + v2 / 4, (v2 % 4) * 64 + v3;
    assert 0 <= b0 < 256 && 0 <= b1 < 256 && 0 <= b2 < 256 && EncodeGroup(b0, b1, b2) == [c0, c1, c2, c3] by {
      GroupOfSextets(v0, v1, v2, v3);
      SextetInverse(c0); SextetInverse(c1); SextetInverse(c2); SextetInverse(c3);
    }
  }

  lemma Tail2Inverse(c0: byte, c1: byte, c2: byte, c3: byte, last: bool)
    requires c3 == Pad && c2 != Pad && DecodeQuad(c0, c1, c2, c3, last).Some?
    ensures var g := DecodeQuad(c0, c1, c2, c3, last).value;
      last && |g| == 2 && EncodeTail2(g[0], g[1]) == [c0, c1, c2, c3]
  {
    DecodeQuadTail2(c0, c1, c2, c3, last);
    var v0, v1, v2 := DecodeSextet(c0).value, DecodeSextet(c1).value, DecodeSextet(c2).value;
    var b0, b1 := v0 * 4 + v1 / 16, (v1 % 16) * 16 + v2 / 4;
    assert 0 <= b0 < 256 && 0 <= b1 < 256 && EncodeTail2(b0, b1) == [c0, c1, c2, c3] by {
      Tail2OfSextets(v0, v1, v2);
      SextetInverse(c0); SextetInverse(c1); SextetInverse(c2);
    }
  }

  lemma Tail1Inverse(c0: byte, c1: byte, c2: byte, c3: byte, last: bool)
    requires c2 == Pad && c3 == Pad && DecodeQuad(c0, c1, c2, c3, last).Some?
    ensures var g := DecodeQuad(c0, c1, c2, c3, last).value;
      last && |g| == 1 && EncodeTail1(g[0]) == [c0, c1, c2, c3]
  {
    DecodeQuadTail1(c0, c1, c2, c3, last);
    var v0, v1 := DecodeSextet(c0).value, DecodeSextet(c1).value;
    var b0 := v0 * 4 + v1 / 16;
    assert 0 <= b0 < 256 && EncodeTail1(b0) == [c0, c1, c2, c3] by {
      Tail1OfSextets(v0, v1);
      SextetInverse(c0); SextetInverse(c1);
    }
  }

  /** A quad that decodes is the encoding of the bytes it decodes to. */
  lemma QuadInverse(c0: byte, c1: byte, c2: byte, c3: byte, last: bool)
    requires DecodeQuad(c0, c1, c2, c3, last).Some?
    ensures var g := DecodeQuad(c0, c1, c2, c3, last).value;
      || (|g| == 3 && EncodeGroup(g[0], g[1], g[2]) == [c0, c1, c2, c3])
      || (last && |g| == 2 && EncodeTail2(g[0], g[1]) == [c0, c1, c2, c3])
      || (last && |g| == 1 && EncodeTail1(g[0]) == [c0, c1, c2, c3])
  {
    if c2 == Pad && c3 == Pad {
      Tail1Inverse(c0, c1, c2, c3, last);
    } else if c3 == Pad {
      Tail2Inverse(c0, c1, c2, c3, last);
    } else {
      FullInverse(c0, c1, c2, c3, last);
    }
  }

  lemma LastQuadEncodeDecode(text: seq<byte>)
    requires |text| == 4 && Decode(text).Some?
    ensures Encode(Decode(text).value) == text
  {
    QuadInverse(text[0], text[1], text[2], text[3], true);
    var g := DecodeQuad(text[0], text[1], text[2], text[3], true).value;
    assert Decode(text).value == g;
    assert text == [text[0], text[1], text[2], text[3]];
    if |g| == 3 {
      assert Encode(g) == EncodeGroup(g[0], g[1], g[2]) + Encode(g[3..]);
    }
  }

  /** Encoding undoes strict decoding: text that decodes is the canonical encoding of its bytes. */
  lemma {:induction false} EncodeDecode(text: seq<byte>)
    requires Decode(text).Some?
    ensures Encode(Decode(text).value) == text
    decreases |text|
  {
    if |text| == 4 {
      LastQuadEncodeDecode(text);
    } else if |text| > 4 {
      QuadInverse(text[0], text[1], text[2], text[3], false);
      var g := DecodeQuad(text[0], text[1], text[2], text[3], false).value;
      var rest := Decode(text[4..]).value;
      var data := Decode(text).value;
      assert data == g + rest;
      assert |g| == 3;
      EncodeDecode(text[4..]);
      assert data[3..] == rest;
      assert Encode(data) == EncodeGroup(g[0], g[1], g[2]) + Encode(rest);
      assert text == [text[0], text[1], text[2], text[3]] + text[4..];
    }
  }

  /** Distinct byte strings never share an encoding. */
  lemma EncodeInjective(a: seq<byte>, b: seq<byte>)
    requires Encode(a) == Encode(b)
    ensures a == b
  {
    DecodeEncode(a);
    DecodeEncode(b);
  }
}
