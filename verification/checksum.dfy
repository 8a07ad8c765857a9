/**
 * The checksum field of an embedded artifact: `hashlib.md5(data).hexdigest()`.
 * MD5 itself is not modelled; it is a 16-byte digest supplied by the caller.
 * What is modelled is the hexadecimal rendering of the digest.
 */
module Checksum {
  import opened Common

  /** A 128-bit digest. */
  type Digest = d: seq<byte> | |d| == 16 witness [0, 0, 0, 0, 0, 0, 0, 0, 0, 0, 0, 0, 0, 0, 0, 0]

  /** The digits `hexdigest()` uses, lower case. */
  const HexDigits: string := "0123456789abcdef"

  /** The value of a lower-case hexadecimal digit. */
  function HexValue(c: char): (r: Option<int>)
    ensures r.Some? ==> 0 <= r.value < 16 && HexDigits[r.value] == c
  {
    if '0' <= c <= '9' then Some(c as int - '0' as int)
    else if 'a' <= c <= 'f' then Some(c as int - 'a' as int + 10)
    else None
  }

  /** Two lower-case hexadecimal digits per byte, most significant first. */
  function HexDigest(d: seq<byte>): (h: string)
    ensures |h| == 2 * |d|
    ensures forall i :: 0 <= i < |h| ==> HexValue(h[i]).Some?
  {
    if |d| == 0 then ""
    else [HexDigits[d[0] / 16], HexDigits[d[0] % 16]] + HexDigest(d[1..])
  }

  /** Reads a hex digest back into bytes; `None` for odd length or a character outside `0-9a-f`. */
  function ParseHex(h: string): Option<seq<byte>>
    decreases |h|
  {
    if |h| == 0 then Some([])
    else if |h| == 1 then None
    else
      match (HexValue(h[0]), HexValue(h[1]), ParseHex(h[2..]))
      case (Some(hi), Some(lo), Some(rest)) => Some([hi * 16 + lo] + rest)
      case _ => None
  }

  lemma HexDigitValue(v: int)
    requires 0 <= v < 16
    ensures HexValue(HexDigits[v]) == Some(v)
  {
  }

  lemma ParseHexCons(h: string, hi: int, lo: int, rest: seq<byte>)
    requires |h| >= 2 && HexValue(h[0]) == Some(hi) && HexValue(h[1]) == Some(lo)
    requires ParseHex(h[2..]) == Some(rest)
    ensures 0 <= hi * 16 + lo < 256
    ensures ParseHex(h) == Some([hi * 16 + lo] + rest)
  {
  }

  /** The hex digest can be read back into the digest it came from. */
  lemma {:induction false} ParseHexDigest(d: seq<byte>)
    ensures ParseHex(HexDigest(d)) == Some(d)
  {
    if |d| > 0 {
      var h, b := HexDigest(d), d[0];
      assert h == [HexDigits[b / 16], HexDigits[b % 16]] + HexDigest(d[1..]);
      assert h[2..] == HexDigest(d[1..]);
      HexDigitValue(b / 16);
      HexDigitValue(b % 16);
      ParseHexDigest(d[1..]);
      ParseHexCons(h, b / 16, b % 16, d[1..]);
      assert d == [b / 16 * 16 + b % 16] + d[1..];
    }
  }
}
