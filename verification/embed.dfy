/**
 * `bin2python` (tools/embedsrv.py): turns the bytes of one binary into the
 * body of a parenthesised Python bytes-literal concatenation, together with
 * the size and MD5 of the original bytes.
 *
 * Reading the input file is replaced by the bytes themselves; MD5 and bz2
 * are library calls whose internals are not modelled, so they are passed in
 * as functions and the model only fixes which bytes each is applied to.
 */
module Embed {
  import opened Common
  import Base64
  import Framing
  import Checksum

  /** The keyword defaults of `bin2python`. */
  const DefaultColumns: int := 70
  const DefaultPrefix: seq<byte> := [32, 32, 32, 32]   // four spaces
  const DefaultSep: seq<byte> := [10]                  // "\n"
  const DefaultCompress: bool := true

  /** The triple `bin2python` returns: framed lines, uncompressed size, hex MD5. */
  datatype EncodedArtifact = EncodedArtifact(pylines: seq<byte>, size: nat, md5: string)

  /** The bytes that get base64-encoded: the bz2 output when compressing, else the input. */
  function Payload(data: seq<byte>, compress: bool, bz2: seq<byte> -> seq<byte>): seq<byte>
  {
    if compress then bz2(data) else data
  }

  /** No base64 character is the quote that closes a literal line. */
  lemma EncodedHasNoQuote(data: seq<byte>)
    ensures Framing.Quote !in Base64.Encode(data)
  {
  }

  /**
   * `bin2python(infile, columns=columns, prefix=prefix, sep=sep, compress=compress)`
   * where `md5` stands for the digest `hashlib.md5` computes and `bz2` for
   * `bz2.compress(..., compresslevel=9)`.
   */
  method Bin2Python(data: seq<byte>, md5: seq<byte> -> Checksum.Digest, bz2: seq<byte> -> seq<byte>,
                    columns: int, prefix: seq<byte>, sep: seq<byte>, compress: bool)
    returns (r: EncodedArtifact)
    requires columns >= 1
    ensures r.size == |data|
    ensures r.md5 == Checksum.HexDigest(md5(data)) && |r.md5| == 32
    ensures r.pylines == Framing.FrameSpec(Base64.Encode(Payload(data, compress, bz2)), columns, prefix, sep)
    ensures var lines := Framing.Unframe(r.pylines, prefix, sep);
      && lines.Some?
      && Base64.Decode(Concat(lines.value)) == Some(Payload(data, compress, bz2))
  {
    var dataRaw := data;
    var dataSize := |dataRaw|;
    var dataMd5 := Checksum.HexDigest(md5(dataRaw));
    if compress {
      dataRaw := bz2(dataRaw);
    }
    var dataB64 := Base64.Encode(dataRaw);
    var pylines := Framing.Frame(dataB64, columns, prefix, sep);
    EncodedHasNoQuote(dataRaw);
    Framing.FrameRoundTrip(dataB64, columns, prefix, sep);
    Base64.DecodeEncode(dataRaw);
    r := EncodedArtifact(pylines, dataSize, dataMd5);
  }

  /**
   * The two bytes `AB`, uncompressed, at four columns: the base64 text is
   * `QUI=` and the body is the single line `prefix + b'b"QUI="'`.
   */
  lemma ExampleAB(prefix: seq<byte>, sep: seq<byte>)
    ensures Base64.Encode([65, 66]) == [81, 85, 73, 61]
    ensures Framing.FrameSpec([81, 85, 73, 61], 4, prefix, sep) == prefix + [98, 34, 81, 85, 73, 61, 34]
  {
    var text: seq<byte> := [81, 85, 73, 61];
    assert Framing.ChunkCount(4, 4) == 1;
    assert Framing.Chunk(text, 4, 0) == text;
    assert Framing.Chunks(text, 4) == [text];
  }
}
