/**
 * Hiding a framed payload and extracting it again, as the program does it:
 * the bit count handed to the embedder is 8n (bitmap.c:160, 373), so the
 * last 32 framed bits are never hidden, and extraction never packs the last
 * byte.  Alongside, the corrected pipeline that hides all 8n + 32 bits and
 * packs every byte.
 */
module RoundTrip {
  import opened Colors
  import opened Framing
  import opened Embedding
  import opened Extraction
  import opened Options

  lemma Pow2Values()
    ensures Pow2(8) == 256 && Pow2(32) == 0x1_0000_0000
  {
    assert Pow2(4) == 16;
    assert Pow2(8) == 256;
    assert Pow2(16) == 65536 by {
      Pow2Add(8, 8);
    }
    Pow2Add(16, 16);
  }

  lemma {:induction false} Pow2Add(a: nat, b: nat)
    ensures Pow2(a + b) == Pow2(a) * Pow2(b)
  {
    if a > 0 {
      Pow2Add(a - 1, b);
      MulAssoc(2, Pow2(a - 1), Pow2(b));
    }
  }

  /** A palette holding both parities can carry any framed stream. */
  lemma FrameEmbeddable(p: seq<Rgb>, input: seq<Byte>, msgSize: nat)
    requires IsPalette(p) && HasParity(p, 0) && HasParity(p, 1)
    requires msgSize <= |Frame(input)|
    ensures Embeddable(p, Frame(input), msgSize)
  {
  }

  /** Consumed pixels read back as the framed bits. */
  lemma StegoParities(p: seq<Rgb>, cover: seq<Byte>, input: seq<Byte>, msgSize: nat, from: nat, count: nat)
    requires IsPalette(p) && HasParity(p, 0) && HasParity(p, 1)
    requires msgSize <= |cover| && msgSize <= |Frame(input)|
    requires from + count <= msgSize
    ensures Parities(p, Embedded(p, cover, Frame(input), msgSize), from, count)
        == Frame(input)[from .. from + count]
  {
    FrameEmbeddable(p, input, msgSize);
  }

  /** Pixels past the consumed ones read back as the cover did. */
  lemma CoverParities(p: seq<Rgb>, cover: seq<Byte>, input: seq<Byte>, msgSize: nat, from: nat, count: nat)
    requires IsPalette(p) && HasParity(p, 0) && HasParity(p, 1)
    requires msgSize <= |cover| && msgSize <= |Frame(input)|
    requires msgSize <= from && from + count <= |cover|
    ensures Parities(p, Embedded(p, cover, Frame(input), msgSize), from, count)
        == Parities(p, cover, from, count)
  {
    FrameEmbeddable(p, input, msgSize);
  }

  /** The length field comes back once its 32 bits are hidden. */
  lemma LengthReadBack(p: seq<Rgb>, cover: seq<Byte>, input: seq<Byte>, msgSize: nat)
    requires IsPalette(p) && HasParity(p, 0) && HasParity(p, 1)
    requires 8 * |input| < 0x8000_0000
    requires 32 <= msgSize <= |cover| && msgSize <= |Frame(input)|
    ensures StoredSize(p, Embedded(p, cover, Frame(input), msgSize)) == |input|
  {
    FrameEmbeddable(p, input, msgSize);
    var stego := Embedded(p, cover, Frame(input), msgSize);
    StegoParities(p, cover, input, msgSize, 0, 32);
    assert Frame(input)[0..32] == ToBitsLsb(|input|, 32);
    Pow2Values();
    LsbRoundTrip(|input|, 32);
    assert StoredBits(p, stego) == |input|;
  }

  /** Byte k comes back once its eight framed bits are hidden. */
  lemma ByteReadBack(p: seq<Rgb>, cover: seq<Byte>, input: seq<Byte>, msgSize: nat, k: nat)
    requires IsPalette(p) && HasParity(p, 0) && HasParity(p, 1)
    requires msgSize <= |cover| && msgSize <= |Frame(input)|
    requires k < |input| && 32 + 8 * k + 8 <= msgSize
    ensures PackedByte(p, Embedded(p, cover, Frame(input), msgSize), 32 + 8 * k) == input[k]
  {
    FrameEmbeddable(p, input, msgSize);
    var stego := Embedded(p, cover, Frame(input), msgSize);
    StegoParities(p, cover, input, msgSize, 32 + 8 * k, 8);
    FrameByteSlice(input, k);
    assert Parities(p, stego, 32 + 8 * k, 8) == ToBitsMsb(input[k], 8);
    Pow2Values();
    MsbRoundTrip(input[k], 8);
  }

  /** Bytes whose bits were all hidden come back unchanged. */
  lemma AsWrittenByte(p: seq<Rgb>, cover: seq<Byte>, input: seq<Byte>, k: nat)
    requires IsPalette(p) && HasParity(p, 0) && HasParity(p, 1)
    requires 4 <= |input| && 8 * |input| < 0x8000_0000
    requires 32 + 8 * |input| <= |cover|
    requires k < |input| - 4
    ensures var stego := Embedded(p, cover, Frame(input), 8 * |input|);
      && PayloadFits(p, stego)
      && Extracted(p, stego).Some?
      && |Extracted(p, stego).value| == |input|
      && Extracted(p, stego).value[k] == input[k]
  {
    var stego := Embedded(p, cover, Frame(input), 8 * |input|);
    LengthReadBack(p, cover, input, 8 * |input|);
    assert PayloadFits(p, stego);
    ExtractedAt(p, stego, k);
    ByteReadBack(p, cover, input, 8 * |input|, k);
  }

  /** Bytes n-4 .. n-2 are packed from cover pixels the embedder never reached. */
  lemma AsWrittenTailByte(p: seq<Rgb>, cover: seq<Byte>, input: seq<Byte>, k: nat)
    requires IsPalette(p) && HasParity(p, 0) && HasParity(p, 1)
    requires 4 <= |input| && 8 * |input| < 0x8000_0000
    requires 32 + 8 * |input| <= |cover|
    requires |input| - 4 <= k < |input| - 1
    ensures var stego := Embedded(p, cover, Frame(input), 8 * |input|);
      && PayloadFits(p, stego)
      && Extracted(p, stego).Some?
      && |Extracted(p, stego).value| == |input|
      && Extracted(p, stego).value[k] == PackedByte(p, cover, 32 + 8 * k)
  {
    var stego := Embedded(p, cover, Frame(input), 8 * |input|);
    LengthReadBack(p, cover, input, 8 * |input|);
    assert PayloadFits(p, stego);
    ExtractedAt(p, stego, k);
    CoverParities(p, cover, input, 8 * |input|, 32 + 8 * k, 8);
  }

  /**
   * The round trip as the program behaves, for n >= 4 payload bytes hidden
   * with the reported bit count 8n: the length comes back as n, the first
   * n - 4 bytes come back, the next three are read from pixels the embedder
   * never touched, and the last is 0.
   */
  lemma RoundTripAsWritten(p: seq<Rgb>, cover: seq<Byte>, input: seq<Byte>)
    requires IsPalette(p) && HasParity(p, 0) && HasParity(p, 1)
    requires 4 <= |input| && 8 * |input| < 0x8000_0000
    requires 32 + 8 * |input| <= |cover|
    ensures var n, stego := |input|, Embedded(p, cover, Frame(input), 8 * |input|);
      && PayloadFits(p, stego)
      && StoredSize(p, stego) == n
      && Extracted(p, stego).Some?
      && var r := Extracted(p, stego).value;
      && |r| == n
      && (forall k :: 0 <= k < n - 4 ==> r[k] == input[k])
      && (forall k :: n - 4 <= k < n - 1 ==> r[k] == PackedByte(p, cover, 32 + 8 * k))
      && r[n - 1] == 0
  {
    var n := |input|;
    LengthReadBack(p, cover, input, 8 * n);
    forall k | 0 <= k < n - 4 {
      AsWrittenByte(p, cover, input, k);
    }
    forall k | n - 4 <= k < n - 1 {
      AsWrittenTailByte(p, cover, input, k);
    }
  }

  /**
   * Consequence of the 8n bit count: byte n - 4 is read from cover pixels,
   * so a payload whose byte n - 4 differs from what those pixels carry does
   * not come back.
   */
  lemma TruncatedEmbeddingLosesPayload(p: seq<Rgb>, cover: seq<Byte>, input: seq<Byte>)
    requires IsPalette(p) && HasParity(p, 0) && HasParity(p, 1)
    requires 4 <= |input| && 8 * |input| < 0x8000_0000
    requires 32 + 8 * |input| <= |cover|
    requires |input| >= 5 && input[|input| - 4] != PackedByte(p, cover, 32 + 8 * (|input| - 4))
    ensures var stego := Embedded(p, cover, Frame(input), 8 * |input|);
      PayloadFits(p, stego) && Extracted(p, stego) != Some(input)
  {
    RoundTripAsWritten(p, cover, input);
  }

  /** Consequence of never packing the last byte: a payload ending in a non-zero byte does not come back. */
  lemma UnpackedLastByteLosesPayload(p: seq<Rgb>, cover: seq<Byte>, input: seq<Byte>)
    requires IsPalette(p) && HasParity(p, 0) && HasParity(p, 1)
    requires 4 <= |input| && 8 * |input| < 0x8000_0000
    requires 32 + 8 * |input| <= |cover|
    requires input[|input| - 1] != 0
    ensures var stego := Embedded(p, cover, Frame(input), 8 * |input|);
      PayloadFits(p, stego) && Extracted(p, stego) != Some(input)
  {
    RoundTripAsWritten(p, cover, input);
  }

  /**
   * The corrected pipeline: hiding all 8n + 32 framed bits and packing every
   * byte gives the payload back exactly, for every payload that fits.
   */
  lemma RoundTripCorrected(p: seq<Rgb>, cover: seq<Byte>, input: seq<Byte>)
    requires IsPalette(p) && HasParity(p, 0) && HasParity(p, 1)
    requires 8 * |input| < 0x8000_0000
    requires 32 + 8 * |input| <= |cover|
    ensures var stego := Embedded(p, cover, Frame(input), |Frame(input)|);
      PayloadFits(p, stego) && ExtractedAll(p, stego) == Some(input)
  {
    var msgSize := |Frame(input)|;
    FrameEmbeddable(p, input, msgSize);
    var stego := Embedded(p, cover, Frame(input), msgSize);
    LengthReadBack(p, cover, input, msgSize);
    var r := ExtractedAll(p, stego).value;
    forall k | 0 <= k < |input|
      ensures r[k] == input[k]
    {
      ExtractedAllAt(p, stego, k);
      ByteReadBack(p, cover, input, msgSize, k);
    }
    assert r == input;
  }
}
