/**
 * Extraction (extractPayload in bitmap.c, without writing the `recovered`
 * file): reads the parity of every pixel in order, the first 32 as the
 * payload length least-significant bit first, the next 8 * length as the
 * payload bits, and packs those most-significant bit first into bytes.
 */
module Extraction {
  import opened Colors
  import opened Framing
  import opened Options

  /** The parities of `count` consecutive pixels starting at pixel `from`. */
  function Parities(p: seq<Rgb>, img: seq<Byte>, from: nat, count: nat): (s: seq<int>)
    requires IsPalette(p) && from + count <= |img|
    ensures |s| == count && IsBits(s)
  {
    var s := seq(count, k requires 0 <= k < count => Parity(p[img[from + k]]));
    assert forall k :: 0 <= k < count ==> s[k] == Parity(p[img[from + k]]);
    s
  }

  lemma ParitiesSlice(p: seq<Rgb>, img: seq<Byte>, from: nat, count: nat, a: nat, b: nat)
    requires IsPalette(p) && from + count <= |img| && a <= b <= count
    ensures Parities(p, img, from, count)[a..b] == Parities(p, img, from + a, b - a)
  {
  }

  /** The number whose bits, least-significant first, are the parities of pixels 0 .. 31. */
  function StoredBits(p: seq<Rgb>, img: seq<Byte>): (u: int)
    requires IsPalette(p) && 32 <= |img|
    ensures 0 <= u < Pow2(32)
  {
    LsbBound(Parities(p, img, 0, 32));
    FromBitsLsb(Parities(p, img, 0, 32))
  }

  /** A 32-bit pattern read as a C `int`: bit 31 is the sign. */
  function AsInt32(u: int): int {
    if u >= 0x8000_0000 then u - 0x1_0000_0000 else u
  }

  /** The value of `size` in extractPayload. */
  function StoredSize(p: seq<Rgb>, img: seq<Byte>): int
    requires IsPalette(p) && 32 <= |img|
  {
    AsInt32(StoredBits(p, img))
  }

  /** Bit i of a least-significant-first number is cell i. */
  lemma {:induction false} LsbBit(s: seq<int>, i: nat)
    requires IsBits(s) && i < |s|
    ensures (FromBitsLsb(s) / Pow2(i)) % 2 == s[i]
  {
    LsbBound(s);
    var rest := FromBitsLsb(s[1..]);
    LsbBound(s[1..]);
    DivUnique(FromBitsLsb(s), 2, rest, s[0]);
    if i > 0 {
      LsbBit(s[1..], i - 1);
      DivPow2Step(FromBitsLsb(s), i - 1);
    }
  }

  /**
   * The length read back: bit i of the stored 32-bit pattern is the parity of
   * pixel i, that is, it is the sum of parity(pixel i) << i.
   */
  lemma StoredBitsAt(p: seq<Rgb>, img: seq<Byte>, i: nat)
    requires IsPalette(p) && 32 <= |img| && i < 32
    ensures (StoredBits(p, img) / Pow2(i)) % 2 == Parity(p[img[i]])
  {
    LsbBit(Parities(p, img, 0, 32), i);
  }

  /** The pixels the payload loop reads all exist. */
  ghost predicate PayloadFits(p: seq<Rgb>, img: seq<Byte>)
    requires IsPalette(p)
  {
    32 <= |img| && (StoredSize(p, img) >= 0 ==> 32 + 8 * StoredSize(p, img) <= |img|)
  }

  /** The byte packed from the parities of pixels at .. at+7, the first one as its top bit. */
  function PackedByte(p: seq<Rgb>, img: seq<Byte>, at: nat): (b: Byte)
    requires IsPalette(p) && at + 8 <= |img|
  {
    MsbBound(Parities(p, img, at, 8));
    FromBitsMsb(Parities(p, img, at, 8))
  }

  /**
   * What extractPayload recovers.  A negative `size` makes the buffer
   * allocation fail (None).  Otherwise `size` bytes come back; byte k is
   * packed from pixels 32 + 8k .. 32 + 8k + 7, except that the last byte is
   * never packed and stays 0.
   */
  function Extracted(p: seq<Rgb>, img: seq<Byte>): (r: Option<seq<Byte>>)
    requires IsPalette(p) && PayloadFits(p, img)
    ensures r.None? <==> StoredSize(p, img) < 0
    ensures r.Some? ==> |r.value| == StoredSize(p, img)
    ensures r.Some? && |r.value| > 0 ==> r.value[|r.value| - 1] == 0
  {
    var size := StoredSize(p, img);
    if size < 0 then None
    else Some(seq(size, k requires 0 <= k < size =>
                  if k < size - 1 then PackedByte(p, img, 32 + 8 * k) else 0))
  }

  /** Extraction with every byte packed, the last one included. */
  function ExtractedAll(p: seq<Rgb>, img: seq<Byte>): (r: Option<seq<Byte>>)
    requires IsPalette(p) && PayloadFits(p, img)
    ensures r.None? <==> StoredSize(p, img) < 0
    ensures r.Some? ==> |r.value| == StoredSize(p, img)
  {
    var size := StoredSize(p, img);
    if size < 0 then None
    else Some(seq(size, k requires 0 <= k < size => PackedByte(p, img, 32 + 8 * k)))
  }

  /** Byte k of the extraction, for k below the last. */
  lemma ExtractedAt(p: seq<Rgb>, img: seq<Byte>, k: nat)
    requires IsPalette(p) && PayloadFits(p, img) && k + 1 < StoredSize(p, img)
    ensures Extracted(p, img).Some? && Extracted(p, img).value[k] == PackedByte(p, img, 32 + 8 * k)
  {
  }

  /** Byte k of the corrected extraction. */
  lemma ExtractedAllAt(p: seq<Rgb>, img: seq<Byte>, k: nat)
    requires IsPalette(p) && PayloadFits(p, img) && k < StoredSize(p, img)
    ensures ExtractedAll(p, img).Some? && ExtractedAll(p, img).value[k] == PackedByte(p, img, 32 + 8 * k)
  {
  }

  lemma LsbStep(s: seq<int>, i: nat)
    requires i < |s|
    ensures FromBitsLsb(s[..i + 1]) == FromBitsLsb(s[..i]) + s[i] * Pow2(i)
  {
    assert s[..i + 1] == s[..i] + [s[i]];
    LsbAppend(s[..i], s[i]);
  }

  /** A byte with its first j bits, most-significant first, placed and the rest still clear. */
  function PartialByte(s: seq<int>, j: nat): int
    requires j <= |s| && j <= 8
  {
    FromBitsMsb(s[..j]) * Pow2(8 - j)
  }

  /** ORing bit j in at position 7 - j, which is still clear. */
  lemma PartialByteStep(s: seq<int>, j: nat)
    requires IsBits(s) && j < |s| && j < 8
    ensures PartialByte(s, j + 1) == PartialByte(s, j) + (if s[j] == 1 then Pow2(7 - j) else 0)
  {
    assert s[..j + 1][..j] == s[..j];
    var f := FromBitsMsb(s[..j]);
    assert FromBitsMsb(s[..j + 1]) == 2 * f + s[j];
    assert Pow2(8 - j) == 2 * Pow2(7 - j);
    MulDistrib(2 * f, s[j], Pow2(7 - j));
    MulAssoc(f, 2, Pow2(7 - j));
    if s[j] == 0 {
      assert s[j] * Pow2(7 - j) == 0;
    } else {
      assert s[j] * Pow2(7 - j) == Pow2(7 - j);
    }
  }

  /**
   * The reading loops of extractPayload: the parity of each of `count`
   * pixels, from pixel `from` on, one cell per pixel.
   */
  method ReadParities(bmpData: array<Byte>, p: seq<Rgb>, from: nat, count: nat) returns (bits: array<int>)
    requires IsPalette(p) && from + count <= bmpData.Length
    ensures fresh(bits)
    ensures bits[..] == Parities(p, bmpData[..], from, count)
  {
    bits := new int[count];
    var pixel := from;
    var i := 0;
    while i < count
      invariant 0 <= i <= count && pixel == from + i
      invariant bits[..i] == Parities(p, bmpData[..], from, i)
    {
      bits[i] := Parity(p[bmpData[pixel]]);
      pixel := pixel + 1;
      i := i + 1;
    }
  }

  /**
   * The length loop of extractPayload: bit i of `size` is set from cell i,
   * least significant first, and the 32-bit pattern is read as a C `int`.
   */
  method DecodeSize(binSize: array<int>) returns (size: int)
    requires binSize.Length == 32 && IsBits(binSize[..])
    ensures size == AsInt32(FromBitsLsb(binSize[..]))
  {
    ghost var lengthBits := binSize[..];
    size := 0;
    var binIndex := 0;
    var i := 0;
    while i < 32
      invariant 0 <= i <= 32 && binIndex == i
      invariant size == FromBitsLsb(lengthBits[..i])
    {
      // size |= (binSize[binIndex] == 1) << i; bit i of size is still clear
      LsbStep(lengthBits, i);
      if binSize[binIndex] == 1 {
        size := size + Pow2(i);
      }
      binIndex := binIndex + 1;
      i := i + 1;
    }
    assert lengthBits[..32] == lengthBits;
    size := AsInt32(size);
  }

  /**
   * The inner loop of extractPayload's packing step: bits rIndex .. rIndex+7
   * are ORed into recover[index], the first as its top bit.
   */
  method OrBits(result: array<int>, recover: array<int>, index: nat, rIndex: nat) returns (next: nat)
    requires result != recover
    requires index < recover.Length && rIndex + 8 <= result.Length
    requires IsBits(result[rIndex .. rIndex + 8]) && recover[index] == 0
    modifies recover
    ensures next == rIndex + 8
    ensures recover[..] == old(recover[..])[index := FromBitsMsb(result[rIndex .. rIndex + 8])]
  {
    ghost var chunk := result[rIndex .. rIndex + 8];
    next := rIndex;
    var j := 0;
    while j < 8
      invariant 0 <= j <= 8 && next == rIndex + j
      invariant recover[..] == old(recover[..])[index := PartialByte(chunk, j)]
    {
      // recover[index] |= (result[next] == 1) << (7 - j); that bit is still clear
      PartialByteStep(chunk, j);
      assert chunk[j] == result[next];
      if result[next] == 1 {
        recover[index] := recover[index] + Pow2(7 - j);
      }
      next := next + 1;
      j := j + 1;
    }
    assert chunk[..8] == chunk;
  }

  /**
   * The packing loop of extractPayload over the `size * 8` payload bits.
   * Packing fires only when i % 8 == 0 and i != 0, so it runs size - 1
   * times and the last byte keeps the 0 it was cleared to.
   */
  method PackBytes(result: array<int>, size: nat) returns (recover: array<int>)
    requires result.Length == size * 8 && IsBits(result[..])
    ensures fresh(recover) && recover.Length == size
    ensures forall k :: 0 <= k < size - 1 ==> recover[k] == FromBitsMsb(result[8 * k .. 8 * k + 8])
    ensures size > 0 ==> recover[size - 1] == 0
  {
    ghost var payloadBits := result[..];
    recover := new int[size](_ => 0);  // memset(recover, 0, size)
    var rIndex := 0;
    var index := 0;
    var i := 0;
    while i < size * 8
      invariant 0 <= i <= size * 8
      invariant index == if i == 0 then 0 else (i - 1) / 8
      invariant rIndex == 8 * index
      invariant result[..] == payloadBits
      invariant forall k :: 0 <= k < index ==> recover[k] == FromBitsMsb(payloadBits[8 * k .. 8 * k + 8])
      invariant forall k :: index <= k < size ==> recover[k] == 0
    {
      if i % 8 == 0 && i != 0 {
        rIndex := OrBits(result, recover, index, rIndex);
        index := index + 1;
      }
      i := i + 1;
    }
    assert size > 0 ==> index == size - 1;
  }

  /** The packed payload bits are the bytes Extracted describes. */
  lemma PackedAsExtracted(p: seq<Rgb>, img: seq<Byte>, bits: seq<int>, packed: seq<int>)
    requires IsPalette(p) && PayloadFits(p, img) && StoredSize(p, img) >= 0
    requires bits == Parities(p, img, 32, StoredSize(p, img) * 8)
    requires |packed| == StoredSize(p, img)
    requires forall k :: 0 <= k < |packed| - 1 ==> packed[k] == FromBitsMsb(bits[8 * k .. 8 * k + 8])
    requires |packed| > 0 ==> packed[|packed| - 1] == 0
    ensures Extracted(p, img) == Some(packed)
  {
    var size := StoredSize(p, img);
    forall k | 0 <= k < size
      ensures packed[k] == Extracted(p, img).value[k]
    {
      if k < size - 1 {
        ParitiesSlice(p, img, 32, size * 8, 8 * k, 8 * k + 8);
      }
    }
    assert packed == Extracted(p, img).value;
  }

  /**
   * extractPayload: reads the length field, then the payload bits, then packs
   * them eight at a time; packing fires only when i % 8 == 0 and i != 0, so
   * the last byte is never reached.
   */
  method ExtractPayload(bmpData: array<Byte>, p: seq<Rgb>) returns (recovered: Option<seq<Byte>>)
    requires IsPalette(p) && PayloadFits(p, bmpData[..])
    ensures recovered == Extracted(p, bmpData[..])
  {
    ghost var img := bmpData[..];
    var binSize := ReadParities(bmpData, p, 0, 32);
    var size := DecodeSize(binSize);
    assert size == StoredSize(p, img);
    if size < 0 {
      // malloc(size) is asked for at least 2^31 bytes and fails
      recovered := None;
      return;
    }
    var result := ReadParities(bmpData, p, 32, size * 8);
    var recover := PackBytes(result, size);
    PackedAsExtracted(p, img, result[..], recover[..]);
    recovered := Some(recover[..]);
  }
}
