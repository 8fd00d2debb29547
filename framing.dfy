/**
 * Payload framing (convertToBinary in bitmap.c): a byte sequence becomes a
 * flat array of 0/1 cells, 32 cells of the byte count least-significant bit
 * first, then the bits of each byte most-significant bit first.
 */
module Framing {
  import opened Colors

  function Pow2(k: nat): (r: nat)
    ensures r >= 1
  {
    if k == 0 then 1 else 2 * Pow2(k - 1)
  }

  ghost predicate IsBits(s: seq<int>) {
    forall k :: 0 <= k < |s| ==> s[k] == 0 || s[k] == 1
  }

  /** The `w` low bits of `n`, least-significant first. */
  function ToBitsLsb(n: nat, w: nat): (s: seq<int>)
    ensures |s| == w
  {
    if w == 0 then [] else [n % 2] + ToBitsLsb(n / 2, w - 1)
  }

  /** The number whose bits, least-significant first, are `s`. */
  function FromBitsLsb(s: seq<int>): int {
    if s == [] then 0 else s[0] + 2 * FromBitsLsb(s[1..])
  }

  /** The `w` low bits of `n`, most-significant first. */
  function ToBitsMsb(n: nat, w: nat): (s: seq<int>)
    ensures |s| == w
  {
    if w == 0 then [] else ToBitsMsb(n / 2, w - 1) + [n % 2]
  }

  /** The number whose bits, most-significant first, are `s`. */
  function FromBitsMsb(s: seq<int>): int {
    if s == [] then 0 else 2 * FromBitsMsb(s[..|s| - 1]) + s[|s| - 1]
  }

  lemma DivUnique(n: int, d: int, q: int, r: int)
    requires d > 0 && n == q * d + r && 0 <= r < d
    ensures n / d == q && n % d == r
  {
    var q0, r0 := n / d, n % d;
    assert n == q0 * d + r0;
    var e := q - q0;
    assert e * d == r0 - r by {
      assert q * d - q0 * d == (q - q0) * d;
    }
    assert e == 0;
  }

  lemma MulDistrib(x: int, y: int, z: int)
    ensures (x + y) * z == x * z + y * z
  {
  }

  lemma MulAssoc(x: int, y: int, z: int)
    ensures (x * y) * z == x * (y * z)
  {
  }

  lemma RemainderBound(r2: nat, r1: nat, a: nat, b: nat)
    requires r2 < b && r1 < a
    ensures r2 * a + r1 < a * b
  {
    assert r2 * a <= (b - 1) * a by {
      MulMono(r2, b - 1, a);
    }
    MulDistrib(b, -1, a);
  }

  lemma MulMono(x: nat, y: nat, z: nat)
    requires x <= y
    ensures x * z <= y * z
  {
    MulDistrib(x, y - x, z);
  }

  /** Dividing by `a` and then by `b` is dividing by `a * b`. */
  lemma DivDiv(n: nat, a: nat, b: nat)
    requires a > 0 && b > 0
    ensures n / a / b == n / (a * b)
  {
    var q1, r1 := n / a, n % a;
    var q2, r2 := q1 / b, q1 % b;
    assert n == q1 * a + r1;
    assert q1 == q2 * b + r2;
    assert q1 * a == q2 * (a * b) + r2 * a by {
      MulDistrib(q2 * b, r2, a);
      MulAssoc(q2, b, a);
      assert b * a == a * b;
    }
    RemainderBound(r2, r1, a, b);
    assert 0 <= r2 * a;
    DivUnique(n, a * b, q2, r2 * a + r1);
  }

  lemma DivPow2Step(n: nat, k: nat)
    ensures n / 2 / Pow2(k) == n / Pow2(k + 1)
  {
    DivDiv(n, 2, Pow2(k));
  }

  /** Cell k of the least-significant-first expansion is bit k of n. */
  lemma {:induction false} ToBitsLsbAt(n: nat, w: nat, k: nat)
    requires k < w
    ensures ToBitsLsb(n, w)[k] == (n / Pow2(k)) % 2
  {
    if k > 0 {
      ToBitsLsbAt(n / 2, w - 1, k - 1);
      DivPow2Step(n, k - 1);
    }
  }

  /** Cell m of the most-significant-first expansion is bit w-1-m of n. */
  lemma {:induction false} ToBitsMsbAt(n: nat, w: nat, m: nat)
    requires m < w
    ensures ToBitsMsb(n, w)[m] == (n / Pow2(w - 1 - m)) % 2
  {
    if m < w - 1 {
      ToBitsMsbAt(n / 2, w - 1, m);
      DivPow2Step(n, w - 2 - m);
    }
  }

  lemma {:induction false} LsbRoundTrip(n: nat, w: nat)
    requires n < Pow2(w)
    ensures FromBitsLsb(ToBitsLsb(n, w)) == n
  {
    if w > 0 {
      LsbRoundTrip(n / 2, w - 1);
      assert ToBitsLsb(n, w)[1..] == ToBitsLsb(n / 2, w - 1);
    }
  }

  lemma {:induction false} MsbRoundTrip(n: nat, w: nat)
    requires n < Pow2(w)
    ensures FromBitsMsb(ToBitsMsb(n, w)) == n
  {
    if w > 0 {
      MsbRoundTrip(n / 2, w - 1);
      var s := ToBitsMsb(n, w);
      assert s[..|s| - 1] == ToBitsMsb(n / 2, w - 1);
    }
  }

  lemma {:induction false} LsbBound(s: seq<int>)
    requires IsBits(s)
    ensures 0 <= FromBitsLsb(s) < Pow2(|s|)
  {
    if s != [] {
      LsbBound(s[1..]);
    }
  }

  lemma {:induction false} MsbBound(s: seq<int>)
    requires IsBits(s)
    ensures 0 <= FromBitsMsb(s) < Pow2(|s|)
  {
    if s != [] {
      MsbBound(s[..|s| - 1]);
    }
  }

  /** Appending a high bit to a least-significant-first number adds 2^|s| or nothing. */
  lemma {:induction false} LsbAppend(s: seq<int>, b: int)
    ensures FromBitsLsb(s + [b]) == FromBitsLsb(s) + b * Pow2(|s|)
  {
    if s != [] {
      assert (s + [b])[1..] == s[1..] + [b];
      LsbAppend(s[1..], b);
      assert b * Pow2(|s|) == 2 * (b * Pow2(|s| - 1));
    }
  }

  /** The eight bits of a byte, most-significant first. */
  function ByteBits(b: Byte): (s: seq<int>)
    ensures |s| == 8
  {
    ToBitsMsb(b, 8)
  }

  /** The byte expansion of a whole payload. */
  function Expand(input: seq<Byte>): (s: seq<int>)
    ensures |s| == 8 * |input|
  {
    if input == [] then [] else Expand(input[..|input| - 1]) + ByteBits(input[|input| - 1])
  }

  lemma {:induction false} ExpandAt(input: seq<Byte>, i: nat, m: nat)
    requires i < |input| && m < 8
    ensures Expand(input)[8 * i + m] == ByteBits(input[i])[m]
  {
    var last := |input| - 1;
    var front := input[..last];
    assert Expand(input) == Expand(front) + ByteBits(input[last]);
    if i < last {
      ExpandAt(front, i, m);
    }
  }

  /**
   * Length prefix: the first 32 cells are the bits of the byte count, least
   * significant first.
   */
  lemma FrameLengthBit(input: seq<Byte>, k: nat)
    requires k < 32
    ensures Frame(input)[k] == (|input| / Pow2(k)) % 2
  {
    ToBitsLsbAt(|input|, 32, k);
  }

  /**
   * Byte expansion: cell 32 + 8i + m holds bit 7 - m of byte i, that is
   * `(input[i] >> (7 - m)) & 1`.
   */
  lemma FrameByteBit(input: seq<Byte>, i: nat, m: nat)
    requires i < |input| && m < 8
    ensures Frame(input)[32 + 8 * i + m] == (input[i] / Pow2(7 - m)) % 2
  {
    ExpandAt(input, i, m);
    ToBitsMsbAt(input[i], 8, m);
  }

  /** Every cell of the length field and of the byte expansion is 0 or 1. */
  lemma FramedCellsAreBits(input: seq<Byte>)
    ensures IsBits(ToBitsLsb(|input|, 32) + Expand(input))
  {
    var s := ToBitsLsb(|input|, 32) + Expand(input);
    forall k | 0 <= k < |s|
      ensures s[k] == 0 || s[k] == 1
    {
      if k < 32 {
        ToBitsLsbAt(|input|, 32, k);
      } else {
        var i, m := (k - 32) / 8, (k - 32) % 8;
        ExpandAt(input, i, m);
        ToBitsMsbAt(input[i], 8, m);
      }
    }
  }

  /**
   * The whole framed stream: the 32-bit length field, then the byte
   * expansion; every cell is 0 or 1.
   */
  function Frame(input: seq<Byte>): (s: seq<int>)
    ensures |s| == 32 + 8 * |input|
    ensures IsBits(s)
  {
    FramedCellsAreBits(input);
    ToBitsLsb(|input|, 32) + Expand(input)
  }

  /** The eight framed cells of byte i read back as that byte. */
  lemma FrameByteSlice(input: seq<Byte>, i: nat)
    requires i < |input|
    ensures Frame(input)[32 + 8 * i .. 32 + 8 * i + 8] == ByteBits(input[i])
  {
    var f := Frame(input);
    forall m | 0 <= m < 8
      ensures f[32 + 8 * i + m] == ByteBits(input[i])[m]
    {
      ExpandAt(input, i, m);
    }
  }

  lemma LsbStep(done: seq<int>, m: nat, w: nat, t: seq<int>)
    requires w > 0 && done + ToBitsLsb(m, w) == t
    ensures (done + [m % 2]) + ToBitsLsb(m / 2, w - 1) == t
  {
    assert ToBitsLsb(m, w) == [m % 2] + ToBitsLsb(m / 2, w - 1);
  }

  lemma ExpandSnoc(input: seq<Byte>, i: nat)
    requires i < |input|
    ensures Expand(input[..i + 1]) == Expand(input[..i]) + ByteBits(input[i])
  {
    assert input[..i + 1][..i] == input[..i];
  }

  lemma PrefixSnoc(s: seq<int>, t: nat)
    requires t < |s|
    ensures s[..t + 1] == s[..t] + [s[t]]
  {
  }

  /**
   * The first loop of convertToBinary: cell k of the buffer gets bit k of
   * the message length, least significant first, and the rest is untouched.
   */
  method WriteLength(bin: array<Byte>, n: nat)
    requires 32 <= bin.Length
    modifies bin
    ensures bin[..32] == ToBitsLsb(n, 32)
    ensures bin[32..] == old(bin[32..])
  {
    ghost var lengthField := ToBitsLsb(n, 32);
    var msgSize: nat := n;
    var index := 0;
    while index != 32
      invariant 0 <= index <= 32
      invariant bin[..index] + ToBitsLsb(msgSize, 32 - index) == lengthField
      invariant bin[32..] == old(bin[32..])
    {
      ghost var done := bin[..index];
      var i := 0;
      // the same cell is written 32 times over
      while i < 32
        invariant 0 <= i <= 32
        invariant bin[..index] == done && bin[32..] == old(bin[32..])
        invariant i > 0 ==> bin[index] == msgSize % 2
      {
        if msgSize % 2 == 1 {
          bin[index] := 1;
        } else {
          bin[index] := 0;
        }
        i := i + 1;
      }
      PrefixSnoc(bin[..], index);
      LsbStep(done, msgSize, 32 - index, lengthField);
      msgSize := msgSize / 2;
      index := index + 1;
    }
    assert bin[..32] + [] == bin[..32];
  }

  /**
   * The inner loop of convertToBinary for one payload byte: its bits, most
   * significant first, go to cells at .. at+7; nothing else changes.
   */
  method WriteByte(bin: array<Byte>, at: nat, b: Byte)
    requires at + 8 <= bin.Length
    modifies bin
    ensures bin[..at] == old(bin[..at])
    ensures bin[at .. at + 8] == ByteBits(b)
    ensures bin[at + 8 ..] == old(bin[at + 8 ..])
  {
    ghost var bits := ByteBits(b);
    var index := at;
    var j := 7;
    while j >= 0
      invariant -1 <= j <= 7
      invariant index == at + (7 - j)
      invariant bin[..at] == old(bin[..at]) && bin[at + 8 ..] == old(bin[at + 8 ..])
      invariant bin[at .. index] == bits[..7 - j]
    {
      ToBitsMsbAt(b, 8, 7 - j);
      bin[index] := (b / Pow2(j)) % 2;
      PrefixSnoc(bits, 7 - j);
      assert bin[at .. index + 1] == bin[at .. index] + [bin[index]];
      index := index + 1;
      j := j - 1;
    }
    assert bits[..8] == bits;
  }

  /**
   * convertToBinary without the file I/O: fills a buffer of 8n + 32 cells
   * with the framed stream and reports 8n as its size, leaving the 32
   * length cells out of the count.
   */
  method ConvertToBinary(input: seq<Byte>) returns (bin: array<Byte>, size: int)
    requires 8 * |input| < 0x8000_0000
    ensures fresh(bin)
    ensures bin[..] == Frame(input)
    ensures size == 8 * |input|
  {
    bin := new Byte[8 * |input| + 32];
    ghost var lengthField := ToBitsLsb(|input|, 32);
    WriteLength(bin, |input|);
    var index := 32;
    var i := 0;
    while i < |input|
      invariant 0 <= i <= |input|
      invariant index == 32 + 8 * i
      invariant bin[..index] == lengthField + Expand(input[..i])
    {
      ghost var done := bin[..index];
      WriteByte(bin, index, input[i]);
      ExpandSnoc(input, i);
      assert bin[..index + 8] == done + ByteBits(input[i]) == lengthField + Expand(input[..i + 1]);
      index := index + 8;
      i := i + 1;
    }
    assert input[..|input|] == input;
    assert bin[..] == bin[..index];
    size := |input| * 8;
  }
}
