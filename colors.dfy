/**
 * Palette entries, their parity and the colour distance between them
 * (bitmap.c).  The colour table of an 8-bit bitmap has exactly 256 entries;
 * the reserved fourth byte of each entry carries nothing and is left out.
 */
module Colors {

  /** An unsigned 8-bit value: a channel, a pixel's palette index, a payload byte. */
  type Byte = x: int | 0 <= x < 256

  /** One colour-table entry. */
  datatype Rgb = Rgb(red: Byte, green: Byte, blue: Byte)

  const PaletteSize: nat := 256

  predicate IsPalette(p: seq<Rgb>) {
    |p| == PaletteSize
  }

  /** The bit a palette entry carries: (R + G + B) mod 2. */
  function Parity(c: Rgb): (b: int)
    ensures b == 0 || b == 1
  {
    (c.red + c.green + c.blue) % 2
  }

  /**
   * Squared Euclidean distance between two colours, computed on the channels
   * widened to signed integers.  The source ranks by the square root of this
   * value; the root is monotone, so the order and the ties are the same.
   */
  function SqDist(a: Rgb, b: Rgb): (d: int)
    ensures d >= 0
    ensures d == 0 <==> a == b
  {
    var dr, dg, db := a.red - b.red, a.green - b.green, a.blue - b.blue;
    SquareZero(dr);
    SquareZero(dg);
    SquareZero(db);
    dr * dr + dg * dg + db * db
  }

  lemma SquareZero(x: int)
    ensures x * x >= 0
    ensures x * x == 0 <==> x == 0
  {
    if x != 0 {
      if x > 0 {
        assert x * x >= x;
      } else {
        assert x * x >= -x;
      }
    }
  }

  /** Some entry of the palette carries bit `d`. */
  predicate HasParity(p: seq<Rgb>, d: int)
    requires IsPalette(p)
  {
    exists j :: 0 <= j < PaletteSize && Parity(p[j]) == d
  }
}
