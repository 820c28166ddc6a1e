/**
 What the layout of a row means (sections 7.2 and 9.2 of the PNG specification): samples are
 numbers of depth bits, packed from the high bits of each byte, without gaps inside a row.
 */
module PngBits {
  import opened Binary
  import opened BitStream
  import opened PngPixels

  /** Bit j of a row, the leftmost bit of a byte being its highest. */
  function RowBit(row: seq<byte>, j: nat): nat
    requires j / 8 < |row|
  {
    Shr(row[j / 8], 7 - j % 8) % 2
  }

  /** The n bits from position p on as a number, the first one most significant. */
  function Number(row: seq<byte>, p: nat, n: nat): nat
    requires p + n <= 8 * |row|
    decreases n, p
  {
    if n == 0 then 0 else 2 * Number(row, p, n - 1) + RowBit(row, p + n - 1)
  }

  lemma {:induction false} NumberInByte(row: seq<byte>, k: nat, j: nat, n: nat)
    requires k < |row| && j + n <= 8
    ensures Number(row, 8 * k + j, n) == Low(Shr(row[k], 8 - j - n), n)
    decreases n
  {
    if n > 0 {
      NumberInByte(row, k, j, n - 1);
      var i := 8 * k + j + n - 1;
      assert i / 8 == k && i % 8 == j + n - 1;
      ShrShr(row[k], 8 - j - n, 1);
      assert Shr(Shr(row[k], 8 - j - n), 1) == Shr(row[k], 8 - j - n) / 2;
    }
  }

  lemma WholeByte(row: seq<byte>, k: nat)
    requires k < |row|
    ensures Number(row, 8 * k, 8) == row[k]
  {
    Pow2Values();
    NumberInByte(row, k, 0, 8);
    LowSmall(row[k], 8);
  }

  lemma {:induction false} NumberSplit(row: seq<byte>, p: nat, m: nat, n: nat)
    requires p + m + n <= 8 * |row|
    ensures Number(row, p, m + n) == Shl(Number(row, p, m), n) + Number(row, p + m, n)
    decreases n
  {
    if n > 0 {
      NumberSplit(row, p, m, n - 1);
    }
  }

  lemma SamplePlace(depth: nat, i: nat, size: nat)
    requires depth in {1, 2, 4, 8, 16} && InRow(size, depth, i)
    ensures depth * i + depth <= 8 * size
    ensures depth < 8 ==> depth * i == 8 * (i / (8 / depth)) + depth * (i % (8 / depth))
  {
  }

  /** Sample i is the number that stands in the depth bits from depth * i on. */
  lemma SampleIsNumber(row: seq<byte>, depth: nat, i: nat)
    requires depth in {1, 2, 4, 8, 16} && InRow(|row|, depth, i)
    ensures depth * i + depth <= 8 * |row|
    ensures Sample(row, depth, i) == Number(row, depth * i, depth)
  {
    hide Number;
    SamplePlace(depth, i, |row|);
    if depth < 8 {
      var k, r := i / (8 / depth), i % (8 / depth);
      DigitFits(depth, r);
      NumberInByte(row, k, depth * r, depth);
    } else if depth == 8 {
      WholeByte(row, i);
    } else {
      NumberSplit(row, 16 * i, 8, 8);
      WholeByte(row, 2 * i);
      WholeByte(row, 2 * i + 1);
      ShlIsProduct(row[2 * i], 8);
      Pow2Values();
    }
  }

  /** A row has as many bytes as its bits need. */
  lemma RowBytesRounds(f: Format, x: nat)
    requires f.Valid()
    ensures f.imgN * x * f.depth <= 8 * f.RowBytes(x) < f.imgN * x * f.depth + 8
  {
  }

  /** The filters look back by one pixel, or by one byte if a byte holds several. */
  lemma FilterBytesRounds(f: Format)
    requires f.Valid() && (8 <= f.depth || f.imgN == 1)
    ensures f.imgN * f.depth <= 8 * f.FilterBytes() < f.imgN * f.depth + 8
  {
  }

  /** Grey samples of low depth are scaled so that the largest becomes 255; other samples are not scaled. */
  lemma ScaledRange(f: Format, v: nat)
    requires f.Valid() && f.depth < 8
    requires (f.depth == 1 ==> v <= 1) && (f.depth == 2 ==> v <= 3) && (f.depth == 4 ==> v <= 15)
    ensures f.color == 0 ==> Scaled(f, v) * (Pow2(f.depth) - 1) == 255 * v
    ensures f.color != 0 ==> Scaled(f, v) == v
  {
    Pow2Values();
  }

  /** The bytes of sixteen-bit samples come least significant first. */
  lemma WordsRead(v: seq<nat>, t: nat)
    requires t < |v| && v[t] < 65536
    ensures Words(v)[2 * t] as int + 256 * Words(v)[2 * t + 1] as int == v[t]
  {
  }
}
