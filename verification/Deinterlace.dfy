/**
 Splitting an image into the seven interlacing passes is undone by the decoder: an interlaced file
 decodes to the same bytes as the image it was made from.
 */
module Deinterlace {
  import opened Binary
  import opened BitStream
  import opened PngFilter
  import opened PngPixels
  import opened PngImage
  import opened Packing
  import opened Adam7
  import opened Interlace

  // Pixels depend on their samples only

  /** Byte b of pixel i of the output row of x pixels. */
  function PixelByte(f: Format, row: seq<byte>, x: nat, i: nat, b: nat): byte
    requires f.Valid() && |row| == f.RowBytes(x)
  {
    ByteIn(OutRow(f, row, x), InRowAt(PixelBytes(f), i) + b)
  }

  function ByteIn(s: seq<byte>, k: nat): byte {
    if k < |s| then s[k] else 0
  }

  /** The value of sample k, zero outside the row. */
  function ValueIn(f: Format, row: seq<byte>, k: nat): nat
    requires f.Valid()
  {
    if InRow(|row|, f.depth, k) then Value(f, row, k) else 0
  }

  /** Component c of pixel i: a sample of the file, or opaque. */
  function ComponentOf(f: Format, row: seq<byte>, i: nat, c: nat): nat
    requires f.Valid()
  {
    if c < f.imgN then ValueIn(f, row, i * f.imgN + c) else f.Limit() - 1
  }

  /** The component that byte b of a pixel belongs to, and its place in it. */
  function PartOf(f: Format, b: nat): nat {
    if f.depth == 16 then b / 2 else b
  }

  function PlaceOf(f: Format, b: nat): nat {
    if f.depth == 16 then b % 2 else 0
  }

  /** Byte b of a pixel is determined by one sample of the file, or is opaque. */
  lemma OutByteAt(f: Format, row: seq<byte>, x: nat, i: nat, b: nat)
    requires f.Valid() && |row| == f.RowBytes(x) && i < x && b < PixelBytes(f)
    ensures InRowAt(PixelBytes(f), i) + b < |OutRow(f, row, x)|
    ensures PartOf(f, b) < f.imgN ==> InRow(|row|, f.depth, i * f.imgN + PartOf(f, b))
    ensures PixelByte(f, row, x, i, b) == ByteOf(f, PlaceOf(f, b), ComponentOf(f, row, i, PartOf(f, b)))
  {
    hide OutRow, Format.RowBytes, ComponentOf, ByteOf, InRow, InRowAt, PixelByte, Format.Stride;
    OutRowsSlice(f, x, i);
    if f.depth == 16 {
      OutWordAt(f, row, x, i, b);
    } else {
      OutNarrowAt(f, row, x, i, b);
    }
  }

  lemma OutNarrowAt(f: Format, row: seq<byte>, x: nat, i: nat, b: nat)
    requires f.Valid() && f.depth != 16 && |row| == f.RowBytes(x) && i < x && b < PixelBytes(f)
    requires InRowAt(PixelBytes(f), i) + b < f.Stride(x)
    ensures b < f.imgN ==> InRow(|row|, f.depth, i * f.imgN + b)
    ensures PixelByte(f, row, x, i, b) == ByteOf(f, 0, ComponentOf(f, row, i, b))
  {
    hide OutRow, OutSamples, Format.RowBytes, Value, InRow, Format.Stride;
    OutSampleAt(f, row, x, i, b);
    NarrowRow(f, row, x);
  }

  lemma OutRowsSlice(f: Format, x: nat, i: nat)
    requires f.Valid() && i < x
    ensures InRowAt(PixelBytes(f), i) + PixelBytes(f) <= f.Stride(x)
  {
    hide Format.Stride;
    StrideIs(f, x);
    PixelInStride(x, PixelBytes(f), i);
  }

  lemma NarrowRow(f: Format, row: seq<byte>, x: nat)
    requires f.Valid() && |row| == f.RowBytes(x) && f.depth != 16
    ensures OutRow(f, row, x) == OutSamples(f, row, x)
  {
    hide OutSamples, Format.RowBytes, Format.Stride;
  }

  lemma OutWordAt(f: Format, row: seq<byte>, x: nat, i: nat, b: nat)
    requires f.Valid() && f.depth == 16 && |row| == f.RowBytes(x) && i < x && b < PixelBytes(f)
    requires InRowAt(PixelBytes(f), i) + b < f.Stride(x)
    ensures b / 2 < f.imgN ==> InRow(|row|, f.depth, i * f.imgN + b / 2)
    ensures PixelByte(f, row, x, i, b) == ByteOf(f, b % 2, ComponentOf(f, row, i, b / 2))
  {
    hide OutSamples, Format.RowBytes, Value, InRow, Format.Stride;
    var c := b / 2;
    OutSampleAt(f, row, x, i, c);
    var t := i * f.outN + c;
    assert InRowAt(PixelBytes(f), i) + b == 2 * t + b % 2 by { MulSwapTwo(i, f.outN); }
    WordOf(OutSamples(f, row, x), t, b % 2);
  }

  lemma MulSwapTwo(i: nat, n: nat)
    ensures i * (n * 2) == 2 * (i * n)
  {
  }

  lemma WordOf(v: seq<nat>, t: nat, e: nat)
    requires t < |v| && e < 2
    ensures Words(v)[2 * t + e] == if e == 0 then v[t] % 256 else v[t] / 256 % 256
  {
  }

  function ByteOf(f: Format, e: nat, v: nat): nat {
    if f.depth == 16 then (if e == 0 then v % 256 else v / 256 % 256) else v
  }

  /** Sample c of pixel i of a row. */
  function PixelSample(f: Format, row: seq<byte>, i: nat, c: nat): nat
    requires f.Valid()
  {
    Read(f, row, i * f.imgN + c)
  }

  ghost predicate SameSamples(f: Format, row: seq<byte>, i: nat, other: seq<byte>, k: nat)
    requires f.Valid()
  {
    forall c :: 0 <= c < f.imgN ==> PixelSample(f, row, i, c) == PixelSample(f, other, k, c)
  }

  /** The bytes of pixel i of the output row of x pixels. */
  function PixelSlice(f: Format, row: seq<byte>, x: nat, i: nat): seq<byte>
    requires f.Valid() && |row| == f.RowBytes(x)
  {
    Slice(OutRow(f, row, x), InRowAt(PixelBytes(f), i), PixelBytes(f))
  }

  lemma SameByte(f: Format, row: seq<byte>, x: nat, i: nat, other: seq<byte>, y: nat, k: nat, b: nat)
    requires f.Valid() && |row| == f.RowBytes(x) && |other| == f.RowBytes(y) && i < x && k < y
    requires SameSamples(f, row, i, other, k) && b < PixelBytes(f)
    ensures |PixelSlice(f, row, x, i)| == |PixelSlice(f, other, y, k)| == PixelBytes(f)
    ensures PixelSlice(f, row, x, i)[b] == PixelSlice(f, other, y, k)[b]
  {
    hide OutRow, Format.RowBytes, InRowAt, ByteOf, Read, InRow, Value;
    OutByteAt(f, row, x, i, PixelBytes(f) - 1);
    OutByteAt(f, other, y, k, PixelBytes(f) - 1);
    OutByteAt(f, row, x, i, b);
    OutByteAt(f, other, y, k, b);
    var c := PartOf(f, b);
    if c < f.imgN {
      assert PixelSample(f, row, i, c) == PixelSample(f, other, k, c);
      SameValue(f, row, i * f.imgN + c, other, k * f.imgN + c);
    }
  }

  /** Pixels with the same samples have the same bytes in the output. */
  lemma SamePixelBytes(f: Format, row: seq<byte>, x: nat, i: nat, other: seq<byte>, y: nat, k: nat)
    requires f.Valid() && |row| == f.RowBytes(x) && |other| == f.RowBytes(y) && i < x && k < y
    requires SameSamples(f, row, i, other, k)
    ensures PixelSlice(f, row, x, i) == PixelSlice(f, other, y, k)
  {
    assert 0 < PixelBytes(f);
    hide PixelSlice, Format.RowBytes, SameSamples, PixelBytes;
    SameByte(f, row, x, i, other, y, k, 0);
    forall b | 0 <= b < PixelBytes(f)
      ensures PixelSlice(f, row, x, i)[b] == PixelSlice(f, other, y, k)[b]
    {
      SameByte(f, row, x, i, other, y, k, b);
    }
  }

  lemma SameValue(f: Format, row: seq<byte>, i: nat, other: seq<byte>, k: nat)
    requires f.Valid() && InRow(|row|, f.depth, i) && InRow(|other|, f.depth, k) && Read(f, row, i) == Read(f, other, k)
    ensures Value(f, row, i) == Value(f, other, k)
  {
    hide Sample, InRow;
  }

  // Splitting an image

  /** Sample t of row j of pass p, from the rows of the image. */
  function Source(f: Format, rows: seq<seq<byte>>, p: nat, j: nat, t: nat): nat
    requires f.Valid() && p < 7
  {
    if j * YSpc(p) + YOrig(p) < |rows|
    then PixelSample(f, rows[j * YSpc(p) + YOrig(p)], t / f.imgN * XSpc(p) + XOrig(p), t % f.imgN) else 0
  }

  function Sources(f: Format, w: nat, rows: seq<seq<byte>>, p: nat, j: nat): (vs: seq<nat>)
    requires f.Valid() && p < 7
    ensures |vs| == f.imgN * Width(w, p) && Fit(vs, f.depth)
  {
    assert forall t: nat :: Source(f, rows, p, j, t) < Pow2(f.depth) by {
      forall t: nat
        ensures Source(f, rows, p, j, t) < Pow2(f.depth)
      {
        SourceBelow(f, rows, p, j, t);
      }
    }
    seq(f.imgN * Width(w, p), t requires 0 <= t => Source(f, rows, p, j, t))
  }

  lemma SourceBelow(f: Format, rows: seq<seq<byte>>, p: nat, j: nat, t: nat)
    requires f.Valid() && p < 7
    ensures Source(f, rows, p, j, t) < Pow2(f.depth)
  {
    if j * YSpc(p) + YOrig(p) < |rows| {
      ReadBelow(f, rows[j * YSpc(p) + YOrig(p)], (t / f.imgN * XSpc(p) + XOrig(p)) * f.imgN + t % f.imgN);
    }
  }

  function PassRow(f: Format, w: nat, rows: seq<seq<byte>>, p: nat, j: nat): (row: seq<byte>)
    requires f.Valid() && p < 7
    ensures |row| == f.RowBytes(Width(w, p))
  {
    PackRow(f, Width(w, p), Sources(f, w, rows, p, j))
  }

  /** The rows of pass p of an image. */
  function PassRows(f: Format, w: nat, h: nat, rows: seq<seq<byte>>, p: nat): (passRows: seq<seq<byte>>)
    requires f.Valid() && p < 7
    ensures |passRows| == Height(h, p) && Rectangular(passRows, f.RowBytes(Width(w, p)))
  {
    seq(Height(h, p), j requires 0 <= j => PassRow(f, w, rows, p, j))
  }

  lemma PixelIndex(n: nat, i: nat, c: nat)
    requires c < n
    ensures (i * n + c) / n == i && (i * n + c) % n == c
  {
    var q, r := (i * n + c) / n, (i * n + c) % n;
    assert i * n + c == q * n + r;
    if i < q {
      PixelInRow(i, q, n);
    } else if q < i {
      PixelInRow(q, i, n);
    }
  }

  /** Pixel i of row j of a pass has the samples of its pixel in the image. */
  lemma PassSamples(f: Format, w: nat, rows: seq<seq<byte>>, p: nat, i: nat, j: nat)
    requires f.Valid() && p < 7 && i < Width(w, p) && j * YSpc(p) + YOrig(p) < |rows|
    ensures SameSamples(f, PassRow(f, w, rows, p, j), i, rows[j * YSpc(p) + YOrig(p)], i * XSpc(p) + XOrig(p))
  {
    hide PassSize, PackRow, Read;
    forall c | 0 <= c < f.imgN
      ensures PixelSample(f, PassRow(f, w, rows, p, j), i, c)
           == PixelSample(f, rows[j * YSpc(p) + YOrig(p)], i * XSpc(p) + XOrig(p), c)
    {
      PixelIndex(f.imgN, i, c);
      PixelInRow(i, Width(w, p), f.imgN);
      PackedSample(f, Width(w, p), Sources(f, w, rows, p, j), i * f.imgN + c);
    }
  }

  /** Every pixel of the passes is the pixel of the image. */
  lemma SplitPixel(f: Format, w: nat, h: nat, rows: seq<seq<byte>>, x: nat, y: nat)
    requires f.Valid() && w <= MAX_DIMENSION && h <= MAX_DIMENSION && x < w && y < h
    requires |rows| == h && Rectangular(rows, f.RowBytes(w))
    ensures var p := PassOf(x, y); PassPixel(f, w, PassRows(f, w, h, rows, p), p, x, y) == PixelOf(f, w, rows, x, y)
  {
    hide PassOf, Column, Line, PassSize, Format.RowBytes, PixelBytes, OutRow, Slice, PassRow, SameSamples;
    var p := PassOf(x, y);
    PassHolds(x, y);
    var i, j := Column(p, x), Line(p, y);
    InBounds(w, h, p, i, j, x, y);
    PassSamples(f, w, rows, p, i, j);
    SamePixelBytes(f, PassRow(f, w, rows, p, j), Width(w, p), i, rows[y], w, x);
  }

  // The interlaced data

  /** Filter types for every row of every pass. */
  predicate FilterChoice(h: nat, filters: seq<seq<nat>>) {
    |filters| == 7 && forall p :: 0 <= p < 7 ==> |filters[p]| == Height(h, p) && FilterTypes(filters[p])
  }

  function PassData(f: Format, w: nat, h: nat, rows: seq<seq<byte>>, filters: seq<seq<nat>>, p: nat): (r: seq<byte>)
    requires f.Valid() && FilterChoice(h, filters) && p < 7
    ensures |r| == PassLength(f, w, h, p)
  {
    RowStartProduct(f.RowBytes(Width(w, p)), Height(h, p));
    if Empty(w, h, p) then []
    else Encode(filters[p], f.FilterBytes(), PassRows(f, w, h, rows, p), f.RowBytes(Width(w, p)))
  }

  /** The filtered data of the first k passes. */
  function Interlaced(f: Format, w: nat, h: nat, rows: seq<seq<byte>>, filters: seq<seq<nat>>, k: nat): (r: seq<byte>)
    requires f.Valid() && FilterChoice(h, filters) && k <= 7
    ensures |r| == PassOffset(f, w, h, k)
    decreases k
  {
    if k == 0 then [] else Interlaced(f, w, h, rows, filters, k - 1) + PassData(f, w, h, rows, filters, k - 1)
  }

  lemma {:induction false} InterlacedPrefix(f: Format, w: nat, h: nat, rows: seq<seq<byte>>, filters: seq<seq<nat>>, k: nat, m: nat)
    requires f.Valid() && FilterChoice(h, filters) && k <= m <= 7
    ensures Interlaced(f, w, h, rows, filters, k) <= Interlaced(f, w, h, rows, filters, m)
    decreases m
  {
    hide PassData, FilterChoice;
    if k < m {
      InterlacedPrefix(f, w, h, rows, filters, k, m - 1);
    }
  }

  /** The data of a pass stands where the data of the passes before it ends. */
  lemma PassStarts(f: Format, w: nat, h: nat, rows: seq<seq<byte>>, filters: seq<seq<nat>>, extra: seq<byte>, p: nat)
    requires f.Valid() && FilterChoice(h, filters) && p < 7
    ensures PassData(f, w, h, rows, filters, p) <= After(Interlaced(f, w, h, rows, filters, 7) + extra, PassOffset(f, w, h, p))
  {
    hide PassData, FilterChoice, PassOffset;
    InterlacedPrefix(f, w, h, rows, filters, p + 1, 7);
    var all, a, b := Interlaced(f, w, h, rows, filters, 7), Interlaced(f, w, h, rows, filters, p), PassData(f, w, h, rows, filters, p);
    assert Interlaced(f, w, h, rows, filters, p + 1) == a + b;
    Middle(all + extra, a, b);
  }

  lemma Middle(s: seq<byte>, a: seq<byte>, b: seq<byte>)
    requires a + b <= s
    ensures b <= s[|a|..]
  {
    assert s[|a|..][..|b|] == (a + b)[|a|..];
  }

  // Sizes

  lemma SmallerFits(f: Format, w: nat, h: nat, x: nat, y: nat)
    requires f.Valid() && x <= w && y <= h && SizesFit(f, w, h)
    ensures SizesFit(f, x, y)
  {
    MulGrows(x, w, y);
    MulGrows(y, h, w);
    assert x * y <= w * h;
    MulGrows(x * y, w * h, f.outN * f.Bytes());
    MulGrows(x, w, f.imgN);
    MulGrows(f.imgN * x, f.imgN * w, f.depth);
    assert f.imgN * x * f.depth <= f.imgN * w * f.depth;
    assert f.RowBytes(x) <= f.RowBytes(w);
    MulGrows(f.RowBytes(x), f.RowBytes(w), y);
    MulGrows(y, h, f.RowBytes(w));
  }

  lemma MulGrows(a: nat, b: nat, c: nat)
    requires a <= b
    ensures a * c <= b * c && c * a <= c * b
  {
  }

  /** The data holds the seven passes of the image. */
  lemma SplitPassesAt(f: Format, w: nat, h: nat, rows: seq<seq<byte>>, filters: seq<seq<nat>>, extra: seq<byte>, p: nat)
    requires f.Valid() && w <= MAX_DIMENSION && h <= MAX_DIMENSION && SizesFit(f, w, h) && FilterChoice(h, filters) && p < 7
    ensures PassAt(f, Interlaced(f, w, h, rows, filters, 7) + extra, w, h, p, Pass(filters[p], PassRows(f, w, h, rows, p)))
  {
    hide SizesFit, PassSize, Format.RowBytes, PassOffset, Interlaced, PassRows, Encode, Format.FilterBytes;
    PassWidthBound(w, h, p);
    SmallerFits(f, w, h, Width(w, p), Height(h, p));
    PassStarts(f, w, h, rows, filters, extra, p);
  }

  function SplitPasses(f: Format, w: nat, h: nat, rows: seq<seq<byte>>, filters: seq<seq<nat>>): (ps: seq<Pass>)
    requires f.Valid() && FilterChoice(h, filters)
    ensures |ps| == 7 && forall p :: 0 <= p < 7 ==> ps[p] == Pass(filters[p], PassRows(f, w, h, rows, p))
  {
    seq(7, p requires 0 <= p < 7 => Pass(filters[p], PassRows(f, w, h, rows, p)))
  }

  // The decoder

  /** Images whose pixels agree are equal. */
  lemma RegionsDetermine(w: nat, h: nat, n: nat, s: seq<byte>, t: seq<byte>)
    requires 0 < n && |s| == |t| == Size(w, h, n)
    requires forall u, v :: 0 <= u < w && 0 <= v < h ==> Region(s, w, h, n, u, v) == Region(t, w, h, n, u, v)
    ensures s == t
  {
    hide Region;
    forall k | 0 <= k < |s|
      ensures s[k] == t[k]
    {
      var u, v := IndexOf(w, h, n, k);
      RegionHolds(w, h, n, s, u, v, k);
      RegionHolds(w, h, n, t, u, v, k);
      assert Region(s, w, h, n, u, v) == Region(t, w, h, n, u, v);
    }
  }

  lemma IndexOf(w: nat, h: nat, n: nat, k: nat) returns (u: nat, v: nat)
    requires 0 < n && k < Size(w, h, n)
    ensures u < w && v < h && At(w, n, u, v) <= k < At(w, n, u, v) + n
  {
    QuotientBelow(k, n, w * h);
    var i := k / n;
    assert 0 < w && w * h == h * w by { MulGrows(0, w, h); }
    QuotientBelow(i, w, h);
    v := i / w;
    u := i - v * w;
  }

  lemma QuotientBelow(k: nat, n: nat, m: nat)
    requires 0 < n && k < m * n
    ensures k / n < m && k / n * n <= k < k / n * n + n
  {
    if m <= k / n {
      MulGrows(m, k / n, n);
    }
  }

  lemma RegionHolds(w: nat, h: nat, n: nat, s: seq<byte>, u: nat, v: nat, k: nat)
    requires |s| == Size(w, h, n) && u < w && v < h && At(w, n, u, v) <= k < At(w, n, u, v) + n
    ensures k < |s| && Region(s, w, h, n, u, v)[k - At(w, n, u, v)] == s[k]
  {
    PixelFits(w, h, n, u, v);
  }

  /**
   Split an image into its passes, filter their rows with any types and decode the data: the output
   is the one of the image itself.
   */
  method RoundTrip(f: Format, w: nat, h: nat, rows: seq<seq<byte>>, filters: seq<seq<nat>>, extra: seq<byte>)
    returns (final: array<byte>)
    requires f.Valid() && w <= MAX_DIMENSION && h <= MAX_DIMENSION && SizesFit(f, w, h)
    requires |rows| == h && Rectangular(rows, f.RowBytes(w)) && FilterChoice(h, filters)
    ensures final[..] == OutRows(f, rows, w)
  {
    hide SizesFit, PassAt, Placed, Format.RowBytes, OutRows, Interlaced, FilterChoice, Size, PixelBytes;
    var raw := Interlaced(f, w, h, rows, filters, 7) + extra;
    ghost var ps := SplitPasses(f, w, h, rows, filters);
    forall p | 0 <= p < 7
      ensures PassAt(f, raw, w, h, p, ps[p])
    {
      SplitPassesAt(f, w, h, rows, filters, extra, p);
    }
    assert PassesAt(f, raw, w, h, ps);
    FitsWhole(f, w, h);
    var ok;
    ghost var passes;
    ok, final, passes := CreateInterlaced(f, raw, w, h);
    DecodedImage(f, raw, w, h, rows, filters, ps, passes, final[..]);
  }

  lemma FitsWhole(f: Format, w: nat, h: nat)
    requires f.Valid() && SizesFit(f, w, h)
    ensures Size(w, h, PixelBytes(f)) <= INT_MAX
  {
  }

  lemma DecodedImage(f: Format, raw: seq<byte>, w: nat, h: nat, rows: seq<seq<byte>>, filters: seq<seq<nat>>,
                     ps: seq<Pass>, passes: seq<Pass>, final: seq<byte>)
    requires f.Valid() && w <= MAX_DIMENSION && h <= MAX_DIMENSION
    requires |rows| == h && Rectangular(rows, f.RowBytes(w)) && FilterChoice(h, filters)
    requires ps == SplitPasses(f, w, h, rows, filters) && PassesAt(f, raw, w, h, ps)
    requires |passes| == 7 && PassesAt(f, raw, w, h, passes)
    requires |final| == Size(w, h, PixelBytes(f)) && Placed(f, w, h, passes, final)
    ensures final == OutRows(f, rows, w)
  {
    hide Format.RowBytes, OutRows, FilterChoice, Size, PixelBytes, Region, PassOf, PassPixel, PixelOf, PassAt, PassRows;
    OutRowsSize(f, rows, w, h);
    forall u, v | 0 <= u < w && 0 <= v < h
      ensures Region(final, w, h, PixelBytes(f), u, v) == Region(OutRows(f, rows, w), w, h, PixelBytes(f), u, v)
    {
      var p := PassOf(u, v);
      NonEmptyPass(w, h, u, v);
      assert PassAt(f, raw, w, h, p, passes[p]) && PassAt(f, raw, w, h, p, ps[p]);
      PassUnique(f, raw, w, h, p, passes[p], ps[p]);
      SplitPixel(f, w, h, rows, u, v);
      ImagePixel(f, w, h, rows, u, v);
    }
    PixelHasBytes(f);
    RegionsDetermine(w, h, PixelBytes(f), final, OutRows(f, rows, w));
  }

  lemma PixelHasBytes(f: Format)
    requires f.Valid()
    ensures 0 < PixelBytes(f)
  {
  }

  lemma OutRowsSize(f: Format, rows: seq<seq<byte>>, w: nat, h: nat)
    requires f.Valid() && |rows| == h && Rectangular(rows, f.RowBytes(w))
    ensures |OutRows(f, rows, w)| == Size(w, h, PixelBytes(f))
  {
    OutRowsLength(f, rows, w);
    OutSize(f, w, h);
  }

  lemma NonEmptyPass(w: nat, h: nat, u: nat, v: nat)
    requires w <= MAX_DIMENSION && h <= MAX_DIMENSION && u < w && v < h
    ensures !Empty(w, h, PassOf(u, v))
  {
    hide PassOf, PassSize;
    if Empty(w, h, PassOf(u, v)) {
      EmptyPassHasNoPixels(w, h, PassOf(u, v));
      assert false;
    }
  }

  lemma ImagePixel(f: Format, w: nat, h: nat, rows: seq<seq<byte>>, u: nat, v: nat)
    requires f.Valid() && |rows| == h && Rectangular(rows, f.RowBytes(w)) && u < w && v < h
    requires |OutRows(f, rows, w)| == Size(w, h, PixelBytes(f))
    ensures Region(OutRows(f, rows, w), w, h, PixelBytes(f), u, v) == PixelOf(f, w, rows, u, v)
  {
    hide Format.RowBytes, OutRows, PixelOf, Size, PixelBytes, At;
    OutRowsAt(f, rows, w, u, v);
  }
}
