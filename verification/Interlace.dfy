/**
 Decoding of an interlaced image: the passes are decoded one after the other and their
 pixels are copied to their places in the final image.
 */
module Interlace {
  import opened BitStream
  import opened PngFilter
  import opened PngPixels
  import opened PngImage
  import opened Adam7

  /** Bytes of a pixel in the output. */
  function PixelBytes(f: Format): nat {
    f.outN * f.Bytes()
  }

  /** Index of the first of the n bytes of pixel (x, y) in an image of width w. */
  function At(w: nat, n: nat, x: nat, y: nat): nat {
    (y * w + x) * n
  }

  /** Index of the first byte of pixel i in a row. */
  function InRowAt(n: nat, i: nat): nat {
    i * n
  }

  function Size(w: nat, h: nat, n: nat): nat {
    w * h * n
  }

  /** The bytes of pixel (x, y) in an image of width w with n bytes to a pixel. */
  function Region(s: seq<byte>, w: nat, h: nat, n: nat, x: nat, y: nat): (r: seq<byte>)
    requires |s| == Size(w, h, n) && x < w && y < h
    ensures |r| == n
  {
    PixelFits(w, h, n, x, y);
    s[At(w, n, x, y)..At(w, n, x, y) + n]
  }

  lemma PixelFits(w: nat, h: nat, n: nat, x: nat, y: nat)
    requires x < w && y < h
    ensures At(w, n, x, y) + n <= Size(w, h, n)
  {
    PixelInRow(y, h, w);
    PixelInRow(y * w + x, h * w, n);
    assert h * w == w * h;
  }

  lemma IndexUnique(w: nat, x: nat, y: nat, x': nat, y': nat)
    requires x < w && x' < w && y * w + x == y' * w + x'
    ensures x == x' && y == y'
  {
    if y < y' {
      PixelInRow(y, y', w);
    } else if y' < y {
      PixelInRow(y', y, w);
    }
  }

  lemma RegionsDisjoint(w: nat, n: nat, x: nat, y: nat, x': nat, y': nat)
    requires x < w && x' < w && (x != x' || y != y')
    ensures At(w, n, x, y) + n <= At(w, n, x', y') || At(w, n, x', y') + n <= At(w, n, x, y)
  {
    var a, b := y * w + x, y' * w + x';
    if a == b {
      IndexUnique(w, x, y, x', y');
    } else if a < b {
      PixelInRow(a, b, n);
    } else {
      PixelInRow(b, a, n);
    }
  }

  /** Copy one pixel to its place. */
  method PutPixel(final: array<byte>, w: nat, h: nat, n: nat, x: nat, y: nat, src: array<byte>, s: nat)
    requires final.Length == Size(w, h, n) && x < w && y < h && src != final && s + n <= src.Length
    modifies final
    ensures Region(final[..], w, h, n, x, y) == src[s..s + n]
    ensures forall u, v :: 0 <= u < w && 0 <= v < h && !(u == x && v == y) ==>
      Region(final[..], w, h, n, u, v) == old(Region(final[..], w, h, n, u, v))
  {
    hide At, Size;
    PixelFits(w, h, n, x, y);
    var d := At(w, n, x, y);
    CopyBytes(src, s, final, d, n);
    forall u, v | 0 <= u < w && 0 <= v < h && !(u == x && v == y)
      ensures Region(final[..], w, h, n, u, v) == old(Region(final[..], w, h, n, u, v))
    {
      PixelFits(w, h, n, u, v);
      RegionsDisjoint(w, n, x, y, u, v);
    }
  }

  /** Pixel i of an output row, nothing if the row has no such pixel. */
  function PixelOf(f: Format, w: nat, rows: seq<seq<byte>>, i: nat, j: nat): seq<byte>
    requires f.Valid()
  {
    if j < |rows| && |rows[j]| == f.RowBytes(w) then Slice(OutRow(f, rows[j], w), InRowAt(PixelBytes(f), i), PixelBytes(f)) else []
  }

  function Slice(s: seq<byte>, at: nat, n: nat): seq<byte> {
    if at + n <= |s| then s[at..at + n] else []
  }

  lemma OutRowsSplit(f: Format, rows: seq<seq<byte>>, x: nat)
    requires f.Valid() && Rectangular(rows, f.RowBytes(x)) && rows != []
    ensures OutRows(f, rows, x) == OutRows(f, rows[..|rows| - 1], x) + OutRow(f, rows[|rows| - 1], x)
  {
  }

  lemma LastRowAt(f: Format, rows: seq<seq<byte>>, x: nat, i: nat)
    requires f.Valid() && Rectangular(rows, f.RowBytes(x)) && i < x && rows != []
    ensures var n, j := PixelBytes(f), |rows| - 1;
      && At(x, n, i, j) + n <= |OutRows(f, rows, x)|
      && OutRows(f, rows, x)[At(x, n, i, j)..At(x, n, i, j) + n] == PixelOf(f, x, rows, i, j)
  {
    hide OutRow, OutRows, Format.RowBytes, Format.Stride, PixelBytes, At, PixelOf, InRowAt;
    var n, j := PixelBytes(f), |rows| - 1;
    OutRowsSplit(f, rows, x);
    StrideIs(f, x);
    PixelInStride(x, n, i);
    OutRowsLength(f, rows[..j], x);
    AtRow(x, n, i, j);
    SliceOfTail(OutRows(f, rows[..j], x), OutRow(f, rows[j], x), At(x, n, i, j), n);
    RowPixel(f, x, rows, i, j);
  }

  /** The pixel slice of the output rows is the pixel of its row. */
  lemma {:induction false} OutRowsAt(f: Format, rows: seq<seq<byte>>, x: nat, i: nat, j: nat)
    requires f.Valid() && Rectangular(rows, f.RowBytes(x)) && i < x && j < |rows|
    ensures At(x, PixelBytes(f), i, j) + PixelBytes(f) <= |OutRows(f, rows, x)|
    ensures OutRows(f, rows, x)[At(x, PixelBytes(f), i, j)..At(x, PixelBytes(f), i, j) + PixelBytes(f)] == PixelOf(f, x, rows, i, j)
    decreases |rows|
  {
    hide OutRow, OutRows, Format.RowBytes, Format.Stride, PixelBytes, At, PixelOf, InRowAt;
    var n, m := PixelBytes(f), |rows| - 1;
    OutRowsSplit(f, rows, x);
    if j < m {
      OutRowsAt(f, rows[..m], x, i, j);
      SliceOfHead(OutRows(f, rows[..m], x), OutRow(f, rows[m], x), At(x, n, i, j), n);
      assert rows[..m][j] == rows[j];
      SamePixel(f, x, rows, rows[..m], i, j);
    } else {
      LastRowAt(f, rows, x, i);
    }
  }

  lemma SliceOfHead<T>(head: seq<T>, tail: seq<T>, at: nat, n: nat)
    requires at + n <= |head|
    ensures (head + tail)[at..at + n] == head[at..at + n]
  {
  }

  lemma SamePixel(f: Format, w: nat, rows: seq<seq<byte>>, other: seq<seq<byte>>, i: nat, j: nat)
    requires f.Valid() && j < |rows| && j < |other| && rows[j] == other[j]
    ensures PixelOf(f, w, rows, i, j) == PixelOf(f, w, other, i, j)
  {
  }

  lemma RowPixel(f: Format, w: nat, rows: seq<seq<byte>>, i: nat, j: nat)
    requires f.Valid() && j < |rows| && |rows[j]| == f.RowBytes(w)
    ensures PixelOf(f, w, rows, i, j) == Slice(OutRow(f, rows[j], w), InRowAt(PixelBytes(f), i), PixelBytes(f))
  {
  }

  lemma PixelInStride(x: nat, n: nat, i: nat)
    requires i < x
    ensures InRowAt(n, i) + n <= x * n
  {
    PixelInRow(i, x, n);
  }

  lemma AtRow(x: nat, n: nat, i: nat, j: nat)
    ensures At(x, n, i, j) == j * (x * n) + InRowAt(n, i)
  {
    MulSum(j * x, i, n);
    assert j * x * n == j * (x * n);
  }

  lemma StrideIs(f: Format, x: nat)
    ensures f.Stride(x) == x * PixelBytes(f)
  {
    assert x * f.outN * f.Bytes() == x * (f.outN * f.Bytes());
  }

  /** Pixel (x, y) belongs to pass p and comes before place (i, j) of the pass. */
  predicate Before(p: nat, i: nat, j: nat, x: nat, y: nat)
    requires p < 7
  {
    PassOf(x, y) == p && XOrig(p) <= x && YOrig(p) <= y &&
    (Line(p, y) < j || (Line(p, y) == j && Column(p, x) < i))
  }

  lemma BeforeNext(p: nat, i: nat, j: nat, x: nat, y: nat, u: nat, v: nat)
    requires p < 7 && Holds(p, i, j, x, y)
    ensures Before(p, i + 1, j, u, v) <==> Before(p, i, j, u, v) || (u == x && v == y)
  {
    hide PassOf, Column, Line;
    HeldOnce(x, y, p, i, j);
    HeldOnce(u, v, p, i, j);
  }

  /** What the final image holds while pass p is copied, relative to what it held before. */
  ghost predicate Scattered(f: Format, w: nat, h: nat, p: nat, rows: seq<seq<byte>>, was: seq<byte>, now: seq<byte>, i: nat, j: nat)
    requires f.Valid() && p < 7 && |was| == |now| == Size(w, h, PixelBytes(f))
  {
    forall u, v {:trigger Region(now, w, h, PixelBytes(f), u, v)} :: 0 <= u < w && 0 <= v < h ==>
      Region(now, w, h, PixelBytes(f), u, v) ==
        if Before(p, i, j, u, v) then PixelOf(f, Width(w, p), rows, Column(p, u), Line(p, v))
        else Region(was, w, h, PixelBytes(f), u, v)
  }

  /** Copy place (i, j) of pass p. */
  method ScatterOne(f: Format, w: nat, h: nat, p: nat, src: array<byte>, final: array<byte>, i: nat, j: nat, ghost rows: seq<seq<byte>>, ghost was: seq<byte>)
    requires f.Valid() && p < 7 && w <= MAX_DIMENSION && h <= MAX_DIMENSION && src != final
    requires |was| == final.Length == Size(w, h, PixelBytes(f))
    requires Rectangular(rows, f.RowBytes(Width(w, p))) && |rows| == Height(h, p) && src[..] == OutRows(f, rows, Width(w, p))
    requires i < Width(w, p) && j < Height(h, p)
    requires Scattered(f, w, h, p, rows, was, final[..], i, j)
    modifies final
    ensures Scattered(f, w, h, p, rows, was, final[..], i + 1, j)
  {
    hide PassOf, Column, Line, Region, PixelOf, OutRows, Format.RowBytes, PassSize, Before, At, Size, PixelBytes;
    var n := PixelBytes(f);
    var x, y := i * XSpc(p) + XOrig(p), j * YSpc(p) + YOrig(p);
    InBounds(w, h, p, i, j, x, y);
    HeldOnce(x, y, p, i, j);
    OutRowsAt(f, rows, Width(w, p), i, j);
    var s := At(Width(w, p), n, i, j);
    assert src[s..s + n] == src[..][s..s + n];
    ghost var before := final[..];
    PutPixel(final, w, h, n, x, y, src, s);
    ScatterStep(f, w, h, p, rows, was, before, final[..], i, j, x, y);
  }

  lemma ScatterStep(f: Format, w: nat, h: nat, p: nat, rows: seq<seq<byte>>, was: seq<byte>, before: seq<byte>, now: seq<byte>, i: nat, j: nat, x: nat, y: nat)
    requires f.Valid() && p < 7 && |was| == |before| == |now| == Size(w, h, PixelBytes(f))
    requires Holds(p, i, j, x, y) && x < w && y < h
    requires Scattered(f, w, h, p, rows, was, before, i, j)
    requires Region(now, w, h, PixelBytes(f), x, y) == PixelOf(f, Width(w, p), rows, i, j)
    requires forall u, v :: 0 <= u < w && 0 <= v < h && !(u == x && v == y) ==>
      Region(now, w, h, PixelBytes(f), u, v) == Region(before, w, h, PixelBytes(f), u, v)
    ensures Scattered(f, w, h, p, rows, was, now, i + 1, j)
  {
    hide PassOf, Column, Line, Region, PixelOf, Before, Size, PixelBytes, Width;
    HeldOnce(x, y, p, i, j);
    forall u, v | 0 <= u < w && 0 <= v < h
      ensures Before(p, i + 1, j, u, v) <==> Before(p, i, j, u, v) || (u == x && v == y)
    {
      BeforeNext(p, i, j, x, y, u, v);
    }
  }

  lemma NextLine(p: nat, w: nat, h: nat, j: nat, u: nat, v: nat)
    requires p < 7 && w <= MAX_DIMENSION && h <= MAX_DIMENSION && u < w && v < h
    ensures Before(p, Width(w, p), j, u, v) <==> Before(p, 0, j + 1, u, v)
    ensures Before(p, 0, Height(h, p), u, v) <==> PassOf(u, v) == p
    ensures !Before(p, 0, 0, u, v)
  {
    hide PassOf, Column, Line, PassSize;
    if PassOf(u, v) == p {
      PassHolds(u, v);
      InBounds(w, h, p, Column(p, u), Line(p, v), u, v);
    }
  }

  lemma PassHolds(x: nat, y: nat)
    ensures var p := PassOf(x, y); XOrig(p) <= x && YOrig(p) <= y && Holds(p, Column(p, x), Line(p, y), x, y)
  {
    hide PassOf, XSpc, YSpc, XOrig, YOrig;
    var p := PassOf(x, y);
    Spacing(p);
    Pattern(p, x, y);
    RemainderBelow(x, XSpc(p));
    RemainderBelow(y, YSpc(p));
    Axis(Column(p, x), XSpc(p), XOrig(p), x);
    Axis(Line(p, y), YSpc(p), YOrig(p), y);
  }

  /** Copy all pixels of pass p to their places. */
  method Scatter(f: Format, w: nat, h: nat, p: nat, src: array<byte>, final: array<byte>, ghost rows: seq<seq<byte>>)
    requires f.Valid() && p < 7 && w <= MAX_DIMENSION && h <= MAX_DIMENSION && src != final
    requires final.Length == Size(w, h, PixelBytes(f))
    requires Rectangular(rows, f.RowBytes(Width(w, p))) && |rows| == Height(h, p) && src[..] == OutRows(f, rows, Width(w, p))
    modifies final
    ensures forall u, v :: 0 <= u < w && 0 <= v < h ==>
      Region(final[..], w, h, PixelBytes(f), u, v) ==
        if PassOf(u, v) == p then PassPixel(f, w, rows, p, u, v) else old(Region(final[..], w, h, PixelBytes(f), u, v))
  {
    hide PassOf, Column, Line, Region, PixelOf, OutRows, Format.RowBytes, PassSize, Before, At, Size, PixelBytes;
    ghost var was := final[..];
    forall u, v | 0 <= u < w && 0 <= v < h
      ensures forall j :: 0 <= j ==> (Before(p, Width(w, p), j, u, v) <==> Before(p, 0, j + 1, u, v))
      ensures Before(p, 0, Height(h, p), u, v) <==> PassOf(u, v) == p
      ensures !Before(p, 0, 0, u, v)
    {
      forall j | 0 <= j
        ensures Before(p, Width(w, p), j, u, v) <==> Before(p, 0, j + 1, u, v)
      {
        NextLine(p, w, h, j, u, v);
      }
      NextLine(p, w, h, 0, u, v);
    }
    for j := 0 to Height(h, p)
      invariant Scattered(f, w, h, p, rows, was, final[..], 0, j)
    {
      for i := 0 to Width(w, p)
        invariant Scattered(f, w, h, p, rows, was, final[..], i, j)
      {
        ScatterOne(f, w, h, p, src, final, i, j, rows, was);
      }
    }
    forall u, v | 0 <= u < w && 0 <= v < h
      ensures PassOf(u, v) == p ==> XOrig(p) <= u && YOrig(p) <= v
    {
      PassHolds(u, v);
    }
  }

  /** Pixel (x, y) of the image, taken from the rows of pass p. */
  function PassPixel(f: Format, w: nat, rows: seq<seq<byte>>, p: nat, x: nat, y: nat): seq<byte>
    requires f.Valid() && p < 7
  {
    if XOrig(p) <= x && YOrig(p) <= y then PixelOf(f, Width(w, p), rows, Column(p, x), Line(p, y)) else []
  }

  // Whole images

  /** Filter types and rows of a pass. */
  datatype Pass = Pass(filters: seq<nat>, rows: seq<seq<byte>>)

  predicate Empty(w: nat, h: nat, p: nat)
    requires p < 7
  {
    Width(w, p) == 0 || Height(h, p) == 0
  }

  /** Bytes of filtered data of pass p. */
  function PassLength(f: Format, w: nat, h: nat, p: nat): nat
    requires p < 7
  {
    if Empty(w, h, p) then 0 else (f.RowBytes(Width(w, p)) + 1) * Height(h, p)
  }

  /** Bytes of filtered data before pass p. */
  function PassOffset(f: Format, w: nat, h: nat, p: nat): nat
    requires p <= 7
  {
    if p == 0 then 0 else PassOffset(f, w, h, p - 1) + PassLength(f, w, h, p - 1)
  }

  function After(raw: seq<byte>, n: nat): seq<byte> {
    if n <= |raw| then raw[n..] else []
  }

  /** The pass is empty, or its sizes fit and its data starts where the previous pass ends. */
  ghost predicate PassAt(f: Format, raw: seq<byte>, w: nat, h: nat, p: nat, pass: Pass)
    requires f.Valid() && p < 7
  {
    Empty(w, h, p) ||
    (&& SizesFit(f, Width(w, p), Height(h, p))
     && StartsWith(After(raw, PassOffset(f, w, h, p)), f, Width(w, p), Height(h, p), pass.filters, pass.rows))
  }

  /** The data holds the first passes of an interlaced image. */
  ghost predicate PassesAt(f: Format, raw: seq<byte>, w: nat, h: nat, passes: seq<Pass>)
    requires f.Valid()
  {
    |passes| <= 7 && forall p :: 0 <= p < |passes| ==> PassAt(f, raw, w, h, p, passes[p])
  }

  /** Every pixel of the passes decoded so far is in its place. */
  ghost predicate Placed(f: Format, w: nat, h: nat, passes: seq<Pass>, final: seq<byte>)
    requires f.Valid() && |final| == Size(w, h, PixelBytes(f)) && |passes| <= 7
  {
    forall u, v :: 0 <= u < w && 0 <= v < h && PassOf(u, v) < |passes| ==>
      Region(final, w, h, PixelBytes(f), u, v) == PassPixel(f, w, passes[PassOf(u, v)].rows, PassOf(u, v), u, v)
  }

  lemma EmptyPassHasNoPixels(w: nat, h: nat, p: nat)
    requires p < 7 && w <= MAX_DIMENSION && h <= MAX_DIMENSION && Empty(w, h, p)
    ensures forall u, v :: 0 <= u < w && 0 <= v < h ==> PassOf(u, v) != p
  {
    hide PassOf, PassSize, Column, Line;
    forall u, v | 0 <= u < w && 0 <= v < h
      ensures PassOf(u, v) != p
    {
      if PassOf(u, v) == p {
        PassHolds(u, v);
        InBounds(w, h, p, Column(p, u), Line(p, v), u, v);
      }
    }
  }

  lemma PassDataLength(f: Format, raw: seq<byte>, x: nat, y: nat, filters: seq<nat>, rows: seq<seq<byte>>)
    requires f.Valid() && StartsWith(raw, f, x, y, filters, rows)
    ensures (f.RowBytes(x) + 1) * y <= |raw|
  {
    hide FilterRow;
    RowStartProduct(f.RowBytes(x), y);
  }

  /** Decode pass p and copy its pixels. */
  method DecodePass(f: Format, rest: seq<byte>, w: nat, h: nat, p: nat, final: array<byte>, ghost raw: seq<byte>, ghost passes: seq<Pass>)
    returns (ok: bool, ghost pass: Pass)
    requires f.Valid() && w <= MAX_DIMENSION && h <= MAX_DIMENSION && p < 7
    requires final.Length == Size(w, h, PixelBytes(f)) && |passes| == p
    requires rest == After(raw, PassOffset(f, w, h, p)) && !Empty(w, h, p) && Placed(f, w, h, passes, final[..])
    modifies final
    ensures ok ==> PassAt(f, raw, w, h, p, pass) && Placed(f, w, h, passes + [pass], final[..])
    ensures ok ==> PassLength(f, w, h, p) <= |rest|
    ensures !ok ==> forall q :: !PassAt(f, raw, w, h, p, q)
  {
    hide PassOf, Region, PassOffset, Size, PixelBytes, PassPixel, StartsWith, Format.RowBytes, SizesFit, OutRows;
    PassWidthBound(w, h, p);
    var src;
    ghost var filters, rows;
    ok, src, filters, rows := CreateImageRaw(f, rest, Width(w, p), Height(h, p));
    pass := Pass(filters, rows);
    if ok {
      PassDataLength(f, rest, Width(w, p), Height(h, p), filters, rows);
      StartsWithShape(f, rest, Width(w, p), Height(h, p), filters, rows);
      Scatter(f, w, h, p, src, final, rows);
    }
  }

  lemma StartsWithShape(f: Format, raw: seq<byte>, x: nat, y: nat, filters: seq<nat>, rows: seq<seq<byte>>)
    requires f.Valid() && StartsWith(raw, f, x, y, filters, rows)
    ensures |rows| == y && Rectangular(rows, f.RowBytes(x))
  {
  }

  lemma PassWidthBound(w: nat, h: nat, p: nat)
    requires w <= MAX_DIMENSION && h <= MAX_DIMENSION && p < 7
    ensures Width(w, p) <= w && Height(h, p) <= h
  {
    hide PassSize;
    Spacing(p);
    PassSizeCounts(w, XOrig(p), XSpc(p), w);
    PassSizeCounts(h, YOrig(p), YSpc(p), h);
    assert w <= w * XSpc(p) && h <= h * YSpc(p);
  }

  /**
   Decode an interlaced image. It succeeds exactly when the sizes fit and the data holds all seven
   passes; then every pixel of the final image is the pixel of the one pass that holds it.
   */
  method CreateInterlaced(f: Format, raw: seq<byte>, w: nat, h: nat)
    returns (ok: bool, final: array<byte>, ghost passes: seq<Pass>)
    requires f.Valid() && w <= MAX_DIMENSION && h <= MAX_DIMENSION
    ensures fresh(final)
    ensures ok <==> Size(w, h, PixelBytes(f)) <= INT_MAX && exists ps :: |ps| == 7 && PassesAt(f, raw, w, h, ps)
    ensures ok ==> |passes| == 7 && PassesAt(f, raw, w, h, passes)
    ensures ok ==> final.Length == Size(w, h, PixelBytes(f)) && Placed(f, w, h, passes, final[..])
  {
    hide PassOf, Region, PassPixel, StartsWith, Format.RowBytes, SizesFit, PassAt, PassLength;
    ok, passes := false, [];
    if !Mad3SizesValid(w, h, PixelBytes(f), 0) {
      final := new byte[0];
      return;
    }
    final := new byte[w * h * PixelBytes(f)](_ => 0);
    hide Size, PixelBytes;
    var pos := 0;
    for p := 0 to 7
      invariant |passes| == p && PassesAt(f, raw, w, h, passes) && Placed(f, w, h, passes, final[..])
      invariant pos == PassOffset(f, w, h, p) && pos <= |raw|
    {
      ghost var pass := Pass([], []);
      if Width(w, p) != 0 && Height(h, p) != 0 {
        var good;
        good, pass := DecodePass(f, raw[pos..], w, h, p, final, raw, passes);
        if !good {
          NoImage(f, raw, w, h, p);
          return;
        }
      } else {
        EmptyPassHasNoPixels(w, h, p);
        EmptyPassAt(f, raw, w, h, p, pass);
      }
      pos := pos + PassLength(f, w, h, p);
      passes := passes + [pass];
    }
    ok := true;
  }

  lemma NoImage(f: Format, raw: seq<byte>, w: nat, h: nat, p: nat)
    requires f.Valid() && p < 7 && forall q :: !PassAt(f, raw, w, h, p, q)
    ensures forall ps :: |ps| == 7 ==> !PassesAt(f, raw, w, h, ps)
  {
    hide PassAt;
    forall ps: seq<Pass> | |ps| == 7
      ensures !PassesAt(f, raw, w, h, ps)
    {
      assert !PassAt(f, raw, w, h, p, ps[p]);
    }
  }

  lemma EmptyPassAt(f: Format, raw: seq<byte>, w: nat, h: nat, p: nat, pass: Pass)
    requires f.Valid() && p < 7 && Empty(w, h, p)
    ensures PassAt(f, raw, w, h, p, pass) && PassLength(f, w, h, p) == 0
  {
  }

  /** The data determines the rows of every pass that has pixels. */
  lemma PassUnique(f: Format, raw: seq<byte>, w: nat, h: nat, p: nat, a: Pass, b: Pass)
    requires f.Valid() && p < 7 && !Empty(w, h, p) && PassAt(f, raw, w, h, p, a) && PassAt(f, raw, w, h, p, b)
    ensures a == b
  {
    hide StartsWith, SizesFit;
    ImageUnique(After(raw, PassOffset(f, w, h, p)), f, Width(w, p), Height(h, p), a.filters, a.rows, b.filters, b.rows);
  }
}
