/**
 From the bytes of a row to the samples of the output: pixel formats, the unpacking of
 samples with less than eight bits, sixteen-bit samples and the extra alpha channel.
 */
module PngPixels {
  import opened Binary
  import opened BitStream

  // Pixel formats

  /** Components in the file and in the output, bits per sample, colour type. */
  datatype Format = Format(imgN: nat, outN: nat, depth: nat, color: nat) {
    predicate Valid() {
      && 1 <= imgN <= 4 && depth in {1, 2, 4, 8, 16}
      && (outN == imgN || (outN == imgN + 1 && imgN in {1, 3}))
    }

    function Bytes(): nat { if depth == 16 then 2 else 1 }

    function Limit(): nat { if depth == 16 then 65536 else 256 }

    function FilterBytes(): (r: nat)
      requires Valid()
      ensures 0 < r
    {
      if depth < 8 then 1 else imgN * Bytes()
    }

    /** Bytes of a row of x pixels in the file. */
    function RowBytes(x: nat): nat { (imgN * x * depth + 7) / 8 }

    /** Bytes of a row of x pixels in the output. */
    function Stride(x: nat): nat { x * outN * Bytes() }

    function Scale(): (r: nat)
      requires Valid()
      ensures depth == 1 ==> r <= 255
      ensures depth == 2 ==> r <= 85
      ensures depth == 4 ==> r <= 17
    {
      if color == 0 && depth < 8 then [0, 0xFF, 0x55, 0, 0x11, 0, 0, 0, 0x01][depth] else 1
    }
  }

  /** Sample r of a byte that holds several, leftmost in the high bits. */
  function Digit(b: byte, depth: nat, r: nat): (v: nat)
    requires depth in {1, 2, 4} && r < 8 / depth
    ensures depth == 1 ==> v <= 1
    ensures depth == 2 ==> v <= 3
    ensures depth == 4 ==> v <= 15
  {
    DigitFits(depth, r);
    LowBound(Shr(b, 8 - depth - depth * r), depth);
    Pow2Values();
    Low(Shr(b, 8 - depth - depth * r), depth)
  }

  lemma DigitFits(depth: nat, r: nat)
    requires depth in {1, 2, 4} && r < 8 / depth
    ensures depth * r + depth <= 8 && UsedUp(depth, r + 1)
  {
  }

  /** Whether sample i of the given depth lies inside a row of n bytes. */
  predicate InRow(n: nat, depth: nat, i: nat) {
    if depth in {1, 2, 4} then i / (8 / depth) < n
    else if depth == 8 then i < n
    else 2 * i + 1 < n
  }

  /** Sample i of an unfiltered row (section 7.2). */
  function Sample(row: seq<byte>, depth: nat, i: nat): (v: nat)
    requires depth in {1, 2, 4, 8, 16} && InRow(|row|, depth, i)
    ensures v < 65536 && (depth <= 8 ==> v < 256)
  {
    if depth < 8 then Digit(row[i / (8 / depth)], depth, i % (8 / depth))
    else if depth == 8 then row[i]
    else var high: int := row[2 * i]; high * 256 + row[2 * i + 1]
  }

  /** Sample i of the file, low depths of grey scaled to the full range. */
  function Value(f: Format, row: seq<byte>, i: nat): (v: nat)
    requires f.Valid() && InRow(|row|, f.depth, i)
    ensures v < f.Limit()
  {
    if f.depth < 8 then Scaled(f, Sample(row, f.depth, i)) else Sample(row, f.depth, i)
  }

  function Scaled(f: Format, v: nat): byte
    requires f.Valid() && f.depth < 8
    requires (f.depth == 1 ==> v <= 1) && (f.depth == 2 ==> v <= 3) && (f.depth == 4 ==> v <= 15)
  {
    f.Scale() * v
  }

  lemma SampleInRow(f: Format, x: nat, i: nat)
    requires f.Valid() && i < f.imgN * x
    ensures InRow(f.RowBytes(x), f.depth, i)
  {
    var n := f.imgN * x;
    assert f.RowBytes(x) == (n * f.depth + 7) / 8;
  }

  /** The first n samples of a row. */
  function Values(f: Format, row: seq<byte>, n: nat): (r: seq<nat>)
    requires f.Valid() && forall i :: 0 <= i < n ==> InRow(|row|, f.depth, i)
    ensures |r| == n && Below(r, f.Limit())
  {
    seq(n, i requires 0 <= i < n => Value(f, row, i))
  }

  /** Each n samples followed by an opaque alpha value. */
  function WithAlpha(from: seq<nat>, n: nat, alpha: nat): seq<nat>
    requires 0 < n
  {
    if |from| < n then [] else from[..n] + [alpha] + WithAlpha(from[n..], n, alpha)
  }

  predicate Below(v: seq<nat>, m: nat) {
    forall i :: 0 <= i < |v| ==> v[i] < m
  }

  lemma {:induction false} WithAlphaBelow(from: seq<nat>, n: nat, alpha: nat, m: nat)
    requires 0 < n && alpha < m && Below(from, m)
    ensures Below(WithAlpha(from, n, alpha), m)
  {
    if |from| >= n {
      WithAlphaBelow(from[n..], n, alpha, m);
    }
  }

  /** The samples of an output row of x pixels. */
  function OutSamples(f: Format, row: seq<byte>, x: nat): (r: seq<nat>)
    requires f.Valid() && |row| == f.RowBytes(x)
    ensures |r| == x * f.outN && Below(r, f.Limit())
  {
    SamplesInRow(f, x);
    var v := Values(f, row, f.imgN * x);
    if f.outN == f.imgN then v else
      WithAlphaLength(v, f.imgN, x, f.Limit() - 1);
      WithAlphaBelow(v, f.imgN, f.Limit() - 1, f.Limit());
      WithAlpha(v, f.imgN, f.Limit() - 1)
  }

  lemma SamplesInRow(f: Format, x: nat)
    requires f.Valid()
    ensures forall i :: 0 <= i < f.imgN * x ==> InRow(f.RowBytes(x), f.depth, i)
  {
    forall i | 0 <= i < f.imgN * x
      ensures InRow(f.RowBytes(x), f.depth, i)
    {
      SampleInRow(f, x, i);
    }
  }

  /** Sixteen-bit numbers stored least significant byte first. */
  function Words(v: seq<nat>): (r: seq<byte>)
    ensures |r| == 2 * |v|
  {
    seq(2 * |v|, t requires 0 <= t < 2 * |v| => if t % 2 == 0 then v[t / 2] % 256 else v[t / 2] / 256 % 256)
  }

  /** The bytes of an output row of x pixels. */
  function OutRow(f: Format, row: seq<byte>, x: nat): (r: seq<byte>)
    requires f.Valid() && |row| == f.RowBytes(x)
    ensures |r| == f.Stride(x)
  {
    if f.depth == 16 then Words(OutSamples(f, row, x)) else OutSamples(f, row, x)
  }

  lemma MulSum(a: nat, b: nat, n: nat)
    ensures (a + b) * n == a * n + b * n
  {
  }

  lemma PixelInRow(i: nat, x: nat, n: nat)
    requires i < x
    ensures i * n + n <= x * n && n * i == i * n && n * x == x * n
  {
    var d := x - i - 1;
    MulSum(i, 1 + d, n);
    MulSum(1, d, n);
  }

  /** Component c of pixel i of an output row: a sample of the file or the opaque alpha value. */
  lemma OutSampleAt(f: Format, row: seq<byte>, x: nat, i: nat, c: nat)
    requires f.Valid() && |row| == f.RowBytes(x) && i < x && c < f.outN
    ensures i * f.outN + c < x * f.outN
    ensures c == f.imgN ==> OutSamples(f, row, x)[i * f.outN + c] == f.Limit() - 1
    ensures c < f.imgN ==> i * f.imgN + c < f.imgN * x && InRow(|row|, f.depth, i * f.imgN + c)
    ensures c < f.imgN ==> OutSamples(f, row, x)[i * f.outN + c] == Value(f, row, i * f.imgN + c)
  {
    hide WithAlpha, Value, InRow, Below;
    PixelInRow(i, x, f.imgN);
    PixelInRow(i, x, f.outN);
    SamplesInRow(f, x);
    if f.outN != f.imgN {
      AlphaSampleAt(Values(f, row, f.imgN * x), f.imgN, x, i, c, f.Limit() - 1);
    }
  }

  lemma AlphaSampleAt(v: seq<nat>, n: nat, x: nat, i: nat, c: nat, alpha: nat)
    requires 0 < n && |v| == n * x && i < x && c <= n
    ensures i * n + n <= |v| && i * (n + 1) + n < |WithAlpha(v, n, alpha)|
    ensures WithAlpha(v, n, alpha)[i * (n + 1) + c] == if c == n then alpha else v[i * n + c]
  {
    hide WithAlpha;
    PixelInRow(i, x, n);
    StepsProduct(n, i);
    StepsProduct(n + 1, i);
    AlphaSampleIn(v, n, i, i * n, i * (n + 1), c, alpha);
  }

  lemma AlphaSampleIn(v: seq<nat>, n: nat, i: nat, a: nat, b: nat, c: nat, alpha: nat)
    requires 0 < n && a == Steps(n, i) && b == Steps(n + 1, i) && a + n <= |v| && c <= n
    ensures b + n < |WithAlpha(v, n, alpha)|
    ensures WithAlpha(v, n, alpha)[b + c] == if c == n then alpha else v[a + c]
  {
    hide WithAlpha, Steps;
    WithAlphaPixel(v, n, i, alpha);
    assert WithAlpha(v, n, alpha)[b + c] == WithAlpha(v, n, alpha)[b..b + n + 1][c];
  }

  // Unpacking

  /** What is left of a byte after its first `used` bits were shifted out at the top. */
  function Shifted(b: byte, used: nat): nat
    requires used <= 8
  {
    Shl(Low(b, 8 - used), used)
  }

  lemma {:induction false} ShrOfLow(x: nat, m: nat, n: nat)
    ensures Shr(Low(x, m + n), m) == Low(Shr(x, m), n)
    decreases m
  {
    if m > 0 {
      ShrOfLow(x / 2, m - 1, n);
      assert Low(x, m + n) / 2 == Low(x / 2, m - 1 + n);
    }
  }

  lemma {:induction false} LowOfShl(x: nat, m: nat, n: nat)
    ensures Low(Shl(x, m), m + n) == Shl(Low(x, n), m)
    decreases m
  {
    if m > 0 {
      LowOfShl(x, m - 1, n);
      ShlDouble(x, m - 1);
      ShlDouble(Low(x, n), m - 1);
    }
  }

  lemma ShiftedFirst(b: byte)
    ensures Shifted(b, 0) == b
  {
    Pow2Values();
    LowSmall(b, 8);
  }

  /** The top bits of what is left are the next sample. */
  lemma ShiftedTop(b: byte, depth: nat, r: nat)
    requires depth in {1, 2, 4} && r < 8 / depth && depth * r + depth <= 8
    ensures Shr(Shifted(b, depth * r), 8 - depth) == Digit(b, depth, r)
  {
    var used := depth * r;
    var m := 8 - depth - used;
    ShrShr(Shifted(b, used), used, m);
    FieldBelow(0, Low(b, 8 - used), used);
    ShrOfLow(b, m, depth);
  }

  /** Shifting a sample out and truncating to a byte leaves the rest. */
  lemma ShiftedNext(b: byte, used: nat, depth: nat)
    requires used + depth <= 8
    ensures Low(Shl(Shifted(b, used), depth), 8) == Shifted(b, used + depth)
  {
    hide Shl, Low;
    var n := 8 - used - depth;
    ShlShl(Low(b, 8 - used), used, depth);
    LowOfShl(Low(b, 8 - used), used + depth, n);
    LowLow(b, n, 8 - used);
  }

  lemma NextSample(i: nat, per: nat)
    requires per in {2, 4, 8}
    ensures i % per + 1 < per ==> (i + 1) / per == i / per && (i + 1) % per == i % per + 1
    ensures i % per + 1 == per ==> (i + 1) / per == i / per + 1 && (i + 1) % per == 0
  {
  }

  /** Expand the samples of a row with less than eight bits each to bytes. */
  method UnpackBits(f: Format, row: seq<byte>, out: array<byte>, dest: nat, nsmp: nat)
    requires f.Valid() && f.depth < 8 && dest + nsmp <= out.Length
    requires forall i :: 0 <= i < nsmp ==> InRow(|row|, f.depth, i)
    modifies out
    ensures out[dest..dest + nsmp] == Values(f, row, nsmp)
    ensures out[..dest] == old(out[..dest])
  {
    hide Rest, Value, Scaled;
    var per := 8 / f.depth;
    var inb: nat, next: nat := 0, 0;
    for i := 0 to nsmp
      invariant next == (i + per - 1) / per && (i % per != 0 ==> Rest(f, row, i, inb))
      invariant forall k :: 0 <= k < i ==> out[dest + k] == Value(f, row, k)
      invariant forall k :: 0 <= k < dest ==> out[k] == old(out[k])
    {
      assert InRow(|row|, f.depth, i);
      NextByte(i, per);
      if i % per == 0 {
        inb := row[next];
        next := next + 1;
        FreshByte(f, row, i);
      }
      inb := PutSample(f, row, out, dest, i, inb);
    }
  }

  lemma NextByte(i: nat, per: nat)
    requires per in {2, 4, 8}
    ensures i % per == 0 ==> (i + per - 1) / per == i / per && (i + 1 + per - 1) / per == i / per + 1
    ensures i % per != 0 ==> (i + 1 + per - 1) / per == (i + per - 1) / per
  {
  }

  lemma FreshByte(f: Format, row: seq<byte>, i: nat)
    requires f.Valid() && f.depth < 8 && i % (8 / f.depth) == 0 && InRow(|row|, f.depth, i)
    ensures Rest(f, row, i, row[i / (8 / f.depth)])
  {
    ShiftedFirst(row[i / (8 / f.depth)]);
  }

  /** What inb holds before sample i, unless sample i starts a byte. */
  ghost predicate Rest(f: Format, row: seq<byte>, i: nat, inb: nat)
    requires f.Valid() && f.depth < 8
  {
    var per := 8 / f.depth;
    i / per < |row| && UsedUp(f.depth, i % per) && inb == Shifted(row[i / per], f.depth * (i % per))
  }

  /** Store the sample in the top bits and shift it out. */
  method PutSample(f: Format, row: seq<byte>, out: array<byte>, dest: nat, i: nat, inb: nat) returns (rest: nat)
    requires f.Valid() && f.depth < 8 && dest + i < out.Length && InRow(|row|, f.depth, i)
    requires Rest(f, row, i, inb)
    modifies out
    ensures out[dest + i] == Value(f, row, i)
    ensures forall k :: 0 <= k < out.Length && k != dest + i ==> out[k] == old(out[k])
    ensures (i + 1) % (8 / f.depth) != 0 ==> Rest(f, row, i + 1, rest)
  {
    hide Shifted, Digit, Scaled, Low, Shl, Shr;
    ghost var b, r := row[i / (8 / f.depth)], i % (8 / f.depth);
    DigitFits(f.depth, r);
    NextUsed(f.depth, r);
    ShiftedTop(b, f.depth, r);
    ShiftedNext(b, f.depth * r, f.depth);
    NextSample(i, 8 / f.depth);
    out[dest + i] := Scaled(f, Shr(inb, 8 - f.depth));
    rest := Low(Shl(inb, f.depth), 8);
  }

  predicate UsedUp(depth: nat, r: nat) {
    depth * r <= 8
  }

  lemma NextUsed(depth: nat, r: nat)
    ensures depth * r + depth == depth * (r + 1)
  {
  }

  lemma {:induction false} WithAlphaLength(from: seq<nat>, n: nat, x: nat, alpha: nat)
    requires 0 < n && |from| == n * x
    ensures |WithAlpha(from, n, alpha)| == (n + 1) * x
  {
    if x > 0 {
      assert n * x == n + n * (x - 1);
      assert (n + 1) * x == n + 1 + (n + 1) * (x - 1);
      WithAlphaLength(from[n..], n, x - 1, alpha);
    } else {
      assert |from| < n;
    }
  }

  /** Pixel i of the result: the bytes of the source and the alpha value. */
  /** i steps of n. */
  function Steps(n: nat, i: nat): nat {
    if i == 0 then 0 else n + Steps(n, i - 1)
  }

  lemma {:induction false} StepsProduct(n: nat, i: nat)
    ensures Steps(n, i) == n * i == i * n
    decreases i
  {
    if i > 0 {
      StepsProduct(n, i - 1);
      MulSum(1, i - 1, n);
    }
  }

  lemma {:induction false} WithAlphaPixel(from: seq<nat>, n: nat, i: nat, alpha: nat)
    requires 0 < n && Steps(n, i) + n <= |from|
    ensures var a, b := Steps(n, i), Steps(n + 1, i);
      b + n < |WithAlpha(from, n, alpha)| && WithAlpha(from, n, alpha)[b..b + n + 1] == from[a..a + n] + [alpha]
    decreases i
  {
    var head, tail := from[..n] + [alpha], WithAlpha(from[n..], n, alpha);
    assert WithAlpha(from, n, alpha) == head + tail;
    hide WithAlpha;
    if i == 0 {
      assert (head + tail)[..n + 1] == head;
    } else {
      WithAlphaPixel(from[n..], n, i - 1, alpha);
      SliceOfTail(head, tail, Steps(n + 1, i), n + 1);
      SliceOfTail(from[..n], from[n..], Steps(n, i), n);
      assert from[..n] + from[n..] == from;
    }
  }

  lemma SliceOfTail<T>(head: seq<T>, tail: seq<T>, b: nat, n: nat)
    requires |head| <= b && b - |head| + n <= |tail|
    ensures b + n <= |head + tail| && (head + tail)[b..b + n] == tail[b - |head|..b - |head| + n]
  {
  }

  /** Add opaque alpha to grey samples, last pixel first because source and destination may coincide. */
  method AlphaExpandGrey(out: array<byte>, dest: nat, src: array<byte>, s: nat, x: nat)
    requires dest + 2 * x <= out.Length && s + x <= src.Length
    requires out == src ==> dest == s
    modifies out
    ensures out[dest..dest + 2 * x] == WithAlpha(old(src[s..s + x]), 1, 255)
    ensures out[..dest] == old(out[..dest])
  {
    hide WithAlpha;
    ghost var from := src[s..s + x];
    ghost var want := WithAlpha(from, 1, 255);
    WithAlphaLength(from, 1, x, 255);
    for i := x downto 0
      invariant forall k :: s <= k < s + i ==> src[k] == from[k - s]
      invariant forall k :: dest + 2 * i <= k < dest + 2 * x ==> out[k] == want[k - dest]
      invariant forall k :: 0 <= k < dest ==> out[k] == old(out[k])
    {
      GreyPixel(from, x, i);
      assert out == src ==> s + i <= dest + 2 * i;
      out[dest + i * 2 + 1] := 255;
      out[dest + i * 2] := src[s + i];
    }
  }

  lemma GreyPixel(from: seq<nat>, x: nat, i: nat)
    requires |from| == x && i < x
    ensures var w := WithAlpha(from, 1, 255);
      |w| == 2 * x && w[2 * i] == from[i] && w[2 * i + 1] == 255
  {
    hide WithAlpha;
    WithAlphaLength(from, 1, x, 255);
    AlphaSampleAt(from, 1, x, i, 0, 255);
    AlphaSampleAt(from, 1, x, i, 1, 255);
  }

  /** Add opaque alpha to RGB samples, last pixel and last component first. */
  method AlphaExpandRgb(out: array<byte>, dest: nat, src: array<byte>, s: nat, x: nat)
    requires dest + 4 * x <= out.Length && s + 3 * x <= src.Length
    requires out == src ==> dest == s
    modifies out
    ensures out[dest..dest + 4 * x] == WithAlpha(old(src[s..s + 3 * x]), 3, 255)
    ensures out[..dest] == old(out[..dest])
  {
    hide WithAlpha;
    ghost var from := src[s..s + 3 * x];
    ghost var want := WithAlpha(from, 3, 255);
    WithAlphaLength(from, 3, x, 255);
    for i := x downto 0
      invariant forall k :: s <= k < s + 3 * i ==> src[k] == from[k - s]
      invariant forall k :: dest + 4 * i <= k < dest + 4 * x ==> out[k] == want[k - dest]
      invariant forall k :: 0 <= k < dest ==> out[k] == old(out[k])
    {
      RgbPixel(from, x, i);
      assert src[s + 3 * i] == from[3 * i] && src[s + 3 * i + 1] == from[3 * i + 1] && src[s + 3 * i + 2] == from[3 * i + 2];
      PutRgb(out, dest + 4 * i, src, s + 3 * i);
    }
  }

  lemma RgbPixel(from: seq<nat>, x: nat, i: nat)
    requires |from| == 3 * x && i < x
    ensures var w := WithAlpha(from, 3, 255);
      && |w| == 4 * x && w[4 * i + 3] == 255
      && w[4 * i] == from[3 * i] && w[4 * i + 1] == from[3 * i + 1] && w[4 * i + 2] == from[3 * i + 2]
  {
    WithAlphaLength(from, 3, x, 255);
    AlphaSampleAt(from, 3, x, i, 0, 255);
    AlphaSampleAt(from, 3, x, i, 1, 255);
    AlphaSampleAt(from, 3, x, i, 2, 255);
    AlphaSampleAt(from, 3, x, i, 3, 255);
  }

  method PutRgb(out: array<byte>, d: nat, src: array<byte>, s: nat)
    requires d + 4 <= out.Length && s + 3 <= src.Length
    requires out == src ==> s <= d
    modifies out
    ensures out[d] == old(src[s]) && out[d + 1] == old(src[s + 1]) && out[d + 2] == old(src[s + 2]) && out[d + 3] == 255
    ensures forall k :: 0 <= k < out.Length && !(d <= k < d + 4) ==> out[k] == old(out[k])
  {
    out[d + 3] := 255;
    out[d + 2] := src[s + 2];
    out[d + 1] := src[s + 1];
    out[d] := src[s];
  }

  lemma ShapeOfRow(f: Format, x: nat)
    requires f.Valid()
    ensures f.depth == 8 ==> f.RowBytes(x) == f.imgN * x && f.Stride(x) == f.outN * x
    ensures f.depth == 16 ==> f.RowBytes(x) == 2 * (f.imgN * x) && f.Stride(x) == 2 * (f.outN * x)
    ensures f.depth < 8 ==> f.Stride(x) == f.outN * x
  {
    MulSwap(x, f.outN, f.Bytes());
    MulSwap(f.imgN, x, f.depth);
  }

  lemma MulSwap(a: nat, b: nat, c: nat)
    ensures a * b * c == c * (a * b) && a * b == b * a
  {
  }

  /** Add the alpha channel of an eight-bit image. */
  method AlphaExpand(f: Format, out: array<byte>, dest: nat, src: array<byte>, s: nat, x: nat)
    requires f.Valid() && f.outN == f.imgN + 1
    requires dest + f.outN * x <= out.Length && s + f.imgN * x <= src.Length
    requires out == src ==> dest == s
    modifies out
    ensures out[dest..dest + f.outN * x] == WithAlpha(old(src[s..s + f.imgN * x]), f.imgN, 255)
    ensures out[..dest] == old(out[..dest])
  {
    hide WithAlpha;
    if f.imgN == 1 {
      AlphaExpandGrey(out, dest, src, s, x);
    } else {
      AlphaExpandRgb(out, dest, src, s, x);
    }
  }

  method ExpandLow(f: Format, x: nat, row: seq<byte>, out: array<byte>, dest: nat)
    requires f.Valid() && f.depth < 8 && |row| == f.RowBytes(x) && dest + f.Stride(x) <= out.Length
    modifies out
    ensures out[dest..dest + f.Stride(x)] == OutRow(f, row, x)
    ensures out[..dest] == old(out[..dest])
  {
    hide Values, WithAlpha;
    ShapeOfRow(f, x);
    SamplesInRow(f, x);
    MoreOutput(f, x);
    UnpackBits(f, row, out, dest, f.imgN * x);
    if f.imgN != f.outN {
      AlphaExpand(f, out, dest, out, dest, x);
    }
  }

  lemma MoreOutput(f: Format, x: nat)
    requires f.Valid()
    ensures f.imgN * x <= f.outN * x
  {
    MulSum(f.imgN, f.outN - f.imgN, x);
  }

  lemma ByteSamples(f: Format, x: nat, row: seq<byte>)
    requires f.Valid() && f.depth == 8 && |row| == f.RowBytes(x)
    ensures OutRow(f, row, x) == if f.imgN == f.outN then row else WithAlpha(row, f.imgN, 255)
  {
    hide WithAlpha;
    ShapeOfRow(f, x);
    SamplesInRow(f, x);
    assert Values(f, row, f.imgN * x) == row;
  }

  method ExpandBytes(f: Format, x: nat, buf: array<byte>, cur: nat, out: array<byte>, dest: nat)
    requires f.Valid() && f.depth == 8 && buf != out
    requires cur + f.RowBytes(x) <= buf.Length && dest + f.Stride(x) <= out.Length
    modifies out
    ensures out[dest..dest + f.Stride(x)] == OutRow(f, buf[cur..cur + f.RowBytes(x)], x)
    ensures out[..dest] == old(out[..dest])
  {
    hide WithAlpha, OutRow;
    ShapeOfRow(f, x);
    ByteSamples(f, x, buf[cur..cur + f.RowBytes(x)]);
    if f.imgN == f.outN {
      CopyBytes(buf, cur, out, dest, f.imgN * x);
    } else {
      AlphaExpand(f, out, dest, buf, cur, x);
    }
  }

  method CopyBytes(src: array<byte>, s: nat, out: array<byte>, dest: nat, n: nat)
    requires src != out && s + n <= src.Length && dest + n <= out.Length
    modifies out
    ensures out[dest..dest + n] == src[s..s + n]
    ensures forall k :: 0 <= k < out.Length && !(dest <= k < dest + n) ==> out[k] == old(out[k])
  {
    for i := 0 to n
      invariant out[dest..dest + i] == src[s..s + i]
      invariant forall k :: 0 <= k < out.Length && !(dest <= k < dest + n) ==> out[k] == old(out[k])
    {
      out[dest + i] := src[s + i];
    }
  }

  // Sixteen-bit samples

  /** Store a big-endian number in the byte order of the machine. */
  method PutWord(out: array<byte>, d: nat, src: array<byte>, s: nat)
    requires out != src && d + 2 <= out.Length && s + 2 <= src.Length
    modifies out
    ensures out[d] == src[s + 1] && out[d + 1] == src[s]
    ensures forall k :: 0 <= k < out.Length && k != d && k != d + 1 ==> out[k] == old(out[k])
  {
    out[d] := src[s + 1];
    out[d + 1] := src[s];
  }

  lemma WordAt(f: Format, row: seq<byte>, x: nat, i: nat, c: nat)
    requires f.Valid() && f.depth == 16 && |row| == f.RowBytes(x) && i < x && c < f.outN
    ensures i * f.outN + c < x * f.outN && 2 * (i * f.outN + c) + 1 < f.Stride(x)
    ensures c < f.imgN ==> 2 * (i * f.imgN + c) + 1 < |row|
    ensures OutRow(f, row, x)[2 * (i * f.outN + c)] == if c < f.imgN then row[2 * (i * f.imgN + c) + 1] else 255
    ensures OutRow(f, row, x)[2 * (i * f.outN + c) + 1] == if c < f.imgN then row[2 * (i * f.imgN + c)] else 255
  {
    hide OutSamples;
    ShapeOfRow(f, x);
    OutSampleAt(f, row, x, i, c);
    var v, t := OutSamples(f, row, x), i * f.outN + c;
    assert v[t] == if c < f.imgN then Value(f, row, i * f.imgN + c) else 65535;
    SplitWord(v[t] / 256, v[t] % 256);
    if c < f.imgN {
      SplitWord(row[2 * (i * f.imgN + c)], row[2 * (i * f.imgN + c) + 1]);
    }
    assert Words(v)[2 * t] == v[t] % 256 && Words(v)[2 * t + 1] == v[t] / 256 % 256;
  }

  lemma SplitWord(high: nat, low: nat)
    requires high < 256 && low < 256
    ensures (high * 256 + low) / 256 == high && (high * 256 + low) % 256 == low
  {
  }

  lemma FlatWord(f: Format, row: seq<byte>, x: nat, t: nat)
    requires f.Valid() && f.depth == 16 && f.imgN == f.outN && |row| == f.RowBytes(x) && t < f.imgN * x
    ensures 2 * t + 1 < f.Stride(x) == |row|
    ensures OutRow(f, row, x)[2 * t] == row[2 * t + 1] && OutRow(f, row, x)[2 * t + 1] == row[2 * t]
  {
    ShapeOfRow(f, x);
    SamplesInRow(f, x);
    var v := OutSamples(f, row, x);
    assert v[t] == Value(f, row, t);
    SplitWord(row[2 * t], row[2 * t + 1]);
    assert Words(v)[2 * t] == v[t] % 256 && Words(v)[2 * t + 1] == v[t] / 256 % 256;
  }

  method ExpandFlatWords(f: Format, x: nat, buf: array<byte>, cur: nat, out: array<byte>, dest: nat, ghost want: seq<byte>)
    requires f.Valid() && f.depth == 16 && f.imgN == f.outN && buf != out
    requires cur + f.RowBytes(x) <= buf.Length && dest + f.Stride(x) <= out.Length
    requires f.RowBytes(x) == f.Stride(x) == 2 * (f.imgN * x) && want == OutRow(f, buf[cur..cur + f.RowBytes(x)], x)
    modifies out
    ensures out[dest..dest + f.Stride(x)] == want
    ensures out[..dest] == old(out[..dest])
  {
    hide OutRow, Format.RowBytes, Format.Stride;
    ghost var row := buf[cur..cur + f.RowBytes(x)];
    for i := 0 to f.imgN * x
      invariant forall k :: dest <= k < dest + 2 * i ==> out[k] == want[k - dest]
      invariant forall k :: 0 <= k < dest ==> out[k] == old(out[k])
    {
      FlatWord(f, row, x, i);
      PutWord(out, dest + 2 * i, buf, cur + 2 * i);
    }
  }

  method ExpandGreyWords(f: Format, x: nat, buf: array<byte>, cur: nat, out: array<byte>, dest: nat, ghost want: seq<byte>)
    requires f == Format(1, 2, 16, f.color) && buf != out
    requires cur + 2 * x <= buf.Length && dest + 4 * x <= out.Length && f.RowBytes(x) == 2 * x && f.Stride(x) == 4 * x
    requires want == OutRow(f, buf[cur..cur + 2 * x], x)
    modifies out
    ensures out[dest..dest + 4 * x] == want
    ensures out[..dest] == old(out[..dest])
  {
    hide OutRow, Format.RowBytes, Format.Stride;
    ghost var row := buf[cur..cur + 2 * x];
    for i := 0 to x
      invariant forall k :: dest <= k < dest + 4 * i ==> out[k] == want[k - dest]
      invariant forall k :: 0 <= k < dest ==> out[k] == old(out[k])
    {
      WordAt(f, row, x, i, 0);
      WordAt(f, row, x, i, 1);
      PutWord(out, dest + 4 * i, buf, cur + 2 * i);
      out[dest + 4 * i + 2] := 255;
      out[dest + 4 * i + 3] := 255;
    }
  }

  method ExpandRgbWords(f: Format, x: nat, buf: array<byte>, cur: nat, out: array<byte>, dest: nat, ghost want: seq<byte>)
    requires f == Format(3, 4, 16, f.color) && buf != out
    requires cur + 6 * x <= buf.Length && dest + 8 * x <= out.Length && f.RowBytes(x) == 6 * x && f.Stride(x) == 8 * x
    requires want == OutRow(f, buf[cur..cur + 6 * x], x)
    modifies out
    ensures out[dest..dest + 8 * x] == want
    ensures out[..dest] == old(out[..dest])
  {
    hide OutRow, Format.RowBytes, Format.Stride;
    ghost var row := buf[cur..cur + 6 * x];
    for i := 0 to x
      invariant forall k :: dest <= k < dest + 8 * i ==> out[k] == want[k - dest]
      invariant forall k :: 0 <= k < dest ==> out[k] == old(out[k])
    {
      RgbWords(f, row, x, i);
      PutRgbWords(out, dest + 8 * i, buf, cur + 6 * i);
    }
  }

  lemma RgbWords(f: Format, row: seq<byte>, x: nat, i: nat)
    requires f == Format(3, 4, 16, f.color) && |row| == 6 * x == f.RowBytes(x) && f.Stride(x) == 8 * x && i < x
    ensures var w := OutRow(f, row, x);
      && w[8 * i] == row[6 * i + 1] && w[8 * i + 1] == row[6 * i] && w[8 * i + 2] == row[6 * i + 3]
      && w[8 * i + 3] == row[6 * i + 2] && w[8 * i + 4] == row[6 * i + 5] && w[8 * i + 5] == row[6 * i + 4]
      && w[8 * i + 6] == 255 && w[8 * i + 7] == 255
  {
    hide OutRow, Format.RowBytes, Format.Stride;
    WordAt(f, row, x, i, 0);
    WordAt(f, row, x, i, 1);
    WordAt(f, row, x, i, 2);
    WordAt(f, row, x, i, 3);
  }

  method PutRgbWords(out: array<byte>, d: nat, src: array<byte>, s: nat)
    requires out != src && d + 8 <= out.Length && s + 6 <= src.Length
    modifies out
    ensures out[d] == src[s + 1] && out[d + 1] == src[s] && out[d + 2] == src[s + 3] && out[d + 3] == src[s + 2]
    ensures out[d + 4] == src[s + 5] && out[d + 5] == src[s + 4] && out[d + 6] == 255 && out[d + 7] == 255
    ensures forall k :: 0 <= k < out.Length && !(d <= k < d + 8) ==> out[k] == old(out[k])
  {
    PutWord(out, d, src, s);
    PutWord(out, d + 2, src, s + 2);
    PutWord(out, d + 4, src, s + 4);
    out[d + 6] := 255;
    out[d + 7] := 255;
  }

  method ExpandWords(f: Format, x: nat, buf: array<byte>, cur: nat, out: array<byte>, dest: nat)
    requires f.Valid() && f.depth == 16 && buf != out
    requires cur + f.RowBytes(x) <= buf.Length && dest + f.Stride(x) <= out.Length
    modifies out
    ensures out[dest..dest + f.Stride(x)] == OutRow(f, buf[cur..cur + f.RowBytes(x)], x)
    ensures out[..dest] == old(out[..dest])
  {
    hide OutRow;
    ghost var want := OutRow(f, buf[cur..cur + f.RowBytes(x)], x);
    ShapeOfRow(f, x);
    if f.imgN == f.outN {
      ExpandFlatWords(f, x, buf, cur, out, dest, want);
    } else if f.imgN == 1 {
      ExpandGreyWords(f, x, buf, cur, out, dest, want);
    } else {
      ExpandRgbWords(f, x, buf, cur, out, dest, want);
    }
  }

  /** Expand the reconstructed row to the output format. */
  method ExpandRow(f: Format, x: nat, buf: array<byte>, cur: nat, out: array<byte>, dest: nat)
    requires f.Valid() && buf != out
    requires cur + f.RowBytes(x) <= buf.Length && dest + f.Stride(x) <= out.Length
    modifies out
    ensures out[dest..dest + f.Stride(x)] == OutRow(f, buf[cur..cur + f.RowBytes(x)], x)
    ensures out[..dest] == old(out[..dest])
  {
    hide OutRow, Format.RowBytes, Format.Stride;
    if f.depth < 8 {
      ExpandLow(f, x, buf[cur..cur + f.RowBytes(x)], out, dest);
    } else if f.depth == 8 {
      ExpandBytes(f, x, buf, cur, out, dest);
    } else {
      ExpandWords(f, x, buf, cur, out, dest);
    }
  }
}
