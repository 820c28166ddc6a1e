/**
 From filtered data to an image: the size checks and the row loop over the two-row workspace.
 */
module PngImage {
  import opened BitStream
  import opened PngFilter
  import opened PngPixels

  const INT_MAX: nat := 0x7FFF_FFFF
  const MAX_DIMENSION: nat := 0x100_0000

  // Overflow checks that divide instead of multiplying

  predicate Mul2SizesValid(a: nat, b: nat)
    ensures Mul2SizesValid(a, b) <==> a * b <= INT_MAX
  {
    if b == 0 then true
    else
      assert a <= INT_MAX / b <==> a * b <= INT_MAX by { DivideCheck(a, b, INT_MAX); }
      a <= INT_MAX / b
  }

  lemma DivideCheck(a: nat, b: nat, m: nat)
    requires 0 < b
    ensures a <= m / b <==> a * b <= m
  {
    var q, r := m / b, m % b;
    assert m == q * b + r;
    if a <= q {
      assert a * b <= q * b;
    } else {
      assert (q + 1) * b <= a * b;
    }
  }

  predicate AddSizesValid(a: nat, b: nat) {
    b <= INT_MAX && a <= INT_MAX - b
  }

  predicate Mad2SizesValid(a: nat, b: nat, add: nat)
    ensures Mad2SizesValid(a, b, add) <==> a * b + add <= INT_MAX
  {
    Mul2SizesValid(a, b) && AddSizesValid(a * b, add)
  }

  predicate Mad3SizesValid(a: nat, b: nat, c: nat, add: nat)
    requires 0 < c
    ensures Mad3SizesValid(a, b, c, add) <==> a * b * c + add <= INT_MAX
  {
    assert a * b <= a * b * c;
    Mul2SizesValid(a, b) && Mul2SizesValid(a * b, c) && AddSizesValid(a * b * c, add)
  }

  // Whole images

  /** The output bytes of the rows in turn. */
  function OutRows(f: Format, rows: seq<seq<byte>>, x: nat): seq<byte>
    requires f.Valid() && Rectangular(rows, f.RowBytes(x))
  {
    if rows == [] then []
    else OutRows(f, rows[..|rows| - 1], x) + OutRow(f, rows[|rows| - 1], x)
  }

  /** All byte counts that the decoder computes fit in a signed 32-bit integer. */
  predicate SizesFit(f: Format, x: nat, y: nat)
    requires f.Valid()
  {
    && x * y * (f.outN * f.Bytes()) <= INT_MAX
    && f.imgN * x * f.depth + 7 <= INT_MAX
    && f.RowBytes(x) * y + f.RowBytes(x) <= INT_MAX
    && f.RowBytes(x) * 2 <= INT_MAX
  }

  /** The data starts with a filtered image of y rows. */
  ghost predicate StartsWith(raw: seq<byte>, f: Format, x: nat, y: nat, filters: seq<nat>, rows: seq<seq<byte>>)
    requires f.Valid()
  {
    && |filters| == |rows| == y && FilterTypes(filters) && Rectangular(rows, f.RowBytes(x))
    && Encode(filters, f.FilterBytes(), rows, f.RowBytes(x)) <= raw
  }

  /** At most one image can be read from the data. */
  lemma ImageUnique(raw: seq<byte>, f: Format, x: nat, y: nat, fs: seq<nat>, rs: seq<seq<byte>>, gs: seq<nat>, ss: seq<seq<byte>>)
    requires f.Valid() && StartsWith(raw, f, x, y, fs, rs) && StartsWith(raw, f, x, y, gs, ss)
    ensures fs == gs && rs == ss
  {
    hide Encode;
    var n := RowStart(f.RowBytes(x), y);
    assert raw[..n] == Encode(fs, f.FilterBytes(), rs, f.RowBytes(x)) == Encode(gs, f.FilterBytes(), ss, f.RowBytes(x));
    EncodeInjective(fs, rs, gs, ss, f.FilterBytes(), f.RowBytes(x));
  }

  /** Data that is too short holds no image. */
  lemma TooShort(raw: seq<byte>, f: Format, x: nat, y: nat)
    requires f.Valid() && |raw| < (f.RowBytes(x) + 1) * y
    ensures forall fs, rs :: !StartsWith(raw, f, x, y, fs, rs)
  {
    RowStartProduct(f.RowBytes(x), y);
  }

  /** Where an unknown filter type stands, there is no image. */
  lemma BadFilter(raw: seq<byte>, f: Format, x: nat, y: nat, j: nat)
    requires f.Valid() && j < y && RowStart(f.RowBytes(x), j) < |raw| && 4 < raw[RowStart(f.RowBytes(x), j)]
    ensures forall fs, rs :: !StartsWith(raw, f, x, y, fs, rs)
  {
    forall fs, rs
      ensures !StartsWith(raw, f, x, y, fs, rs)
    {
      if StartsWith(raw, f, x, y, fs, rs) {
        FilterTypeAt(fs, f.FilterBytes(), rs, f.RowBytes(x), j);
      }
    }
  }

  lemma FilterTypeAt(fs: seq<nat>, bpp: nat, rs: seq<seq<byte>>, w: nat, j: nat)
    requires |fs| == |rs| && FilterTypes(fs) && 0 < bpp && Rectangular(rs, w) && j < |rs|
    ensures RowStart(w, j) < |Encode(fs, bpp, rs, w)| && Encode(fs, bpp, rs, w)[RowStart(w, j)] == fs[j]
  {
    hide Encode, FilterRow;
    EncodePrefix(fs, bpp, rs, w, j + 1);
    assert fs[..j + 1] == fs[..j] + [fs[j]] && rs[..j + 1] == rs[..j] + [rs[j]];
    EncodeLast(fs[..j], bpp, rs[..j], w, fs[j], rs[j]);
  }

  lemma RowFits(x: nat, y: nat, stride: nat, j: nat, total: nat)
    requires j < y && total == y * stride
    ensures j * stride + stride == (j + 1) * stride <= total
  {
    PixelInRow(j, y, stride);
    MulSum(j, 1, stride);
  }

  /** One row: reconstruct it in the workspace and expand it; above is the row before it. */
  method DecodeRow(f: Format, x: nat, filter: nat, raw: seq<byte>, ws: Workspace, first: bool, out: array<byte>, dest: nat, ghost above: seq<byte>)
    returns (ghost row: seq<byte>)
    requires f.Valid() && ws.Valid() && ws.buf != out && filter <= 4
    requires |raw| == |above| == ws.nk == f.RowBytes(x) && f.FilterBytes() <= ws.nk
    requires above == if first then Zeros(ws.nk) else ws.Above()
    requires dest + f.Stride(x) <= out.Length
    modifies ws.buf, out
    ensures |row| == |raw| && ws.buf[ws.cur..ws.cur + ws.nk] == row
    ensures FilterRow(filter, f.FilterBytes(), row, above) == raw
    ensures out[..dest + f.Stride(x)] == old(out[..dest]) + OutRow(f, row, x)
  {
    hide Reconstructs, FilterRow, OutRow, Format.RowBytes, Format.Stride;
    var fb := f.FilterBytes();
    ghost var was := out[..dest];
    if first {
      ghost var prior := ws.Above();
      ws.ReconstructRow(FirstRowFilter(filter), raw, fb, prior);
      row := ws.buf[ws.cur..ws.cur + ws.nk];
      FirstRow(filter, fb, raw, prior, row);
    } else {
      ws.ReconstructRow(filter, raw, fb, above);
      row := ws.buf[ws.cur..ws.cur + ws.nk];
    }
    RefilterRow(filter, fb, raw, above, row);
    ExpandRow(f, x, ws.buf, ws.cur, out, dest);
    assert out[..dest + f.Stride(x)] == out[..dest] + out[dest..dest + f.Stride(x)];
  }

  lemma {:induction false} OutRowsLength(f: Format, rows: seq<seq<byte>>, x: nat)
    requires f.Valid() && Rectangular(rows, f.RowBytes(x))
    ensures |OutRows(f, rows, x)| == |rows| * f.Stride(x)
  {
    hide OutRow, Format.Stride;
    if rows != [] {
      OutRowsLength(f, rows[..|rows| - 1], x);
      MulSum(|rows| - 1, 1, f.Stride(x));
    }
  }

  lemma OutRowsLast(f: Format, rows: seq<seq<byte>>, row: seq<byte>, x: nat)
    requires f.Valid() && Rectangular(rows, f.RowBytes(x)) && |row| == f.RowBytes(x)
    ensures Rectangular(rows + [row], f.RowBytes(x))
    ensures OutRows(f, rows + [row], x) == OutRows(f, rows, x) + OutRow(f, row, x)
  {
    hide OutRow;
    assert (rows + [row])[..|rows|] == rows;
  }

  /** The workspace of row j: the two rows alternate. */
  function RowWorkspace(buf: array<byte>, w: nat, j: nat): (ws: Workspace)
    requires buf.Length == 2 * w
    ensures ws.Valid()
  {
    if j % 2 == 0 then Workspace(buf, 0, w, w) else Workspace(buf, w, 0, w)
  }

  /** State of the row loop before row j. */
  ghost predicate RowsDone(f: Format, x: nat, raw: seq<byte>, buf: array<byte>, out: array<byte>, j: nat, filters: seq<nat>, rows: seq<seq<byte>>)
    requires f.Valid() && buf.Length == 2 * f.RowBytes(x)
    reads buf, out
  {
    var w := f.RowBytes(x);
    && StartsWith(raw, f, x, j, filters, rows)
    && (j > 0 ==> RowWorkspace(buf, w, j).Above() == rows[j - 1])
    && j * f.Stride(x) <= out.Length
    && out[..j * f.Stride(x)] == OutRows(f, rows, x)
  }

  lemma StartsWithNext(raw: seq<byte>, f: Format, x: nat, j: nat, pos: nat, filters: seq<nat>, rows: seq<seq<byte>>, row: seq<byte>)
    requires f.Valid() && StartsWith(raw, f, x, j, filters, rows) && |row| == f.RowBytes(x)
    requires pos == RowStart(f.RowBytes(x), j) && pos + 1 + f.RowBytes(x) <= |raw| && raw[pos] <= 4
    requires raw[pos + 1..pos + 1 + f.RowBytes(x)] == FilterRow(raw[pos], f.FilterBytes(), row, Above(rows, j, f.RowBytes(x)))
    ensures StartsWith(raw, f, x, j + 1, filters + [raw[pos]], rows + [row])
  {
    hide FilterRow, Above, Encode;
    var w := f.RowBytes(x);
    EncodeLast(filters, f.FilterBytes(), rows, w, raw[pos], row);
    assert raw[..pos + 1 + w] == raw[..pos] + [raw[pos]] + raw[pos + 1..pos + 1 + w];
  }

  /** Reconstruct and expand row j. */
  method NextRow(f: Format, x: nat, raw: seq<byte>, buf: array<byte>, out: array<byte>, j: nat, pos: nat, ghost filters: seq<nat>, ghost rows: seq<seq<byte>>)
    returns (ghost row: seq<byte>)
    requires f.Valid() && buf.Length == 2 * f.RowBytes(x) && buf != out && f.FilterBytes() <= f.RowBytes(x)
    requires RowsDone(f, x, raw, buf, out, j, filters, rows)
    requires pos == RowStart(f.RowBytes(x), j) && pos + 1 + f.RowBytes(x) <= |raw| && raw[pos] <= 4
    requires (j + 1) * f.Stride(x) <= out.Length
    modifies buf, out
    ensures RowsDone(f, x, raw, buf, out, j + 1, filters + [raw[pos] as nat], rows + [row])
  {
    hide FilterRow, OutRow, OutRows, Format.RowBytes, Format.Stride, Format.FilterBytes, Encode, Reconstructs, RowStart, FirstRowFilter;
    var w := f.RowBytes(x);
    var ws := RowWorkspace(buf, w, j);
    ghost var above := Above(rows, j, w);
    MulSum(j, 1, f.Stride(x));
    row := DecodeRow(f, x, raw[pos], raw[pos + 1..pos + 1 + w], ws, j == 0, out, j * f.Stride(x), above);
    StartsWithNext(raw, f, x, j, pos, filters, rows, row);
    OutRowsLast(f, rows, row, x);
  }

  lemma RowLengths(f: Format, x: nat)
    requires f.Valid() && 0 < x
    ensures 0 < f.FilterBytes() <= f.RowBytes(x)
  {
    ShapeOfRow(f, x);
    PixelInRow(0, x, f.imgN);
    if f.depth < 8 {
      PixelInRow(0, f.imgN * x, f.depth);
    }
  }

  lemma OutSize(f: Format, x: nat, y: nat)
    requires f.Valid()
    ensures x * y * (f.outN * f.Bytes()) == y * f.Stride(x)
  {
    Regroup(x, y, f.outN, f.Bytes());
  }

  lemma Regroup(a: nat, b: nat, c: nat, d: nat)
    ensures a * b * (c * d) == b * (a * c * d)
  {
    assert a * b * (c * d) == b * (a * (c * d));
    assert a * (c * d) == a * c * d;
  }

  /**
   Decode filtered data to the rows of an image. It succeeds exactly when the sizes fit and the
   data starts with a filtered image, and the output is that image.
   */
  method CreateImageRaw(f: Format, raw: seq<byte>, x: nat, y: nat)
    returns (ok: bool, out: array<byte>, ghost filters: seq<nat>, ghost rows: seq<seq<byte>>)
    requires f.Valid() && 0 < x <= MAX_DIMENSION && 0 < y <= MAX_DIMENSION
    ensures fresh(out)
    ensures ok <==> SizesFit(f, x, y) && exists fs, rs :: StartsWith(raw, f, x, y, fs, rs)
    ensures ok ==> StartsWith(raw, f, x, y, filters, rows) && out[..] == OutRows(f, rows, x)
  {
    hide FilterRow, OutRow, Format.RowBytes, Format.Stride, StartsWith, OutRows, Reconstructs, RowsDone;
    ok, filters, rows := false, [], [];
    if !Mad3SizesValid(x, y, f.outN * f.Bytes(), 0) {
      out := new byte[0];
      return;
    }
    out := new byte[x * y * (f.outN * f.Bytes())](_ => 0);
    if !Mad3SizesValid(f.imgN, x, f.depth, 7) {
      return;
    }
    var w := f.RowBytes(x);
    if !Mad2SizesValid(w, y, w) {
      return;
    }
    if |raw| < (w + 1) * y {
      TooShort(raw, f, x, y);
      return;
    }
    if !Mad2SizesValid(w, 2, 0) {
      return;
    }
    var buf := new byte[w * 2](_ => 0);
    OutSize(f, x, y);
    ok, filters, rows := DecodeRows(f, raw, x, y, buf, out);
  }

  method DecodeRows(f: Format, raw: seq<byte>, x: nat, y: nat, buf: array<byte>, out: array<byte>)
    returns (ok: bool, ghost filters: seq<nat>, ghost rows: seq<seq<byte>>)
    requires f.Valid() && 0 < x && (f.RowBytes(x) + 1) * y <= |raw|
    requires buf.Length == 2 * f.RowBytes(x) && buf != out && out.Length == y * f.Stride(x)
    modifies buf, out
    ensures ok <==> exists fs, rs :: StartsWith(raw, f, x, y, fs, rs)
    ensures ok ==> StartsWith(raw, f, x, y, filters, rows) && out[..] == OutRows(f, rows, x)
  {
    hide FilterRow, OutRow, Format.RowBytes, Format.Stride, Reconstructs;
    filters, rows := [], [];
    var w := f.RowBytes(x);
    var pos: nat := 0;
    RowStartProduct(w, y);
    RowLengths(f, x);
    for j := 0 to y
      invariant pos == RowStart(w, j)
      invariant RowsDone(f, x, raw, buf, out, j, filters, rows)
    {
      hide RowsDone, StartsWith;
      RowStartMonotone(w, j, y);
      var filter := raw[pos];
      if filter > 4 {
        BadFilter(raw, f, x, y, j);
        return false, filters, rows;
      }
      RowFits(x, y, f.Stride(x), j, out.Length);
      ghost var row := NextRow(f, x, raw, buf, out, j, pos, filters, rows);
      filters, rows := filters + [raw[pos] as nat], rows + [row];
      pos := pos + 1 + w;
    }
    assert out[..y * f.Stride(x)] == out[..];
    ok := true;
  }

  /** Rows filtered with any choice of types, one for each row, come back unchanged. */
  method RoundTrip(f: Format, x: nat, y: nat, filters: seq<nat>, rows: seq<seq<byte>>, extra: seq<byte>) returns (out: array<byte>)
    requires f.Valid() && 0 < x <= MAX_DIMENSION && 0 < y <= MAX_DIMENSION && SizesFit(f, x, y)
    requires |filters| == |rows| == y && FilterTypes(filters) && Rectangular(rows, f.RowBytes(x))
    ensures out[..] == OutRows(f, rows, x)
  {
    hide FilterRow, OutRow, Format.RowBytes, Format.Stride, OutRows, Encode, SizesFit;
    var raw := Encode(filters, f.FilterBytes(), rows, f.RowBytes(x)) + extra;
    assert StartsWith(raw, f, x, y, filters, rows);
    var ok;
    ghost var fs, rs;
    ok, out, fs, rs := CreateImageRaw(f, raw, x, y);
    ImageUnique(raw, f, x, y, filters, rows, fs, rs);
  }
}
