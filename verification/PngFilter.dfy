/**
 Scanline filters of PNG (clause 9 of the PNG specification, second edition): the
 filters as the specification defines them, the row reconstruction of the decoder
 and the proof that reconstruction undoes filtering.
 */
module PngFilter {
  import opened BitStream

  const NONE: nat := 0
  const SUB: nat := 1
  const UP: nat := 2
  const AVG: nat := 3
  const PAETH: nat := 4
  // synthetic filter of the first row
  const AVG_FIRST: nat := 5

  function Abs(v: int): nat {
    if v < 0 then -v else v
  }

  /** The predictor of the specification (section 9.4). */
  function PaethPredictor(a: int, b: int, c: int): int {
    var p := a + b - c;
    var pa, pb, pc := Abs(p - a), Abs(p - b), Abs(p - c);
    if pa <= pb && pa <= pc then a else if pb <= pc then b else c
  }

  /** The branch-free form used by the decoder. */
  function Paeth(a: int, b: int, c: int): (r: int)
    ensures r == PaethPredictor(a, b, c)
  {
    var thresh := c * 3 - (a + b);
    var lo := if a < b then a else b;
    var hi := if a < b then b else a;
    var t0 := if hi <= thresh then lo else c;
    if thresh <= lo then hi else t0
  }

  /** With nothing to the left, the predictor is the byte above. */
  lemma PaethAlone(b: int)
    ensures PaethPredictor(0, b, 0) == b
  {
  }

  /** The prediction of a filter type from the bytes to the left, above and above left (section 9.2). */
  function Predict(filter: nat, a: byte, b: byte, c: byte): (r: byte)
    requires filter <= 4
  {
    if filter == NONE then 0
    else if filter == SUB then a
    else if filter == UP then b
    else if filter == AVG then Mean(a, b)
    else PaethPredictor(a, b, c)
  }

  /** The byte one pixel to the left, zero outside the row. */
  function Left(row: seq<byte>, k: nat, bpp: nat): byte
    requires k <= |row| && 0 < bpp
  {
    if k < bpp then 0 else row[k - bpp]
  }

  /** The filtered form of a row below the given prior row. */
  function FilterRow(filter: nat, bpp: nat, row: seq<byte>, prior: seq<byte>): (r: seq<byte>)
    requires filter <= 4 && 0 < bpp && |prior| == |row|
    ensures |r| == |row|
  {
    seq(|row|, k requires 0 <= k < |row| =>
      (row[k] - Predict(filter, Left(row, k, bpp), prior[k], Left(prior, k, bpp))) % 256)
  }

  /** A filtered row has only one source. */
  lemma {:induction false} FilterRowInjective(filter: nat, bpp: nat, r: seq<byte>, s: seq<byte>, prior: seq<byte>, n: nat)
    requires filter <= 4 && 0 < bpp && |prior| == |r| == |s| && n <= |r|
    requires FilterRow(filter, bpp, r, prior) == FilterRow(filter, bpp, s, prior)
    ensures r[..n] == s[..n]
  {
    hide Predict;
    if n > 0 {
      FilterRowInjective(filter, bpp, r, s, prior, n - 1);
      var k := n - 1;
      assert Left(r, k, bpp) == Left(s, k, bpp) by {
        assert k >= bpp ==> r[k - bpp] == r[..k][k - bpp] && s[k - bpp] == s[..k][k - bpp];
      }
      assert FilterRow(filter, bpp, r, prior)[k] == FilterRow(filter, bpp, s, prior)[k];
      assert r[..n] == r[..k] + [r[k]] && s[..n] == s[..k] + [s[k]];
    }
  }

  // Images as lists of rows

  function Zeros(n: nat): (r: seq<byte>)
    ensures |r| == n && forall k :: 0 <= k < n ==> r[k] == 0
  {
    seq(n, k => 0)
  }

  predicate Rectangular(rows: seq<seq<byte>>, w: nat) {
    forall j :: 0 <= j < |rows| ==> |rows[j]| == w
  }

  predicate FilterTypes(filters: seq<nat>) {
    forall j :: 0 <= j < |filters| ==> filters[j] <= 4
  }

  /** The row above row j, zeros above the first. */
  function Above(rows: seq<seq<byte>>, j: nat, w: nat): (r: seq<byte>)
    requires Rectangular(rows, w) && j <= |rows|
    ensures |r| == w
  {
    if j == 0 then Zeros(w) else rows[j - 1]
  }

  /** Filter type byte and filtered bytes of each row in turn. */
  function Encode(filters: seq<nat>, bpp: nat, rows: seq<seq<byte>>, w: nat): (r: seq<byte>)
    requires |filters| == |rows| && FilterTypes(filters) && 0 < bpp && Rectangular(rows, w)
    ensures |r| == RowStart(w, |rows|)
  {
    if rows == [] then []
    else
      var n := |rows| - 1;
      Encode(filters[..n], bpp, rows[..n], w) + [filters[n]]
      + FilterRow(filters[n], bpp, rows[n], Above(rows, n, w))
  }

  /** Where row j starts in the filtered data. */
  function RowStart(w: nat, j: nat): nat {
    if j == 0 then 0 else RowStart(w, j - 1) + 1 + w
  }

  lemma {:induction false} RowStartProduct(w: nat, j: nat)
    ensures RowStart(w, j) == (w + 1) * j
  {
    if j > 0 {
      RowStartProduct(w, j - 1);
    }
  }

  lemma {:induction false} RowStartMonotone(w: nat, i: nat, j: nat)
    requires i < j
    ensures RowStart(w, i) + 1 + w <= RowStart(w, j)
    decreases j
  {
    if i + 1 < j {
      RowStartMonotone(w, i, j - 1);
    }
  }

  lemma {:induction false} EncodePrefix(filters: seq<nat>, bpp: nat, rows: seq<seq<byte>>, w: nat, n: nat)
    requires |filters| == |rows| && FilterTypes(filters) && 0 < bpp && Rectangular(rows, w) && n <= |rows|
    ensures Encode(filters[..n], bpp, rows[..n], w) <= Encode(filters, bpp, rows, w)
  {
    hide FilterRow, RowStart, Above;
    if n == |rows| {
      assert filters[..n] == filters && rows[..n] == rows;
    } else {
      var m := |rows| - 1;
      EncodePrefix(filters[..m], bpp, rows[..m], w, n);
      assert filters[..m][..n] == filters[..n] && rows[..m][..n] == rows[..n];
    }
  }

  lemma EncodeLast(filters: seq<nat>, bpp: nat, rows: seq<seq<byte>>, w: nat, f: nat, row: seq<byte>)
    requires |filters| == |rows| && FilterTypes(filters) && 0 < bpp && Rectangular(rows, w)
    requires f <= 4 && |row| == w
    ensures Encode(filters + [f], bpp, rows + [row], w)
         == Encode(filters, bpp, rows, w) + [f] + FilterRow(f, bpp, row, Above(rows, |rows|, w))
  {
    var fs, rs, n := filters + [f], rows + [row], |rows|;
    assert fs[..n] == filters && rs[..n] == rows;
    assert Above(rs, n, w) == Above(rows, n, w);
  }

  lemma LastRowInjective(fs: seq<nat>, f: nat, rs: seq<seq<byte>>, r: seq<byte>,
                         gs: seq<nat>, g: nat, ss: seq<seq<byte>>, s: seq<byte>, bpp: nat, w: nat)
    requires |fs| == |rs| == |gs| == |ss| && FilterTypes(fs) && FilterTypes(gs) && f <= 4 && g <= 4 && 0 < bpp
    requires Rectangular(rs, w) && Rectangular(ss, w) && |r| == |s| == w
    requires Encode(fs + [f], bpp, rs + [r], w) == Encode(gs + [g], bpp, ss + [s], w)
    ensures Encode(fs, bpp, rs, w) == Encode(gs, bpp, ss, w) && f == g
    ensures rs == ss ==> r == s
  {
    hide Encode, FilterRow, RowStart, Above;
    EncodeLast(fs, bpp, rs, w, f, r);
    EncodeLast(gs, bpp, ss, w, g, s);
    var u, v := FilterRow(f, bpp, r, Above(rs, |rs|, w)), FilterRow(g, bpp, s, Above(ss, |ss|, w));
    TripleInjective(Encode(fs, bpp, rs, w), f, u, Encode(gs, bpp, ss, w), g, v);
    if rs == ss {
      FilterRowInjective(f, bpp, r, s, Above(rs, |rs|, w), w);
      assert r[..w] == r && s[..w] == s;
    }
  }

  /** Filtered data of the same shape has only one source: the filter types and the rows can be recovered. */
  lemma {:induction false} EncodeInjective(fs: seq<nat>, rs: seq<seq<byte>>, gs: seq<nat>, ss: seq<seq<byte>>, bpp: nat, w: nat)
    requires |fs| == |rs| == |gs| == |ss| && FilterTypes(fs) && FilterTypes(gs) && 0 < bpp
    requires Rectangular(rs, w) && Rectangular(ss, w)
    requires Encode(fs, bpp, rs, w) == Encode(gs, bpp, ss, w)
    ensures fs == gs && rs == ss
  {
    hide Encode;
    if |rs| > 0 {
      var n := |rs| - 1;
      assert rs == rs[..n] + [rs[n]] && ss == ss[..n] + [ss[n]];
      assert fs == fs[..n] + [fs[n]] && gs == gs[..n] + [gs[n]];
      LastRowInjective(fs[..n], fs[n], rs[..n], rs[n], gs[..n], gs[n], ss[..n], ss[n], bpp, w);
      EncodeInjective(fs[..n], rs[..n], gs[..n], ss[..n], bpp, w);
    }
  }

  lemma TripleInjective(x: seq<byte>, f: nat, u: seq<byte>, y: seq<byte>, g: nat, v: seq<byte>)
    requires f < 256 && g < 256 && |x| == |y| && x + [f] + u == y + [g] + v
    ensures x == y && f == g && u == v
  {
    var s, t := x + [f] + u, y + [g] + v;
    assert s[..|x|] == x && t[..|y|] == y;
    assert s[|x|] == f && t[|y|] == g;
    assert s[|x| + 1..] == u && t[|y| + 1..] == v;
  }

  // Reconstruction

  /** First-row filter types: none of them looks at the row above. */
  function FirstRowFilter(filter: nat): (r: nat)
    requires filter <= 4
    ensures r in {NONE, SUB, AVG_FIRST}
  {
    [NONE, SUB, NONE, AVG_FIRST, SUB][filter]
  }

  /** The prediction of the decoder, which has one more filter type. */
  function Guess(filter: nat, a: byte, b: byte, c: byte): byte
    requires filter <= 5
  {
    if filter == AVG_FIRST then a / 2 else Predict(filter, a, b, c)
  }

  /** The substituted types predict as the original ones do below a row of zeros. */
  lemma FirstRowFilterCorrect(filter: nat, a: byte, b: byte, c: byte)
    requires filter <= 4
    ensures Guess(FirstRowFilter(filter), a, b, c) == Guess(filter, a, 0, 0)
  {
    assert PaethPredictor(a, 0, 0) == a;
  }

  /** Sum of two bytes, truncated to a byte. */
  function AddByte(x: int, y: int): byte {
    (x + y) % 256
  }

  function Mean(x: int, y: int): int {
    (x + y) / 2
  }

  /** The average of the bytes to the left and above is rounded down, and not truncated to a byte before it is halved. */
  lemma AverageRounds(a: byte, b: byte, c: byte)
    ensures 2 * Predict(AVG, a, b, c) <= a as int + b as int <= 2 * Predict(AVG, a, b, c) + 1
  {
  }

  /**
   The Paeth predictor is the neighbour nearest to left + above - above left; of equally near ones
   the left, then the upper one.
   */
  lemma PaethNearest(a: byte, b: byte, c: byte)
    ensures var r, p := Predict(PAETH, a, b, c) as int, a as int + b as int - c as int;
      && (r == a || r == b || r == c)
      && Apart(p, r) <= Apart(p, a as int) && Apart(p, r) <= Apart(p, b as int) && Apart(p, r) <= Apart(p, c as int)
      && (r != a ==> Apart(p, r) < Apart(p, a as int))
      && (r != a && r != b ==> Apart(p, r) < Apart(p, b as int))
  {
  }

  /** How far apart two numbers are. */
  function Apart(x: int, y: int): int {
    if x < y then y - x else x - y
  }

  /** The bytes in row are the reconstruction of the first ones of raw below the row above. */
  ghost predicate Reconstructs(filter: nat, fb: nat, raw: seq<byte>, above: seq<byte>, row: seq<byte>)
    requires filter <= 5 && 0 < fb && |row| <= |raw| == |above|
  {
    forall k :: 0 <= k < |row| ==>
      row[k] == AddByte(raw[k], Guess(filter, Left(row, k, fb), above[k], Left(above, k, fb)))
  }

  lemma Extend(filter: nat, fb: nat, raw: seq<byte>, above: seq<byte>, row: seq<byte>, v: byte)
    requires filter <= 5 && 0 < fb && |row| < |raw| == |above|
    requires Reconstructs(filter, fb, raw, above, row)
    requires var k := |row|; v == AddByte(raw[k], Guess(filter, Left(row, k, fb), above[k], Left(above, k, fb)))
    ensures Reconstructs(filter, fb, raw, above, row + [v])
  {
    hide Guess, AddByte;
    forall k | 0 <= k <= |row|
      ensures Left(row + [v], k, fb) == Left(row, k, fb)
    {
    }
  }

  lemma Nothing(filter: nat, fb: nat, raw: seq<byte>, above: seq<byte>)
    requires filter <= 5 && 0 < fb && |raw| == |above|
    ensures Reconstructs(filter, fb, raw, above, [])
  {
  }

  /** A workspace of two rows of the same length. */
  datatype Workspace = Workspace(buf: array<byte>, cur: nat, prior: nat, nk: nat) {
    predicate Valid() {
      cur + nk <= buf.Length && prior + nk <= buf.Length && (cur + nk <= prior || prior + nk <= cur)
    }

    ghost function Above(): seq<byte>
      requires Valid()
      reads buf
    {
      buf[prior..prior + nk]
    }

    /** The current row as far as it is reconstructed. */
    ghost predicate Done(filter: nat, fb: nat, raw: seq<byte>, above: seq<byte>, k: nat)
      requires Valid() && filter <= 5 && 0 < fb && |raw| == |above| == nk && k <= nk
      reads buf
    {
      Above() == above && Reconstructs(filter, fb, raw, above, buf[cur..cur + k])
    }

    /** Store the next byte of the current row. */
    method Put(k: nat, v: byte, ghost filter: nat, ghost fb: nat, ghost raw: seq<byte>, ghost above: seq<byte>)
      requires Valid() && filter <= 5 && 0 < fb && |raw| == |above| == nk && k < nk
      requires Done(filter, fb, raw, above, k)
      requires v == AddByte(raw[k], Guess(filter, Left(buf[cur..cur + nk], k, fb), above[k], Left(above, k, fb)))
      modifies buf
      ensures Done(filter, fb, raw, above, k + 1)
    {
      hide AddByte, Guess, Reconstructs;
      ghost var row := buf[cur..cur + k];
      Extend(filter, fb, raw, above, row, v);
      buf[cur + k] := v;
      assert buf[cur..cur + k + 1] == row + [v];
    }

    /** The first n bytes of a row whose type predicts zero for them. */
    method Copy(n: nat, raw: seq<byte>, ghost filter: nat, ghost fb: nat, ghost above: seq<byte>)
      requires Valid() && filter <= 5 && 0 < fb && |raw| == |above| == nk && n <= nk && Above() == above
      requires filter == NONE || (filter in {SUB, AVG_FIRST} && n <= fb)
      modifies buf
      ensures Done(filter, fb, raw, above, n)
    {
      for k := 0 to n
        invariant Done(filter, fb, raw, above, k)
      {
        assert AddByte(raw[k], 0) == raw[k];
        Put(k, raw[k], filter, fb, raw, above);
      }
    }

    /** Reconstruct one row from its filtered bytes. */
    method ReconstructRow(filter: nat, raw: seq<byte>, fb: nat, ghost above: seq<byte>)
      requires Valid() && filter <= 5 && |raw| == nk && 0 < fb <= nk && Above() == above
      modifies buf
      ensures Done(filter, fb, raw, above, nk)
    {
      hide Reconstructs, AddByte;
      match filter {
        case 0 => Copy(nk, raw, filter, fb, above);
        case 1 => ReconstructSub(raw, fb, above);
        case 2 => ReconstructUp(raw, fb, above);
        case 3 => ReconstructAverage(raw, fb, above);
        case 4 => ReconstructPaeth(raw, fb, above);
        case _ => ReconstructAverageFirst(raw, fb, above);
      }
    }

    method ReconstructSub(raw: seq<byte>, fb: nat, ghost above: seq<byte>)
      requires Valid() && |raw| == nk && 0 < fb <= nk && Above() == above
      modifies buf
      ensures Done(SUB, fb, raw, above, nk)
    {
      hide Reconstructs, AddByte;
      Copy(fb, raw, SUB, fb, above);
      for k := fb to nk
        invariant Done(SUB, fb, raw, above, k)
      {
        Put(k, AddByte(raw[k], buf[cur + k - fb]), SUB, fb, raw, above);
      }
    }

    method ReconstructUp(raw: seq<byte>, fb: nat, ghost above: seq<byte>)
      requires Valid() && |raw| == nk && 0 < fb <= nk && Above() == above
      modifies buf
      ensures Done(UP, fb, raw, above, nk)
    {
      hide Reconstructs, AddByte, PaethPredictor, Paeth;
      Nothing(UP, fb, raw, above);
      assert buf[cur..cur] == [];
      for k := 0 to nk
        invariant Done(UP, fb, raw, above, k)
      {
        Put(k, AddByte(raw[k], buf[prior + k]), UP, fb, raw, above);
      }
    }

    method ReconstructAverageStart(raw: seq<byte>, fb: nat, ghost above: seq<byte>)
      requires Valid() && |raw| == nk && 0 < fb <= nk && Above() == above
      modifies buf
      ensures Done(AVG, fb, raw, above, fb)
    {
      hide Reconstructs, AddByte, PaethPredictor, Paeth;
      Nothing(AVG, fb, raw, above);
      assert buf[cur..cur] == [];
      for k := 0 to fb
        invariant Done(AVG, fb, raw, above, k)
      {
        Put(k, AddByte(raw[k], buf[prior + k] / 2), AVG, fb, raw, above);
      }
    }

    method ReconstructAverage(raw: seq<byte>, fb: nat, ghost above: seq<byte>)
      requires Valid() && |raw| == nk && 0 < fb <= nk && Above() == above
      modifies buf
      ensures Done(AVG, fb, raw, above, nk)
    {
      hide Reconstructs, AddByte, PaethPredictor, Paeth;
      ReconstructAverageStart(raw, fb, above);
      for k := fb to nk
        invariant Done(AVG, fb, raw, above, k)
      {
        Put(k, AddByte(raw[k], Mean(buf[prior + k], buf[cur + k - fb])), AVG, fb, raw, above);
      }
    }

    /** The first pixel of a Paeth row has nothing to the left. */
    method ReconstructPaethStart(raw: seq<byte>, fb: nat, ghost above: seq<byte>)
      requires Valid() && |raw| == nk && 0 < fb <= nk && Above() == above
      modifies buf
      ensures Done(PAETH, fb, raw, above, fb)
    {
      hide Reconstructs, AddByte, PaethPredictor;
      Nothing(PAETH, fb, raw, above);
      assert buf[cur..cur] == [];
      for k := 0 to fb
        invariant Done(PAETH, fb, raw, above, k)
      {
        PaethAlone(buf[prior + k]);
        Put(k, AddByte(raw[k], buf[prior + k]), PAETH, fb, raw, above);
      }
    }

    method ReconstructPaeth(raw: seq<byte>, fb: nat, ghost above: seq<byte>)
      requires Valid() && |raw| == nk && 0 < fb <= nk && Above() == above
      modifies buf
      ensures Done(PAETH, fb, raw, above, nk)
    {
      hide Reconstructs, AddByte, PaethPredictor, Paeth;
      ReconstructPaethStart(raw, fb, above);
      for k := fb to nk
        invariant Done(PAETH, fb, raw, above, k)
      {
        Put(k, AddByte(raw[k], Paeth(buf[cur + k - fb], buf[prior + k], buf[prior + k - fb])), PAETH, fb, raw, above);
      }
    }

    method ReconstructAverageFirst(raw: seq<byte>, fb: nat, ghost above: seq<byte>)
      requires Valid() && |raw| == nk && 0 < fb <= nk && Above() == above
      modifies buf
      ensures Done(AVG_FIRST, fb, raw, above, nk)
    {
      hide Reconstructs, AddByte;
      Copy(fb, raw, AVG_FIRST, fb, above);
      for k := fb to nk
        invariant Done(AVG_FIRST, fb, raw, above, k)
      {
        Put(k, AddByte(raw[k], buf[cur + k - fb] / 2), AVG_FIRST, fb, raw, above);
      }
    }
  }

  /** Filtering a reconstructed row gives back the bytes it came from. */
  lemma RefilterRow(filter: nat, fb: nat, raw: seq<byte>, above: seq<byte>, row: seq<byte>)
    requires filter <= 4 && 0 < fb && |row| == |raw| == |above|
    requires Reconstructs(filter, fb, raw, above, row)
    ensures FilterRow(filter, fb, row, above) == raw
  {
    hide Guess, Predict, AddByte;
    forall k | 0 <= k < |raw|
      ensures FilterRow(filter, fb, row, above)[k] == raw[k]
    {
      var p := Guess(filter, Left(row, k, fb), above[k], Left(above, k, fb));
      UndoSum(raw[k], p);
      GuessIsPredict(filter, Left(row, k, fb), above[k], Left(above, k, fb));
    }
  }

  lemma GuessIsPredict(filter: nat, a: byte, b: byte, c: byte)
    requires filter <= 4
    ensures Guess(filter, a, b, c) == Predict(filter, a, b, c)
  {
  }

  lemma UndoSum(x: byte, y: byte)
    ensures (AddByte(x, y) - y) % 256 == x
  {
  }

  /** What the substituted type reconstructs is what the original one does below zeros. */
  lemma FirstRow(filter: nat, fb: nat, raw: seq<byte>, above: seq<byte>, row: seq<byte>)
    requires filter <= 4 && 0 < fb && |row| == |raw| == |above|
    requires Reconstructs(FirstRowFilter(filter), fb, raw, above, row)
    ensures Reconstructs(filter, fb, raw, Zeros(|raw|), row)
  {
    hide Guess, AddByte;
    forall k | 0 <= k < |row|
      ensures Guess(FirstRowFilter(filter), Left(row, k, fb), above[k], Left(above, k, fb)) == Guess(filter, Left(row, k, fb), 0, 0)
    {
      FirstRowFilterCorrect(filter, Left(row, k, fb), above[k], Left(above, k, fb));
    }
  }
}
