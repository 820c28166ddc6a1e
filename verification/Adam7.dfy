/**
 The seven interlacing passes (section 8.2 of the PNG specification, second edition): which
 pixels a pass holds, how large it is, and that the passes together hold every pixel once.
 */
module Adam7 {
  import opened Division
  import opened PngImage

  function XOrig(p: nat): (r: nat)
    requires p < 7
    ensures r <= 4
  {
    [0, 4, 0, 2, 0, 1, 0][p]
  }

  function YOrig(p: nat): (r: nat)
    requires p < 7
    ensures r <= 4
  {
    [0, 0, 4, 0, 2, 0, 1][p]
  }

  function XSpc(p: nat): (r: nat)
    requires p < 7
    ensures 1 <= r <= 8
  {
    [8, 8, 4, 4, 2, 2, 1][p]
  }

  function YSpc(p: nat): (r: nat)
    requires p < 7
    ensures 1 <= r <= 8
  {
    [8, 8, 8, 4, 4, 2, 2][p]
  }

  /** Size of a pass in one direction, in unsigned 32-bit arithmetic that may wrap around. */
  function PassSize(n: nat, orig: nat, spc: nat): nat
    requires 0 < spc
  {
    ((n - orig + spc - 1) % 0x1_0000_0000) / spc
  }

  function Width(w: nat, p: nat): nat
    requires p < 7
  {
    PassSize(w, XOrig(p), XSpc(p))
  }

  function Height(h: nat, p: nat): nat
    requires p < 7
  {
    PassSize(h, YOrig(p), YSpc(p))
  }

  /** The sum wraps around exactly when the first difference does. */
  lemma NoWrap(n: nat, orig: nat, spc: nat)
    requires n <= MAX_DIMENSION && orig < spc <= 8
    ensures PassSize(n, orig, spc) == (n + (spc - 1 - orig)) / spc
  {
  }

  /** Despite the wrap-around, a pass has exactly the positions of its lattice inside the image. */
  lemma PassSizeCounts(n: nat, orig: nat, spc: nat, i: nat)
    requires n <= MAX_DIMENSION && spc in {1, 2, 4, 8} && orig < spc
    ensures i < PassSize(n, orig, spc) <==> i * spc + orig < n
  {
    NoWrap(n, orig, spc);
    if spc == 1 {
    } else if spc == 2 {
    } else if spc == 4 {
    } else {
    }
  }

  /** The pass that holds a pixel, read off the pattern of the specification. */
  function PassOf(x: nat, y: nat): (p: nat)
    ensures p < 7
  {
    if y % 2 == 1 then 6
    else if x % 2 == 1 then 5
    else if y % 4 == 2 then 4
    else if x % 4 == 2 then 3
    else if y % 8 == 4 then 2
    else if x % 8 == 4 then 1
    else 0
  }

  /** The pattern of section 8.2: the number of the pass for each pixel of a square of eight by eight. */
  function PatternRow(j: nat): (row: seq<nat>)
    requires j < 8
    ensures |row| == 8
  {
    if j == 0 then [1, 6, 4, 6, 2, 6, 4, 6]
    else if j == 4 then [3, 6, 4, 6, 3, 6, 4, 6]
    else if j % 2 == 0 then [5, 6, 5, 6, 5, 6, 5, 6]
    else [7, 7, 7, 7, 7, 7, 7, 7]
  }

  lemma Remainders(x: nat)
    ensures x % 8 % 2 == x % 2 && x % 8 % 4 == x % 4 && x % 8 % 8 == x % 8
  {
  }

  lemma PassRepeats(x: nat, y: nat)
    ensures PassOf(x, y) == PassOf(x % 8, y % 8)
  {
    Remainders(x);
    Remainders(y);
  }

  lemma PatternSquare(i: nat, j: nat)
    requires i < 8 && j < 8
    ensures PassOf(i, j) + 1 == PatternRow(j)[i]
  {
    if {
      case i == 0 => case i == 1 => case i == 2 => case i == 3 =>
      case i == 4 => case i == 5 => case i == 6 => case i == 7 =>
    }
  }

  lemma PassPattern(x: nat, y: nat)
    ensures PassOf(x, y) + 1 == PatternRow(y % 8)[x % 8]
  {
    hide PassOf, PatternRow;
    PassRepeats(x, y);
    PatternSquare(x % 8, y % 8);
  }

  /** Pixel (i, j) of pass p is pixel (x, y) of the image. */
  predicate Holds(p: nat, i: nat, j: nat, x: nat, y: nat)
    requires p < 7
  {
    x == i * XSpc(p) + XOrig(p) && y == j * YSpc(p) + YOrig(p)
  }

  function Column(p: nat, x: nat): nat
    requires p < 7 && XOrig(p) <= x
  {
    (x - XOrig(p)) / XSpc(p)
  }

  function Line(p: nat, y: nat): nat
    requires p < 7 && YOrig(p) <= y
  {
    (y - YOrig(p)) / YSpc(p)
  }

  lemma Axis(i: nat, spc: nat, orig: nat, x: nat)
    requires spc in {1, 2, 4, 8} && orig < spc
    ensures x == i * spc + orig <==> x % spc == orig && i == (x - orig) / spc
  {
    if x == i * spc + orig {
      DivUnique(x, spc, i, orig);
      DivUnique(x - orig, spc, i, 0);
    } else if x % spc == orig {
      QuotientRemainder(x, spc);
      DivUnique(x - orig, spc, x / spc, 0);
    }
  }

  lemma Spacing(p: nat)
    requires p < 7
    ensures XSpc(p) in {1, 2, 4, 8} && XOrig(p) < XSpc(p) && YSpc(p) in {2, 4, 8} && YOrig(p) < YSpc(p)
  {
  }

  lemma Pattern(p: nat, x: nat, y: nat)
    requires p < 7
    ensures p == PassOf(x, y) <==> x % XSpc(p) == XOrig(p) && y % YSpc(p) == YOrig(p)
  {
    Residues(x);
    Residues(y);
  }

  lemma Residues(x: nat)
    ensures x % 4 == x % 8 || x % 4 == x % 8 - 4
    ensures x % 2 == x % 4 || x % 2 == x % 4 - 2
  {
    HalfResidue(x, 4);
    HalfResidue(x, 2);
  }

  lemma HalfResidue(x: nat, n: nat)
    requires n in {2, 4}
    ensures x % n == x % (2 * n) || x % n == x % (2 * n) - n
  {
    var q, r := x / (2 * n), x % (2 * n);
    QuotientRemainder(x, 2 * n);
    if r < n {
      DivUnique(x, n, 2 * q, r);
    } else {
      DivUnique(x, n, 2 * q + 1, r - n);
    }
  }

  /** Each pixel is held by one pass, at one place in it, and by no other. */
  lemma HeldOnce(x: nat, y: nat, p: nat, i: nat, j: nat)
    requires p < 7
    ensures Holds(p, i, j, x, y) <==>
            p == PassOf(x, y) && XOrig(p) <= x && YOrig(p) <= y && i == Column(p, x) && j == Line(p, y)
  {
    hide PassOf, XSpc, YSpc, XOrig, YOrig;
    Spacing(p);
    Axis(i, XSpc(p), XOrig(p), x);
    Axis(j, YSpc(p), YOrig(p), y);
    Pattern(p, x, y);
    RemainderBelow(x, XSpc(p));
    RemainderBelow(y, YSpc(p));
  }

  lemma RemainderBelow(x: nat, n: nat)
    requires 0 < n
    ensures x % n <= x
  {
  }

  /** A place inside a pass is a pixel inside the image, and the other way round. */
  lemma InBounds(w: nat, h: nat, p: nat, i: nat, j: nat, x: nat, y: nat)
    requires w <= MAX_DIMENSION && h <= MAX_DIMENSION && p < 7 && Holds(p, i, j, x, y)
    ensures i < Width(w, p) && j < Height(h, p) <==> x < w && y < h
  {
    Spacing(p);
    PassSizeCounts(w, XOrig(p), XSpc(p), i);
    PassSizeCounts(h, YOrig(p), YSpc(p), j);
  }

  /** Positions orig, orig + spc, ... below n, and those halfway between them. */
  lemma Halves(n: nat, spc: nat)
    requires n <= MAX_DIMENSION && spc in {1, 2, 4}
    ensures PassSize(n, 0, 2 * spc) + PassSize(n, spc, 2 * spc) == PassSize(n, 0, spc)
  {
    NoWrap(n, 0, 2 * spc);
    NoWrap(n, spc, 2 * spc);
    NoWrap(n, 0, spc);
    if spc == 4 {
      Quarters(n / 8, n % 8);
    } else if spc == 2 {
      Pairs(n / 4, n % 4);
    }
  }

  lemma Quarters(q: nat, r: nat)
    requires r < 8
    ensures var n := 8 * q + r; (n + 7) / 8 + (n + 3) / 8 == (n + 3) / 4
  {
    var n := 8 * q + r;
    DivUnique(n + 7, 8, if r == 0 then q else q + 1, if r == 0 then 7 else r - 1);
    DivUnique(n + 3, 8, if r <= 4 then q else q + 1, if r <= 4 then r + 3 else r - 5);
    DivUnique(n + 3, 4, if r == 0 then 2 * q else if r <= 4 then 2 * q + 1 else 2 * q + 2, if r == 0 then 3 else if r <= 4 then r - 1 else r - 5);
  }

  lemma Pairs(q: nat, r: nat)
    requires r < 4
    ensures var n := 4 * q + r; (n + 3) / 4 + (n + 1) / 4 == (n + 1) / 2
  {
  }

  /** The sizes of the passes add up to the size of the image. */
  lemma PassesCover(w: nat, h: nat)
    requires w <= MAX_DIMENSION && h <= MAX_DIMENSION
    ensures Width(w, 0) * Height(h, 0) + Width(w, 1) * Height(h, 1) + Width(w, 2) * Height(h, 2) + Width(w, 3) * Height(h, 3)
          + Width(w, 4) * Height(h, 4) + Width(w, 5) * Height(h, 5) + Width(w, 6) * Height(h, 6) == w * h
  {
    hide PassSize;
    Halves(w, 4);
    Halves(w, 2);
    Halves(w, 1);
    Halves(h, 4);
    Halves(h, 2);
    Halves(h, 1);
    Join(PassSize(w, 0, 8), PassSize(w, 4, 8), PassSize(w, 0, 4), PassSize(h, 0, 8));
    Join(PassSize(h, 0, 8), PassSize(h, 4, 8), PassSize(h, 0, 4), PassSize(w, 0, 4));
    Join(PassSize(w, 0, 4), PassSize(w, 2, 4), PassSize(w, 0, 2), PassSize(h, 0, 4));
    Join(PassSize(h, 0, 4), PassSize(h, 2, 4), PassSize(h, 0, 2), PassSize(w, 0, 2));
    Join(PassSize(w, 0, 2), PassSize(w, 1, 2), PassSize(w, 0, 1), PassSize(h, 0, 2));
    Join(PassSize(h, 0, 2), PassSize(h, 1, 2), PassSize(h, 0, 1), PassSize(w, 0, 1));
    WholeSize(w);
    WholeSize(h);
  }

  lemma WholeSize(n: nat)
    requires n <= MAX_DIMENSION
    ensures PassSize(n, 0, 1) == n
  {
  }

  lemma Join(a: nat, b: nat, c: nat, k: nat)
    requires a + b == c
    ensures a * k + b * k == c * k && k * a + k * b == k * c
  {
  }
}
