/**
 A reference encoder for dynamic blocks, written from section 3.2.7 of RFC 1951: the header
 announces any two usable codes, and the decoder gives back what the tokens stand for.
 */
module DynamicEncoder {
  import opened Options
  import opened Binary
  import opened BitStream
  import opened Canonical
  import opened Huffman
  import opened Lz77
  import opened InflateBlock
  import opened Deflate
  import opened Zlib
  import opened Encoder

  // The code lengths of the code length alphabet

  /** Whose length stands in field i: the repetitions, then zero, then outwards from the middle, eight first. */
  function FieldSymbol(i: nat): (s: nat)
    requires i < 19
    ensures s < 19
  {
    if i < 3 then 16 + i else if i == 3 then 0 else if i % 2 == 0 then 6 + i / 2 else 9 - i / 2
  }

  /** The field in which the length of symbol s stands. */
  function FieldOf(s: nat): (i: nat)
    requires s < 19
    ensures i < 19 && FieldSymbol(i) == s
  {
    if s == 0 then 3 else if s < 8 then 19 - 2 * s else if s < 16 then 2 * s - 12 else s - 16
  }

  lemma FieldOfSymbol(i: nat)
    requires i < 19
    ensures FieldOf(FieldSymbol(i)) == i
  {
  }

  /** The order of the fields, in the decoder as in the encoder. */
  lemma LengthOrderIs(i: nat)
    requires i < 19
    ensures LengthOrder(i) == FieldSymbol(i)
  {
  }

  /** The first n fields. */
  function MetaBits(cl: seq<nat>, n: nat): (r: seq<bit>)
    requires |cl| == 19 && n <= 19
    ensures |r| == 3 * n
  {
    if n == 0 then [] else MetaBits(cl, n - 1) + FieldBits(cl[FieldSymbol(n - 1)], 3)
  }

  predicate MetaLengthsFit(cl: seq<nat>) {
    |cl| == 19 && forall s :: 0 <= s < 19 ==> cl[s] <= 7
  }

  /** The lengths whose fields are left out are zero. */
  predicate RestZero(cl: seq<nat>, n: nat)
    requires |cl| == 19
  {
    forall i {:trigger FieldSymbol(i)} :: n <= i < 19 ==> cl[FieldSymbol(i)] == 0
  }

  /** The fields that stand in the stream are read back, the others as zero. */
  lemma {:induction false} MetaStands(data: seq<byte>, p: nat, cl: seq<nat>, n: nat, s: nat)
    requires MetaLengthsFit(cl) && n <= 19 && s < 19 && BitsStand(data, p, MetaBits(cl, n))
    ensures MetaLengths(data, p, n)[s] == if FieldOf(s) < n then cl[s] else 0
    decreases n
  {
    hide BitsStand, FieldBits, BitsAt, LengthOrder, FieldOf, FieldSymbol;
    if n > 0 {
      var v := cl[FieldSymbol(n - 1)];
      BitsStandSplit(data, p, MetaBits(cl, n - 1), FieldBits(v, 3));
      MetaStands(data, p, cl, n - 1, s);
      assert v < Pow2(3) by { Pow2Values(); }
      FieldStands(data, p + 3 * (n - 1), v, 3);
      LengthOrderIs(n - 1);
      FieldOfSymbol(n - 1);
    }
  }

  lemma MetaRead(data: seq<byte>, p: nat, cl: seq<nat>, n: nat)
    requires MetaLengthsFit(cl) && n <= 19 && RestZero(cl, n) && BitsStand(data, p, MetaBits(cl, n))
    ensures MetaLengths(data, p, n) == cl
  {
    hide BitsStand, MetaBits, MetaLengths, FieldOf;
    forall s | 0 <= s < 19
      ensures MetaLengths(data, p, n)[s] == cl[s]
    {
      MetaStands(data, p, cl, n, s);
      assert FieldSymbol(FieldOf(s)) == s;
    }
  }

  // Runs of code lengths

  datatype Run =
    | One(v: nat)
    | Again(count: nat)
    | Zeros(count: nat)

  predicate ValidRun(r: Run) {
    match r
    case One(v) => v <= 15
    case Again(count) => 3 <= count <= 6
    case Zeros(count) => 3 <= count <= 138
  }

  /** The code lengths that the runs stand for. */
  function RunLengths(runs: seq<Run>): (r: Option<seq<nat>>)
  {
    if runs == [] then Some([])
    else
      match RunLengths(runs[..|runs| - 1])
      case None => None
      case Some(lens) =>
        match runs[|runs| - 1]
        case One(v) => Some(lens + [v])
        case Again(count) => if lens == [] then None else Some(lens + Repeat(lens[|lens| - 1], count))
        case Zeros(count) => Some(lens + Repeat(0, count))
  }

  function RunSymbol(r: Run): nat {
    match r
    case One(v) => v
    case Again(_) => 16
    case Zeros(count) => if count <= 10 then 17 else 18
  }

  function RunExtra(r: Run): seq<bit>
    requires ValidRun(r)
  {
    match r
    case One(_) => []
    case Again(count) => FieldBits(count - 3, 2)
    case Zeros(count) => if count <= 10 then FieldBits(count - 3, 3) else FieldBits(count - 11, 7)
  }

  predicate RunEncodable(cl: seq<nat>, r: Run) {
    ValidRun(r) && HasCode(cl, RunSymbol(r))
  }

  predicate RunsEncodable(cl: seq<nat>, runs: seq<Run>) {
    forall i :: 0 <= i < |runs| ==> RunEncodable(cl, runs[i])
  }

  function RunBits(cl: seq<nat>, r: Run): seq<bit>
    requires RunEncodable(cl, r)
  {
    SymbolBits(cl, RunSymbol(r)) + RunExtra(r)
  }

  function RunsBits(cl: seq<nat>, runs: seq<Run>): seq<bit>
    requires RunsEncodable(cl, runs)
  {
    if runs == [] then [] else RunsBits(cl, runs[..|runs| - 1]) + RunBits(cl, runs[|runs| - 1])
  }

  /** The operation that the decoder reads. */
  function OpOf(r: Run): LengthOp
    requires ValidRun(r)
  {
    match r
    case One(v) => Single(v)
    case Again(count) => CopyPrevious(count - 3)
    case Zeros(count) => if count <= 10 then ZerosShort(count - 3) else ZerosLong(count - 11)
  }

  function OpsOf(cl: seq<nat>, runs: seq<Run>): (ops: seq<LengthOp>)
    requires RunsEncodable(cl, runs)
    ensures |ops| == |runs|
  {
    seq(|runs|, i requires 0 <= i < |runs| => OpOf(runs[i]))
  }

  lemma RunExtraStands(data: seq<byte>, p: nat, r: Run)
    requires ValidRun(r) && BitsStand(data, p, RunExtra(r))
    ensures OpExtra(OpOf(r)) == BitsAt(data, p, OpExtraBits(OpOf(r))) && OpExtraBits(OpOf(r)) == |RunExtra(r)|
  {
    hide BitsStand, FieldBits;
    Pow2Values();
    match r {
      case One(_) =>
      case Again(count) => FieldStands(data, p, count - 3, 2);
      case Zeros(count) =>
        if count <= 10 {
          FieldStands(data, p, count - 3, 3);
        } else {
          FieldStands(data, p, count - 11, 7);
        }
    }
  }

  ghost predicate Reads(cl: seq<nat>) {
    |cl| == 19 && Lengths(cl) && NotOversubscribed(cl)
  }

  lemma RunStands(cl: seq<nat>, data: seq<byte>, p: nat, r: Run)
    requires Reads(cl) && RunEncodable(cl, r) && BitsStand(data, p, RunBits(cl, r))
    ensures OpAt(cl, data, p, OpOf(r)) && OpSize(cl, OpOf(r)) == |RunBits(cl, r)|
  {
    hide BitsStand, SymbolAt, BitsAt, Code, CodeBits, RunExtra, Lengths, NotOversubscribed;
    BitsStandSplit(data, p, SymbolBits(cl, RunSymbol(r)), RunExtra(r));
    SymbolStands(cl, data, p, RunSymbol(r));
    RunExtraStands(data, p + cl[RunSymbol(r)], r);
    assert OpSymbol(OpOf(r)) == RunSymbol(r);
  }

  lemma {:induction false} RunsStand(cl: seq<nat>, data: seq<byte>, p: nat, runs: seq<Run>)
    requires Reads(cl) && RunsEncodable(cl, runs) && BitsStand(data, p, RunsBits(cl, runs))
    ensures OpsAt(cl, data, p, OpsOf(cl, runs)) && OpsSize(cl, OpsOf(cl, runs)) == |RunsBits(cl, runs)|
  {
    hide RunBits, OpAt, OpSize, BitsStand, RunEncodable, OpOf, Reads;
    if runs != [] {
      var front, last := runs[..|runs| - 1], runs[|runs| - 1];
      BitsStandSplit(data, p, RunsBits(cl, front), RunBits(cl, last));
      RunsStand(cl, data, p, front);
      RunStands(cl, data, p + |RunsBits(cl, front)|, last);
      assert OpsOf(cl, runs)[..|front|] == OpsOf(cl, front);
    }
  }

  /** The operations stand for the same code lengths as the runs. */
  lemma {:induction false} RunsApply(cl: seq<nat>, runs: seq<Run>)
    requires RunsEncodable(cl, runs)
    ensures ApplyOps(OpsOf(cl, runs)) == RunLengths(runs)
  {
    hide HasCode;
    if runs != [] {
      var front := runs[..|runs| - 1];
      RunsApply(cl, front);
      assert OpsOf(cl, runs)[..|front|] == OpsOf(cl, front);
    }
  }

  // Headers

  /** A way to announce two codes: the code length code, how many of its fields are written, and the runs. */
  datatype Header = Header(cl: seq<nat>, n: nat, runs: seq<Run>)

  /** The header announces the codes c. */
  ghost predicate Announces(h: Header, c: Codes) {
    && 257 <= |c.lit| <= 288 && 1 <= |c.dist| <= 32 && Usable(c.lit) && Usable(c.dist)
    && MetaLengthsFit(h.cl) && 4 <= h.n <= 19 && RestZero(h.cl, h.n) && Usable(h.cl)
    && RunsEncodable(h.cl, h.runs) && RunLengths(h.runs) == Some(c.lit + c.dist)
  }

  function CountBits(c: Codes, n: nat): (r: seq<bit>)
    requires 257 <= |c.lit| && 1 <= |c.dist| && 4 <= n
    ensures |r| == 14
  {
    FieldBits(|c.lit| - 257, 5) + FieldBits(|c.dist| - 1, 5) + FieldBits(n - 4, 4)
  }

  ghost function HeaderBits(h: Header, c: Codes): seq<bit>
    requires Announces(h, c)
  {
    CountBits(c, h.n) + MetaBits(h.cl, h.n) + RunsBits(h.cl, h.runs)
  }

  lemma UsableReads(sl: seq<nat>)
    requires Usable(sl)
    ensures Lengths(sl) && NotOversubscribed(sl)
  {
    hide NotOversubscribed, KraftSum;
    KraftInequality(sl);
  }

  lemma CountsStand(data: seq<byte>, p: nat, c: Codes, n: nat)
    requires 257 <= |c.lit| <= 288 && 1 <= |c.dist| <= 32 && 4 <= n <= 19
    requires BitsStand(data, p, CountBits(c, n))
    ensures LitCount(data, p) == |c.lit| && DistCount(data, p) == |c.dist| && MetaCount(data, p) == n
  {
    hide BitsStand, FieldBits, BitsAt;
    Pow2Values();
    var b1, b2, b3 := FieldBits(|c.lit| - 257, 5), FieldBits(|c.dist| - 1, 5), FieldBits(n - 4, 4);
    BitsStandSplit(data, p, b1 + b2, b3);
    BitsStandSplit(data, p, b1, b2);
    FieldStands(data, p, |c.lit| - 257, 5);
    FieldStands(data, p + 5, |c.dist| - 1, 5);
    FieldStands(data, p + 10, n - 4, 4);
  }

  lemma FieldsStand(data: seq<byte>, p: nat, c: Codes, cl: seq<nat>, n: nat)
    requires 257 <= |c.lit| <= 288 && 1 <= |c.dist| <= 32 && MetaLengthsFit(cl) && 4 <= n <= 19 && RestZero(cl, n)
    requires BitsStand(data, p, CountBits(c, n)) && BitsStand(data, p + 14, MetaBits(cl, n))
    ensures LitCount(data, p) == |c.lit| && DistCount(data, p) == |c.dist|
    ensures MetaCode(data, p) == cl && OpsStart(data, p) == p + 14 + 3 * n
  {
    hide BitsStand, CountBits, MetaBits, MetaLengths, LitCount, DistCount, MetaCount, RestZero, MetaLengthsFit;
    CountsStand(data, p, c, n);
    MetaRead(data, p + 14, cl, n);
  }

  lemma ThreeStand(data: seq<byte>, p: nat, a: seq<bit>, b: seq<bit>, c: seq<bit>)
    requires BitsStand(data, p, a + b + c)
    ensures BitsStand(data, p, a) && BitsStand(data, p + |a|, b) && BitsStand(data, p + |a| + |b|, c)
  {
    hide BitsStand;
    BitsStandSplit(data, p, a + b, c);
    BitsStandSplit(data, p, a, b);
  }

  lemma HeaderParts(h: Header, c: Codes)
    requires Announces(h, c)
    ensures 257 <= |c.lit| && 1 <= |c.dist| && 4 <= h.n <= 19 && |h.cl| == 19 && RunsEncodable(h.cl, h.runs)
    ensures HeaderBits(h, c) == CountBits(c, h.n) + MetaBits(h.cl, h.n) + RunsBits(h.cl, h.runs)
  {
    hide CountBits, MetaBits, RunsBits, RunsEncodable, RunLengths, Usable, RestZero;
  }

  lemma PartsStand(data: seq<byte>, p: nat, h: Header, c: Codes)
    requires Announces(h, c) && BitsStand(data, p, HeaderBits(h, c))
    ensures BitsStand(data, p, CountBits(c, h.n)) && BitsStand(data, p + 14, MetaBits(h.cl, h.n))
    ensures BitsStand(data, p + 14 + 3 * h.n, RunsBits(h.cl, h.runs))
    ensures |HeaderBits(h, c)| == 14 + 3 * h.n + |RunsBits(h.cl, h.runs)|
  {
    hide *;
    HeaderParts(h, c);
    ThreeStand(data, p, CountBits(c, h.n), MetaBits(h.cl, h.n), RunsBits(h.cl, h.runs));
  }

  /** The header is read back as the operations of its runs and the codes it announces. */
  lemma HeaderStands(data: seq<byte>, p: nat, h: Header, c: Codes)
    requires Announces(h, c) && BitsStand(data, p, HeaderBits(h, c))
    ensures HeaderAt(data, p, OpsOf(h.cl, h.runs), c)
    ensures HeaderEnd(data, p, OpsOf(h.cl, h.runs)) == p + |HeaderBits(h, c)|
  {
    hide BitsStand, HeaderBits, CountBits, MetaBits, RunsBits, RunsEncodable, RunLengths, OpsOf, OpsAt, OpsSize, ApplyOps,
         MetaCode, OpsStart, LitCount, DistCount, Usable, RestZero, MetaLengthsFit, Lengths, NotOversubscribed, FieldBits;
    PartsStand(data, p, h, c);
    FieldsStand(data, p, c, h.cl, h.n);
    UsableReads(h.cl);
    RunsStand(h.cl, data, OpsStart(data, p), h.runs);
    RunsApply(h.cl, h.runs);
  }

  // Streams

  /** Final block, dynamic codes. */
  const DYNAMIC_FLAGS: seq<bit> := [1, 0, 1]

  /** The bytes 78 9C of the zlib wrapper, if it is wanted. */
  function Wrapper(header: bool): (r: seq<bit>)
    ensures |r| == StreamStart(header)
  {
    if header then FieldBits(0x78, 8) + FieldBits(0x9C, 8) else []
  }

  /** One final block with the codes c. */
  ghost function DynamicStream(header: bool, h: Header, c: Codes, ts: seq<Token>): seq<byte>
    requires Announces(h, c) && AllEncodable(c, ts) && HasCode(c.lit, END_OF_BLOCK)
  {
    Pack(Wrapper(header) + (DYNAMIC_FLAGS + (HeaderBits(h, c) + BlockBits(c, ts))))
  }

  lemma DynamicFlagsStand(data: seq<byte>, p: nat)
    requires BitsStand(data, p, DYNAMIC_FLAGS)
    ensures BitsAt(data, p, 1) == 1 && BitsAt(data, p + 1, 2) == 2
  {
    var f := DYNAMIC_FLAGS;
    assert f[0] == 1 && f[1] == 0 && f[2] == 1;
    assert BitsAt(data, p + 2, 1) == 1;
  }

  lemma WrapperStands(data: seq<byte>)
    requires 2 < |data| && BitsStand(data, 0, Wrapper(true))
    ensures HeaderOk(data)
  {
    hide BitsStand, FieldBits, BitsAt;
    BitsStandSplit(data, 0, FieldBits(0x78, 8), FieldBits(0x9C, 8));
    Pow2Values();
    FieldStands(data, 0, 0x78, 8);
    FieldStands(data, 8, 0x9C, 8);
    ByteBits(data, 0);
    ByteBits(data, 1);
  }

  /** For all usable codes and tokens that they encode, the stream is a complete encoding of what the tokens stand for. */
  lemma DynamicStreamIsComplete(header: bool, h: Header, c: Codes, ts: seq<Token>, out: seq<byte>)
    requires Announces(h, c) && AllEncodable(c, ts) && HasCode(c.lit, END_OF_BLOCK) && Expand([], ts) == Some(out)
    ensures CompleteEncoding(DynamicStream(header, h, c, ts), header, out)
  {
    hide BitsStand, HeaderBits, BlockBits, CompleteEncoding, AllEncodable, Expand, BlockAt, BlockEnd, Pack,
         HeaderAt, HeaderEnd, Usable, MetaLengthsFit, RestZero, RunsEncodable, RunLengths, Wrapper, HeaderOk;
    var head, body, p := HeaderBits(h, c), BlockBits(c, ts), StreamStart(header);
    var data := Pack(Wrapper(header) + (DYNAMIC_FLAGS + (head + body)));
    PackStands(Wrapper(header) + (DYNAMIC_FLAGS + (head + body)));
    BitsStandSplit(data, 0, Wrapper(header), DYNAMIC_FLAGS + (head + body));
    BitsStandSplit(data, p, DYNAMIC_FLAGS, head + body);
    BitsStandSplit(data, p + 3, head, body);
    HeaderStands(data, p + 3, h, c);
    UsableReads(c.lit);
    UsableReads(c.dist);
    BlockStands(c, data, p + 3 + |head|, ts);
    DynamicFlagsStand(data, p);
    if header {
      WrapperStands(data);
    }
    SingleBlock(data, header, p, Dynamic(OpsOf(h.cl, h.runs), c, ts), out);
  }

  /** Encoding tokens with any two usable codes and decoding the stream gives what the tokens stand for. */
  method DynamicRoundTrip(data: seq<byte>, header: bool, ghost h: Header, ghost c: Codes, ghost ts: seq<Token>,
                          initialSize: nat) returns (r: Option<seq<byte>>)
    requires Announces(h, c) && AllEncodable(c, ts) && HasCode(c.lit, END_OF_BLOCK) && Expand([], ts).Some?
    requires data == DynamicStream(header, h, c, ts)
    requires 0 < initialSize <= UINT_MAX && |Expand([], ts).value| <= MaxCapacity(initialSize)
    ensures r == Expand([], ts)
  {
    hide CompleteEncoding, Accepted, Announces, AllEncodable;
    ghost var out := Expand([], ts).value;
    DynamicStreamIsComplete(header, h, c, ts, out);
    CompleteIsAccepted(data, header, out);
    r := DecodeMalloc(data, initialSize, header);
  }

  // Every pair of codes has a header

  function Ones(lens: seq<nat>): (runs: seq<Run>)
    ensures |runs| == |lens|
  {
    seq(|lens|, i requires 0 <= i < |lens| => One(lens[i]))
  }

  lemma {:induction false} OnesLengths(lens: seq<nat>)
    ensures RunLengths(Ones(lens)) == Some(lens)
  {
    if lens != [] {
      var n := |lens| - 1;
      OnesLengths(lens[..n]);
      assert Ones(lens)[..n] == Ones(lens[..n]);
      assert lens == lens[..n] + [lens[n]];
    }
  }

  /** Codes of four bits for the sixteen lengths. */
  function EvenCode(): (cl: seq<nat>)
    ensures |cl| == 19
  {
    seq(19, s => if s < 16 then 4 else 0)
  }

  lemma {:induction false} EvenSum(n: nat)
    requires n <= 19
    ensures KraftSum(EvenCode(), n) == if n <= 16 then 2048 * n else 32768
  {
    if n > 0 {
      EvenSum(n - 1);
      Pow2Values();
    }
  }

  /** Any two usable codes of sizes that the counts can name have a header. */
  lemma EveryCodeIsAnnounced(c: Codes)
    requires 257 <= |c.lit| <= 288 && 1 <= |c.dist| <= 32 && Usable(c.lit) && Usable(c.dist)
    ensures Announces(Header(EvenCode(), 19, Ones(c.lit + c.dist)), c)
  {
    EvenSum(19);
    Pow2Values();
    OnesLengths(c.lit + c.dist);
  }
}
