/**
 Compressed blocks as lists of tokens (sections 3.2.3 and 3.2.5 of RFC 1951): what
 bits a list of tokens occupies and what bytes it stands for.
 */
module Lz77 {
  import opened Options
  import opened Binary
  import opened BitStream
  import opened Canonical
  import opened Huffman
  import opened Division

  // The ranges of lengths and distances: each symbol covers the next 2^extra values.

  function LengthExtra(z: nat): nat {
    if z < 8 || 28 <= z then 0 else z / 4 - 1
  }

  function LengthBase(z: nat): nat {
    if z == 0 then 3 else if 28 <= z then 258 else LengthBase(z - 1) + Pow2(LengthExtra(z - 1))
  }

  function DistExtra(z: nat): nat {
    if z < 4 then 0 else z / 2 - 1
  }

  function DistBase(z: nat): nat {
    if z == 0 then 1 else DistBase(z - 1) + Pow2(DistExtra(z - 1))
  }

  // Tokens

  /** The code lengths of the two alphabets of a block. */
  datatype Codes = Codes(lit: seq<nat>, dist: seq<nat>)

  datatype Token =
    | Literal(sym: nat)
    | Copy(lsym: nat, lextra: nat, dsym: nat, dextra: nat)

  const END_OF_BLOCK := 256

  predicate ValidToken(c: Codes, t: Token) {
    match t
    case Literal(sym) => sym < 256 && sym < |c.lit|
    case Copy(lsym, lextra, dsym, dextra) =>
      257 <= lsym < 286 && lsym < |c.lit| && dsym < 30 && dsym < |c.dist|
  }

  /** Number of bits of a token. */
  function TokenSize(c: Codes, t: Token): nat
    requires ValidToken(c, t)
  {
    match t
    case Literal(sym) => c.lit[sym]
    case Copy(lsym, lextra, dsym, dextra) =>
      c.lit[lsym] + LengthExtra(lsym - 257) + c.dist[dsym] + DistExtra(dsym)
  }

  /** Token t stands in the stream at position p. */
  predicate TokenAt(c: Codes, data: seq<byte>, p: nat, t: Token) {
    ValidToken(c, t) &&
    match t
    case Literal(sym) => SymbolAt(c.lit, data, p, sym)
    case Copy(lsym, lextra, dsym, dextra) =>
      var p1 := p + c.lit[lsym];
      var p2 := p1 + LengthExtra(lsym - 257);
      var p3 := p2 + c.dist[dsym];
      && SymbolAt(c.lit, data, p, lsym)
      && lextra == BitsAt(data, p1, LengthExtra(lsym - 257))
      && SymbolAt(c.dist, data, p2, dsym)
      && dextra == BitsAt(data, p3, DistExtra(dsym))
  }

  predicate ValidTokens(c: Codes, ts: seq<Token>) {
    forall i :: 0 <= i < |ts| ==> ValidToken(c, ts[i])
  }

  function TokensSize(c: Codes, ts: seq<Token>): nat
    requires ValidTokens(c, ts)
  {
    if ts == [] then 0 else TokensSize(c, ts[..|ts| - 1]) + TokenSize(c, ts[|ts| - 1])
  }

  /** The tokens stand in the stream one after the other from position p. */
  ghost predicate TokensAt(c: Codes, data: seq<byte>, p: nat, ts: seq<Token>)
    ensures TokensAt(c, data, p, ts) ==> ValidTokens(c, ts)
  {
    ts == [] ||
    (var front := ts[..|ts| - 1];
     && TokensAt(c, data, p, front)
     && TokenAt(c, data, p + TokensSize(c, front), ts[|ts| - 1]))
  }

  /** The tokens and the end-of-block symbol stand in the stream from position p. */
  ghost predicate BlockAt(c: Codes, data: seq<byte>, p: nat, ts: seq<Token>) {
    && TokensAt(c, data, p, ts)
    && SymbolAt(c.lit, data, p + TokensSize(c, ts), END_OF_BLOCK)
  }

  function BlockEnd(c: Codes, p: nat, ts: seq<Token>): nat
    requires ValidTokens(c, ts) && END_OF_BLOCK < |c.lit|
  {
    p + TokensSize(c, ts) + c.lit[END_OF_BLOCK]
  }

  predicate ValidCodes(c: Codes) {
    Lengths(c.lit) && Lengths(c.dist)
  }

  /** Only one token can be read at a position, and none where the block ends. */
  lemma TokenUnique(c: Codes, data: seq<byte>, p: nat, t: Token, u: Token)
    requires ValidCodes(c) && TokenAt(c, data, p, t) && TokenAt(c, data, p, u)
    ensures t == u
  {
    SymbolUnique(c.lit, data, p, FirstSym(t), FirstSym(u));
    if t.Copy? {
      var p2 := p + c.lit[t.lsym] + LengthExtra(t.lsym - 257);
      SymbolUnique(c.dist, data, p2, t.dsym, u.dsym);
    }
  }

  function FirstSym(t: Token): nat {
    match t
    case Literal(sym) => sym
    case Copy(lsym, _, _, _) => lsym
  }

  lemma TokenNotEnd(c: Codes, data: seq<byte>, p: nat, t: Token)
    requires ValidCodes(c) && TokenAt(c, data, p, t)
    ensures !SymbolAt(c.lit, data, p, END_OF_BLOCK)
  {
    if SymbolAt(c.lit, data, p, END_OF_BLOCK) {
      SymbolUnique(c.lit, data, p, FirstSym(t), END_OF_BLOCK);
    }
  }

  lemma {:induction false} TokensPrefix(c: Codes, data: seq<byte>, p: nat, ts: seq<Token>, n: nat)
    requires TokensAt(c, data, p, ts) && n <= |ts|
    ensures TokensAt(c, data, p, ts[..n])
    ensures TokensSize(c, ts[..n]) <= TokensSize(c, ts)
  {
    if n == |ts| {
      assert ts[..n] == ts;
    } else {
      var front := ts[..|ts| - 1];
      TokensPrefix(c, data, p, front, n);
      assert front[..n] == ts[..n];
    }
  }

  lemma NthToken(c: Codes, data: seq<byte>, p: nat, ts: seq<Token>, n: nat)
    requires TokensAt(c, data, p, ts) && n < |ts|
    ensures TokensAt(c, data, p, ts[..n])
    ensures TokenAt(c, data, p + TokensSize(c, ts[..n]), ts[n])
    ensures TokensSize(c, ts[..n]) + TokenSize(c, ts[n]) <= TokensSize(c, ts)
  {
    hide TokenAt, TokenSize, ValidToken;
    TokensPrefix(c, data, p, ts, n + 1);
    var us := ts[..n + 1];
    assert us[..|us| - 1] == ts[..n] && us[|us| - 1] == ts[n];
  }

  /** Whatever was read so far is the beginning of every block at this position. */
  lemma {:induction false} ReadIsPrefix(c: Codes, data: seq<byte>, p: nat, ts: seq<Token>, us: seq<Token>)
    requires ValidCodes(c) && TokensAt(c, data, p, ts) && BlockAt(c, data, p, us)
    ensures |ts| <= |us| && us[..|ts|] == ts
  {
    hide TokenAt, TokenSize, ValidToken;
    if ts != [] {
      var n := |ts| - 1;
      ReadIsPrefix(c, data, p, ts[..n], us);
      PrefixStep(c, data, p, ts[..n], ts[n], us);
      assert ts == ts[..n] + [ts[n]];
    }
  }

  lemma PrefixStep(c: Codes, data: seq<byte>, p: nat, front: seq<Token>, t: Token, us: seq<Token>)
    requires ValidCodes(c) && BlockAt(c, data, p, us)
    requires TokensAt(c, data, p, front) && |front| <= |us| && us[..|front|] == front
    requires TokenAt(c, data, p + TokensSize(c, front), t)
    ensures |front| < |us| && us[..|front| + 1] == front + [t]
  {
    hide TokenAt, TokenSize, ValidToken, SymbolAt, TokensAt, TokensSize, ValidTokens, Lengths;
    var n := |front|;
    if |us| == n {
      assert us[..n] == us;
      TokenNotEnd(c, data, p + TokensSize(c, front), t);
    } else {
      NthToken(c, data, p, us, n);
      TokenUnique(c, data, p + TokensSize(c, front), t, us[n]);
    }
  }

  /** A position starts at most one block. */
  lemma BlockUnique(c: Codes, data: seq<byte>, p: nat, ts: seq<Token>, us: seq<Token>)
    requires ValidCodes(c) && BlockAt(c, data, p, ts) && BlockAt(c, data, p, us)
    ensures ts == us
  {
    ReadIsPrefix(c, data, p, ts, us);
    ReadIsPrefix(c, data, p, us, ts);
    assert us[..|ts|] == us;
  }

  // Meaning

  function CopyLength(t: Token): nat
    requires t.Copy? && 257 <= t.lsym < 286
  {
    LengthBase(t.lsym - 257) + t.lextra
  }

  function CopyDist(t: Token): nat
    requires t.Copy? && t.dsym < 30
  {
    DistBase(t.dsym) + t.dextra
  }

  /** The output followed by len bytes, each a copy of the byte dist places before it. */
  function CopyRun(out: seq<byte>, dist: nat, len: nat): (r: seq<byte>)
    requires 1 <= dist <= |out|
    ensures |r| == |out| + len && r[..|out|] == out
  {
    if len == 0 then out
    else
      var r := CopyRun(out, dist, len - 1);
      r + [r[|r| - dist]]
  }

  lemma CopyRunNext(out: seq<byte>, dist: nat, len: nat)
    requires 1 <= dist <= |out|
    ensures var r := CopyRun(out, dist, len); CopyRun(out, dist, len + 1) == r + [r[|out| + len - dist]]
  {
  }

  /** A copy repeats the last dist bytes of the output over and over. */
  lemma {:induction false} CopyRunAt(out: seq<byte>, dist: nat, len: nat, i: nat)
    requires 1 <= dist <= |out| && i < len
    ensures CopyRun(out, dist, len)[|out| + i] == out[|out| - dist + i % dist]
    decreases len
  {
    hide CopyRun;
    var n := len - 1;
    CopyRunNext(out, dist, n);
    if i < n {
      CopyRunAt(out, dist, n, i);
    } else if i < dist {
      RemainderSmall(i, dist);
      assert CopyRun(out, dist, n)[..|out|][|out| + i - dist] == out[|out| + i - dist];
    } else {
      CopyRunAt(out, dist, n, i - dist);
      RemainderBelow(i, dist);
    }
  }

  /** A copy must not reach before the start of the output. */
  predicate CanApply(n: nat, t: Token) {
    match t
    case Literal(sym) => sym < 256
    case Copy(lsym, _, dsym, _) => 257 <= lsym < 286 && dsym < 30 && 1 <= CopyDist(t) <= n
  }

  function Apply(out: seq<byte>, t: Token): (r: seq<byte>)
    requires CanApply(|out|, t)
    ensures out <= r
  {
    match t
    case Literal(sym) => out + [sym]
    case Copy(_, _, _, _) => CopyRun(out, CopyDist(t), CopyLength(t))
  }

  /** The output after the tokens are applied in turn, if each of them can be applied. */
  function Expand(out: seq<byte>, ts: seq<Token>): (r: Option<seq<byte>>)
    ensures r.Some? ==> out <= r.value
  {
    if ts == [] then Some(out)
    else
      match Expand(out, ts[..|ts| - 1])
      case None => None
      case Some(o) => if CanApply(|o|, ts[|ts| - 1]) then Some(Apply(o, ts[|ts| - 1])) else None
  }

  /** The output only grows, so every intermediate output exists and is shorter. */
  lemma {:induction false} ExpandPrefix(out: seq<byte>, ts: seq<Token>, n: nat)
    requires Expand(out, ts).Some? && n <= |ts|
    ensures Expand(out, ts[..n]).Some?
    ensures |Expand(out, ts[..n]).value| <= |Expand(out, ts).value|
    ensures n < |ts| ==> CanApply(|Expand(out, ts[..n]).value|, ts[n])
    ensures n < |ts| ==> |Apply(Expand(out, ts[..n]).value, ts[n])| <= |Expand(out, ts).value|
  {
    if n == |ts| {
      assert ts[..n] == ts;
    } else {
      var front := ts[..|ts| - 1];
      ExpandPrefix(out, front, n);
      assert front[..n] == ts[..n];
      if n == |front| {
        assert front[..n] == front;
      }
    }
  }
}
