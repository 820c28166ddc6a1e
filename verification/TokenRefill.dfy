/**
 What reading the tokens of a block does to the refill state of the bit reader, and when it is refused.
 */
module TokenRefill {
  import opened Options
  import opened Canonical
  import opened BitRefill
  import opened Lz77

  /** A token: its symbols are looked up and its extra fields received. */
  function OfToken(c: Codes, n: nat, p: nat, r: Refill, t: Token): Option<Refill>
    requires ValidToken(c, t)
  {
    match t
    case Literal(_) => Look(n, p, r)
    case Copy(lsym, _, dsym, _) =>
      match Look(n, p, r)
      case None => None
      case Some(s) => OfDistance(c, n, p + c.lit[lsym], s, lsym, dsym)
  }

  /** The rest of a copy token after its length symbol. */
  function OfDistance(c: Codes, n: nat, p: nat, r: Refill, lsym: nat, dsym: nat): Option<Refill>
    requires 257 <= lsym < 286 && dsym < 30 && dsym < |c.dist|
  {
    var q := p + LengthExtra(lsym - 257);
    match Look(n, q, Receive(p, r, LengthExtra(lsym - 257)))
    case None => None
    case Some(s) => Some(Receive(q + c.dist[dsym], s, DistExtra(dsym)))
  }

  function OfTokens(c: Codes, n: nat, p: nat, r: Refill, ts: seq<Token>): Option<Refill>
    requires ValidTokens(c, ts)
  {
    if ts == [] then Some(r)
    else
      match OfTokens(c, n, p, r, ts[..|ts| - 1])
      case None => None
      case Some(s) => OfToken(c, n, p + TokensSize(c, ts[..|ts| - 1]), s, ts[|ts| - 1])
  }

  /** The end-of-block symbol and the check that follows it. */
  function OfEnd(c: Codes, n: nat, p: nat, r: Refill): Option<Refill>
    requires END_OF_BLOCK < |c.lit|
  {
    match Look(n, p, r)
    case None => None
    case Some(s) => if EndAccepted(p + c.lit[END_OF_BLOCK], s) then Some(s) else None
  }

  function OfBlock(c: Codes, n: nat, p: nat, r: Refill, ts: seq<Token>): Option<Refill>
    requires ValidTokens(c, ts) && END_OF_BLOCK < |c.lit|
  {
    match OfTokens(c, n, p, r, ts)
    case None => None
    case Some(s) => OfEnd(c, n, p + TokensSize(c, ts), s)
  }

  /** Every token of an accepted list was accepted, after the ones before it. */
  lemma {:induction false} AcceptedPrefix(c: Codes, n: nat, p: nat, r: Refill, ts: seq<Token>, k: nat)
    requires ValidTokens(c, ts) && OfTokens(c, n, p, r, ts).Some? && k < |ts|
    ensures OfTokens(c, n, p, r, ts[..k]).Some?
    ensures OfToken(c, n, p + TokensSize(c, ts[..k]), OfTokens(c, n, p, r, ts[..k]).value, ts[k]).Some?
  {
    hide OfToken, TokenSize, ValidToken;
    if k < |ts| - 1 {
      AcceptedPrefix(c, n, p, r, ts[..|ts| - 1], k);
      assert ts[..|ts| - 1][..k] == ts[..k];
    }
  }

  // Inside the input nothing is refused

  lemma TokenInside(c: Codes, n: nat, p: nat, r: Refill, t: Token)
    requires ValidCodes(c) && ValidToken(c, t) && Sound(n, p, r) && p + TokenSize(c, t) <= 8 * n
    ensures OfToken(c, n, p, r, t).Some? && Sound(n, p + TokenSize(c, t), OfToken(c, n, p, r, t).value)
  {
    hide Look, Receive, Sound, LengthExtra, DistExtra, Lengths;
    match t {
      case Literal(sym) =>
        SymbolInside(c.lit, n, p, r, sym);
      case Copy(lsym, lextra, dsym, dextra) =>
        SymbolInside(c.lit, n, p, r, lsym);
        DistanceInside(c, n, p + c.lit[lsym], Look(n, p, r).value, lsym, dsym);
    }
  }

  lemma SymbolInside(sl: seq<nat>, n: nat, p: nat, r: Refill, i: nat)
    requires Lengths(sl) && i < |sl| && Sound(n, p, r) && p <= 8 * n
    ensures Look(n, p, r).Some? && Sound(n, p + sl[i], Look(n, p, r).value)
  {
  }

  lemma DistanceInside(c: Codes, n: nat, p: nat, r: Refill, lsym: nat, dsym: nat)
    requires ValidCodes(c) && 257 <= lsym < 286 && dsym < 30 && dsym < |c.dist| && Sound(n, p, r)
    requires p + LengthExtra(lsym - 257) + c.dist[dsym] + DistExtra(dsym) <= 8 * n
    ensures OfDistance(c, n, p, r, lsym, dsym).Some?
    ensures Sound(n, p + LengthExtra(lsym - 257) + c.dist[dsym] + DistExtra(dsym), OfDistance(c, n, p, r, lsym, dsym).value)
  {
    ExtraBounds(lsym - 257, dsym);
    hide Look, Receive, Sound, LengthExtra, DistExtra, Lengths;
    var q := p + LengthExtra(lsym - 257);
    ReceiveSound(n, p, r, LengthExtra(lsym - 257));
    var s := Receive(p, r, LengthExtra(lsym - 257));
    SymbolInside(c.dist, n, q, s, dsym);
    ReceiveSound(n, q + c.dist[dsym], Look(n, q, s).value, DistExtra(dsym));
  }

  lemma ExtraBounds(z: nat, d: nat)
    requires z < 29 && d < 30
    ensures LengthExtra(z) <= 16 && DistExtra(d) <= 16
  {
  }

  lemma {:induction false} TokensInside(c: Codes, n: nat, p: nat, r: Refill, ts: seq<Token>)
    requires ValidCodes(c) && ValidTokens(c, ts) && Sound(n, p, r) && p + TokensSize(c, ts) <= 8 * n
    ensures OfTokens(c, n, p, r, ts).Some? && Sound(n, p + TokensSize(c, ts), OfTokens(c, n, p, r, ts).value)
  {
    hide OfToken, TokenSize, ValidToken, Sound;
    if ts != [] {
      var front := ts[..|ts| - 1];
      TokensInside(c, n, p, r, front);
      TokenInside(c, n, p + TokensSize(c, front), OfTokens(c, n, p, r, front).value, ts[|ts| - 1]);
    }
  }

  lemma BlockInside(c: Codes, n: nat, p: nat, r: Refill, ts: seq<Token>)
    requires ValidCodes(c) && ValidTokens(c, ts) && END_OF_BLOCK < |c.lit|
    requires Sound(n, p, r) && BlockEnd(c, p, ts) <= 8 * n
    ensures OfBlock(c, n, p, r, ts).Some? && Sound(n, BlockEnd(c, p, ts), OfBlock(c, n, p, r, ts).value)
  {
    hide OfTokens, TokensSize, Look, Sound, EndAccepted, Lengths;
    TokensInside(c, n, p, r, ts);
    var q, s := p + TokensSize(c, ts), OfTokens(c, n, p, r, ts).value;
    SymbolInside(c.lit, n, q, s, END_OF_BLOCK);
    if !EndAccepted(BlockEnd(c, p, ts), Look(n, q, s).value) {
      EndSound(n, BlockEnd(c, p, ts), Look(n, q, s).value);
    }
  }
}
