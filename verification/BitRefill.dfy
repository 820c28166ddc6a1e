/**
 How the bit reader fetches input: which bytes are in its buffer is a function of the position and
 of the two values kept here, whatever the bytes are.
 */
module BitRefill {
  import opened Options

  /** Bytes delivered to the bit buffer, counting zeros past the end, and whether the end was padded. */
  datatype Refill = Refill(fetched: nat, hit: bool)

  /** At a position inside the buffer, the state of a reader of n bytes of input. */
  predicate Sound(n: nat, p: nat, r: Refill) {
    p <= 8 * r.fetched <= p + 32 && (r.hit ==> n + 2 <= r.fetched)
  }

  /** Bytes are fetched until more than 24 bits are buffered. */
  function Filled(p: nat, r: Refill): Refill {
    r.(fetched := (p + 32) / 8)
  }

  /** Reading a field of k bits fetches only if it has to; the end of the input is not noticed. */
  function Receive(p: nat, r: Refill, k: nat): Refill {
    if 8 * r.fetched < p + k then Filled(p, r) else r
  }

  /** Decoding a symbol wants sixteen bits; at the end of the input they are made up, but only once. */
  function Look(n: nat, p: nat, r: Refill): Option<Refill> {
    if p + 16 <= 8 * r.fetched then Some(r)
    else if r.fetched < n then Some(Filled(p, r))
    else if !r.hit then Some(Refill(r.fetched + 2, true))
    else None
  }

  /** The check at the end of a block of codes. */
  predicate EndAccepted(p: nat, r: Refill) {
    r.hit ==> p + 16 <= 8 * r.fetched
  }

  lemma ReceiveSound(n: nat, p: nat, r: Refill, k: nat)
    requires Sound(n, p, r) && k <= 16
    ensures Sound(n, p + k, Receive(p, r, k))
  {
  }

  /** Decoding is refused only when bits past the end of the input were already consumed. */
  lemma LookSound(n: nat, p: nat, r: Refill)
    requires Sound(n, p, r)
    ensures Look(n, p, r).None? ==> 8 * n < p
    ensures Look(n, p, r).Some? ==> Sound(n, p, Look(n, p, r).value) && p + 16 <= 8 * Look(n, p, r).value.fetched
  {
  }

  /** The check at the end of a block fails only when bits past the end of the input were consumed. */
  lemma EndSound(n: nat, p: nat, r: Refill)
    requires Sound(n, p, r) && !EndAccepted(p, r)
    ensures 8 * n < p
  {
  }
}
