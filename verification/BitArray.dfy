/**
 An array of bits packed in words: each operation against the set of the indices of the ones, and
 iteration against the maximal runs of that set.
 */
module BitArray {
  import opened Binary
  import opened Words
  import opened WordBits


  // The set that words stand for

  function Size(words: seq<u64>): nat {
    64 * |words|
  }

  predicate Has(words: seq<u64>, i: nat) {
    i < Size(words) && Bit(words[i / 64], i % 64)
  }

  ghost function Elements(words: seq<u64>): (s: set<nat>)
    ensures forall i: nat :: i in s <==> Has(words, i)
  {
    set i: nat | i < Size(words) && Has(words, i)
  }

  ghost function Interval(start: nat, end: nat): (s: set<nat>)
    ensures forall i: nat :: i in s <==> start <= i < end
    decreases end
  {
    if end <= start then {} else Interval(start, end - 1) + {end - 1}
  }

  // Masks

  function StartMask(bit: nat): u64
    requires bit < 64
  {
    Not(LowMask(bit))
  }

  function EndMask(bit: nat): u64
    requires bit < 64
  {
    if bit == 63 then U64 - 1 else LowMask(bit + 1)
  }

  lemma LowMaskBits(n: nat, j: nat)
    requires n < 64 && j < 64
    ensures Bit(LowMask(n), j) <==> j < n
  {
    OnesBits(n, j);
  }

  lemma StartMaskBits(bit: nat, j: nat)
    requires bit < 64 && j < 64
    ensures Bit(StartMask(bit), j) <==> bit <= j
  {
    LowMaskBits(bit, j);
    NotBits(LowMask(bit), j);
  }

  lemma EndMaskBits(bit: nat, j: nat)
    requires bit < 64 && j < 64
    ensures Bit(EndMask(bit), j) <==> j <= bit
  {
    if bit == 63 {
      FullBits(j);
    } else {
      LowMaskBits(bit + 1, j);
    }
  }

  /** u64 k after the bits of the interval are set to v. */
  ghost predicate Changed(was: u64, now: u64, k: nat, start: nat, end: nat, v: bool) {
    forall j {:trigger Bit(now, j)} :: 0 <= j < 64 ==> (Bit(now, j) <==> if start <= 64 * k + j < end then v else Bit(was, j))
  }

  /** The elements after the interval is added or removed. */
  ghost function Updated(s: set<nat>, start: nat, end: nat, v: bool): set<nat> {
    if v then s + Interval(start, end) else s - Interval(start, end)
  }

  lemma ChangedElements(was: seq<u64>, now: seq<u64>, start: nat, end: nat, v: bool)
    requires |was| == |now| && start < end <= Size(was)
    requires forall k :: 0 <= k < |was| ==> Changed(was[k], now[k], k, start, end, v)
    ensures Elements(now) == Updated(Elements(was), start, end, v)
  {
    forall i: nat
      ensures i in Elements(now) <==> i in Updated(Elements(was), start, end, v)
    {
      if i < Size(was) {
        var k, j := i / 64, i % 64;
        assert Changed(was[k], now[k], k, start, end, v);
        assert 64 * k + j == i;
      }
    }
  }

  /** The mask has exactly the bits of word k that lie in the interval. */
  ghost predicate Selects(m: u64, k: nat, start: nat, end: nat) {
    forall j {:trigger Bit(m, j)} :: 0 <= j < 64 ==> (Bit(m, j) <==> start <= 64 * k + j < end)
  }

  /** The mask has exactly the bits of word k that lie outside the interval. */
  ghost predicate Spares(m: u64, k: nat, start: nat, end: nat) {
    forall j {:trigger Bit(m, j)} :: 0 <= j < 64 ==> (Bit(m, j) <==> !(start <= 64 * k + j < end))
  }

  lemma OrSelected(w: u64, m: u64, k: nat, start: nat, end: nat)
    requires Selects(m, k, start, end)
    ensures Changed(w, OrWord(w, m), k, start, end, true)
  {
    forall j | 0 <= j < 64
      ensures Bit(OrWord(w, m), j) <==> Bit(w, j) || Bit(m, j)
    {
      OrBits(w, m, j);
    }
  }

  lemma AndSpared(w: u64, m: u64, k: nat, start: nat, end: nat)
    requires Spares(m, k, start, end)
    ensures Changed(w, AndWord(w, m), k, start, end, false)
  {
    forall j | 0 <= j < 64
      ensures Bit(AndWord(w, m), j) <==> Bit(w, j) && Bit(m, j)
    {
      AndBits(w, m, j);
    }
  }

  /** The masks of SetRange in the first and in the last word of the range. */
  lemma SetMasks(start: nat, end: nat)
    requires start < end
    ensures var fw, lw := start / 64, (end - 1) / 64; var sm, em := StartMask(start % 64), EndMask((end - 1) % 64);
      && fw <= lw
      && (fw == lw ==> Selects(AndWord(sm, em), fw, start, end))
      && (fw < lw ==> Selects(sm, fw, start, end) && Selects(em, lw, start, end))
  {
    hide StartMask, EndMask;
    var sm, em := StartMask(start % 64), EndMask((end - 1) % 64);
    forall j | 0 <= j < 64
      ensures Bit(sm, j) <==> start % 64 <= j
      ensures Bit(em, j) <==> j <= (end - 1) % 64
      ensures Bit(AndWord(sm, em), j) <==> Bit(sm, j) && Bit(em, j)
    {
      StartMaskBits(start % 64, j);
      EndMaskBits((end - 1) % 64, j);
      AndBits(sm, em, j);
    }
  }

  function UnsetStartMask(bit: nat): u64
    requires bit < 64
  {
    LowMask(bit)
  }

  function UnsetEndMask(bit: nat): u64
    requires bit < 64
  {
    if bit == 63 then 0 else Not(LowMask(bit + 1))
  }

  /** The masks of UnsetRange in the first and in the last word of the range. */
  lemma UnsetMasks(start: nat, end: nat)
    requires start < end
    ensures var fw, lw := start / 64, (end - 1) / 64; var sm, em := UnsetStartMask(start % 64), UnsetEndMask((end - 1) % 64);
      && fw <= lw
      && (fw == lw ==> Spares(OrWord(sm, em), fw, start, end))
      && (fw < lw ==> Spares(sm, fw, start, end) && Spares(em, lw, start, end))
  {
    hide UnsetStartMask, UnsetEndMask;
    var sm, em := UnsetStartMask(start % 64), UnsetEndMask((end - 1) % 64);
    forall j | 0 <= j < 64
      ensures Bit(sm, j) <==> j < start % 64
      ensures Bit(em, j) <==> (end - 1) % 64 < j
      ensures Bit(OrWord(sm, em), j) <==> Bit(sm, j) || Bit(em, j)
    {
      UnsetMaskBits(start % 64, j);
      UnsetMaskBits((end - 1) % 64, j);
      OrBits(sm, em, j);
    }
  }

  lemma UnsetMaskBits(bit: nat, j: nat)
    requires bit < 64 && j < 64
    ensures Bit(UnsetStartMask(bit), j) <==> j < bit
    ensures Bit(UnsetEndMask(bit), j) <==> bit < j
  {
    LowMaskBits(bit, j);
    if bit == 63 {
      ZeroBits(j);
    } else {
      LowMaskBits(bit + 1, j);
      NotBits(LowMask(bit + 1), j);
    }
  }

  /** A word inside the interval becomes all ones or all zeros; a word outside stays as it is. */
  lemma OtherWords(w: u64, k: nat, start: nat, end: nat)
    requires start < end
    ensures start / 64 < k < (end - 1) / 64 ==> Changed(w, U64 - 1, k, start, end, true) && Changed(w, 0, k, start, end, false)
    ensures k < start / 64 || (end - 1) / 64 < k ==> forall v :: Changed(w, w, k, start, end, v)
  {
    var full: u64, zero: u64 := U64 - 1, 0;
    forall j | 0 <= j < 64
      ensures Bit(full, j) && !Bit(zero, j)
    {
      FullBits(j);
      ZeroBits(j);
    }
  }

  /** The bit that Set and Unset use. */
  lemma SingleBit(idx: nat)
    ensures Selects(OneAt(idx % 64), idx / 64, idx, idx + 1)
    ensures Spares(Not(OneAt(idx % 64)), idx / 64, idx, idx + 1)
  {
    var m, k := OneAt(idx % 64), idx / 64;
    forall j | 0 <= j < 64
      ensures Bit(m, j) <==> 64 * k + j == idx
      ensures Bit(Not(m), j) <==> 64 * k + j != idx
    {
      PowerBits(idx % 64, j);
      NotBits(m, j);
    }
  }

  // Runs

  /** All bits from first up to second are ones, and second is a zero or the end. */
  ghost predicate RunTo(words: seq<u64>, first: nat, second: nat) {
    && first <= second <= Size(words)
    && (forall i :: first <= i < second ==> Has(words, i))
    && !Has(words, second)
  }

  /** The first maximal stretch of ones at or after start. */
  ghost predicate FirstRun(words: seq<u64>, start: nat, first: nat, second: nat) {
    && (forall i :: start <= i < first ==> !Has(words, i))
    && (first < Size(words) ==> start <= first < second && RunTo(words, first, second))
    && (first >= Size(words) ==> first == second == Size(words))
  }

  /** The word w without its bits below s. */
  ghost predicate IsMasked(word: u64, w: u64, s: nat) {
    forall j {:trigger Bit(word, j)} :: 0 <= j < 64 ==> (Bit(word, j) <==> s <= j && Bit(w, j))
  }

  /** The word has no one before position i of the array. */
  ghost predicate NoneFrom(word: u64, index: nat, i: nat) {
    forall j {:trigger Bit(word, j)} :: 0 <= j < 64 && 64 * index + j < i ==> !Bit(word, j)
  }

  lemma HasAt(words: seq<u64>, k: nat, j: nat)
    requires k < |words| && j < 64
    ensures Has(words, 64 * k + j) <==> Bit(words[k], j)
  {
    assert (64 * k + j) / 64 == k && (64 * k + j) % 64 == j;
  }

  lemma FullWordHas(words: seq<u64>, k: nat)
    requires k < |words| && words[k] == U64 - 1
    ensures forall i :: 64 * k <= i < 64 * k + 64 ==> Has(words, i)
  {
    forall i | 64 * k <= i < 64 * k + 64
      ensures Has(words, i)
    {
      FullBits(i - 64 * k);
      HasAt(words, k, i - 64 * k);
    }
  }

  lemma PartialWord(words: seq<u64>, k: nat)
    requires k < |words| && words[k] != U64 - 1
    ensures RunTo(words, 64 * k, 64 * k + CountrOne(words[k], 64))
  {
    var c := CountrOne(words[k], 64);
    CountrOneBits(words[k], 64);
    FullWord(words[k]);
    forall i | 64 * k <= i < 64 * k + c
      ensures Has(words, i)
    {
      HasAt(words, k, i - 64 * k);
    }
    HasAt(words, k, c);
  }

  lemma MaskedWord(w: u64, s: nat)
    requires s < 64
    ensures IsMasked(AndWord(w, StartMask(s)), w, s)
  {
    forall j | 0 <= j < 64
      ensures Bit(AndWord(w, StartMask(s)), j) <==> s <= j && Bit(w, j)
    {
      AndBits(w, StartMask(s), j);
      StartMaskBits(s, j);
    }
  }

  lemma WholeWord(w: u64)
    ensures IsMasked(w, w, 0)
  {
  }

  lemma HasInWord(words: seq<u64>, k: nat)
    requires k < |words|
    ensures forall i {:trigger Has(words, i)} :: 64 * k <= i < 64 * k + 64 ==> (Has(words, i) <==> Bit(words[k], i - 64 * k))
  {
    forall i | 64 * k <= i < 64 * k + 64
      ensures Has(words, i) <==> Bit(words[k], i - 64 * k)
    {
      HasAt(words, k, i - 64 * k);
    }
  }

  /** The counts of zeros and ones give the run inside the word; if it reaches the top it goes on in the next word. */
  lemma RunInWord(words: seq<u64>, index: nat, word: u64, s: nat)
    requires index < |words| && word != 0 && IsMasked(word, words[index], s)
    ensures var empty := CountrZero(word, 64); var ones := CountrOne(Shr(word, empty), 64); var first := 64 * index + empty;
      && empty < 64 && 0 < ones && Bit(word, empty) && NoneFrom(word, index, first)
      && (ones + empty < 64 ==> RunTo(words, first, first + ones))
      && (ones + empty >= 64 ==> forall i :: first <= i < 64 * index + 64 ==> Has(words, i))
  {
    hide Has;
    LowestRun(word);
    HasInWord(words, index);
    var empty := CountrZero(word, 64);
    assert Bit(word, empty);
    forall i | 64 * index + empty <= i < 64 * index + 64
      ensures Has(words, i) <==> Bit(word, i - 64 * index)
    {
    }
  }

  class BitArray {
    const data: array<u64>

    /** N bits, all zero. */
    constructor (n: nat)
      requires n % 64 == 0
      ensures fresh(data) && Size(data[..]) == n && Elements(data[..]) == {}
    {
      data := new u64[n / 64](_ => 0);
      new;
      forall i: nat
        ensures !Has(data[..], i)
      {
        ZeroBits(i % 64);
      }
    }

    method Set(idx: nat)
      requires idx < Size(data[..])
      modifies data
      ensures Elements(data[..]) == old(Elements(data[..])) + {idx}
    {
      ghost var was := data[..];
      SingleBit(idx);
      OrSelected(was[idx / 64], OneAt(idx % 64), idx / 64, idx, idx + 1);
      data[idx / 64] := OrWord(data[idx / 64], OneAt(idx % 64));
      OneWordChanged(was, data[..], idx, idx + 1, true);
      assert Interval(idx, idx + 1) == {idx};
    }

    method Unset(idx: nat)
      requires idx < Size(data[..])
      modifies data
      ensures Elements(data[..]) == old(Elements(data[..])) - {idx}
    {
      ghost var was := data[..];
      SingleBit(idx);
      AndSpared(was[idx / 64], Not(OneAt(idx % 64)), idx / 64, idx, idx + 1);
      data[idx / 64] := AndWord(data[idx / 64], Not(OneAt(idx % 64)));
      OneWordChanged(was, data[..], idx, idx + 1, false);
      assert Interval(idx, idx + 1) == {idx};
    }

    method Get(idx: nat) returns (r: bool)
      requires idx < Size(data[..])
      ensures r <==> idx in Elements(data[..])
    {
      var w := AndWord(data[idx / 64], OneAt(idx % 64));
      ZeroWord(w);
      SingleBit(idx);
      forall j | 0 <= j < 64
        ensures Bit(w, j) <==> j == idx % 64 && Bit(data[idx / 64], j)
      {
        AndBits(data[idx / 64], OneAt(idx % 64), j);
      }
      r := w != 0;
    }

    /** Add the interval; an empty one or one that passes the end is ignored. */
    method SetRange(start: nat, end: nat)
      modifies data
      ensures Elements(data[..]) == old(Elements(data[..])) + if end <= Size(data[..]) then Interval(start, end) else {}
    {
      if start >= end || end > Size(data[..]) {
        return;
      }
      ghost var was := data[..];
      var fw, lw := start / 64, (end - 1) / 64;
      var sm, em := StartMask(start % 64), EndMask((end - 1) % 64);
      SetMasks(start, end);
      if fw == lw {
        OrSelected(was[fw], AndWord(sm, em), fw, start, end);
        data[fw] := OrWord(data[fw], AndWord(sm, em));
        OneWordChanged(was, data[..], start, end, true);
      } else {
        OrSelected(was[fw], sm, fw, start, end);
        OrSelected(was[lw], em, lw, start, end);
        data[fw] := OrWord(data[fw], sm);
        for i := fw + 1 to lw
          invariant forall k :: 0 <= k < |was| && k != fw ==> data[k] == if fw < k < i then U64 - 1 else was[k]
          invariant data[fw] == OrWord(was[fw], sm)
        {
          data[i] := U64 - 1;
        }
        data[lw] := OrWord(data[lw], em);
        ManyWordsChanged(was, data[..], start, end, true);
      }
    }

    /** Remove the interval; an empty one or one that passes the end is ignored. */
    method UnsetRange(start: nat, end: nat)
      modifies data
      ensures Elements(data[..]) == old(Elements(data[..])) - if end <= Size(data[..]) then Interval(start, end) else {}
    {
      if start >= end || end > Size(data[..]) {
        return;
      }
      ghost var was := data[..];
      var fw, lw := start / 64, (end - 1) / 64;
      var sm, em := UnsetStartMask(start % 64), UnsetEndMask((end - 1) % 64);
      UnsetMasks(start, end);
      if fw == lw {
        AndSpared(was[fw], OrWord(sm, em), fw, start, end);
        data[fw] := AndWord(data[fw], OrWord(sm, em));
        OneWordChanged(was, data[..], start, end, false);
      } else {
        AndSpared(was[fw], sm, fw, start, end);
        AndSpared(was[lw], em, lw, start, end);
        data[fw] := AndWord(data[fw], sm);
        for i := fw + 1 to lw
          invariant forall k :: 0 <= k < |was| && k != fw ==> data[k] == if fw < k < i then 0 else was[k]
          invariant data[fw] == AndWord(was[fw], sm)
        {
          data[i] := 0;
        }
        data[lw] := AndWord(data[lw], em);
        ManyWordsChanged(was, data[..], start, end, false);
      }
    }

    /** First index from word `word` on whose bit is zero, or N. */
    method FindEndBit(word: nat) returns (r: nat)
      requires word <= data.Length
      ensures RunTo(data[..], 64 * word, r)
    {
      for w := word to data.Length
        invariant forall i :: 64 * word <= i < 64 * w ==> Has(data[..], i)
      {
        if data[w] != U64 - 1 {
          PartialWord(data[..], w);
          return w * 64 + CountrOne(data[w], 64);
        }
        FullWordHas(data[..], w);
      }
      return Size(data[..]);
    }

    /** The run that starts with the first one of a word, some low bits of which may be masked out. */
    method RunFromWord(index: nat, word: u64, ghost s: nat) returns (first: nat, second: nat)
      requires index < data.Length && word != 0 && IsMasked(word, data[index], s)
      ensures index * 64 <= first < index * 64 + 64 && NoneFrom(word, index, first)
      ensures Bit(word, first - 64 * index) && first < second && RunTo(data[..], first, second)
    {
      var empty := CountrZero(word, 64);
      var ones := CountrOne(Shr(word, empty), 64);
      RunInWord(data[..], index, word, s);
      first := index * 64 + empty;
      if ones + empty < 64 {
        second := first + ones;
      } else {
        second := FindEndBit(index + 1);
      }
    }

    /** The first run of ones at or after start; (N, N) if there is none. */
    method FirstRangeFrom(start: nat) returns (first: nat, second: nat)
      ensures FirstRun(data[..], start, first, second)
    {
      if start >= Size(data[..]) {
        return Size(data[..]), Size(data[..]);
      }
      var startWord := start / 64;
      var masked := AndWord(data[startWord], StartMask(start % 64));
      MaskedWord(data[startWord], start % 64);
      if masked != 0 {
        first, second := RunFromWord(startWord, masked, start % 64);
        FirstInMasked(data[..], start, masked, first);
        return;
      }
      NothingInWord(data[..], start);
      for word := startWord + 1 to data.Length
        invariant forall i :: start <= i < 64 * word ==> !Has(data[..], i)
      {
        WholeWord(data[word]);
        if data[word] != 0 {
          first, second := RunFromWord(word, data[word], 0);
          FirstInWord(data[..], word, first);
          return;
        }
        EmptyWord(data[..], word);
      }
      return Size(data[..]), Size(data[..]);
    }
  }

  /** The interval lies in one word, and only that word changed. */
  lemma OneWordChanged(was: seq<u64>, now: seq<u64>, start: nat, end: nat, v: bool)
    requires |was| == |now| && start < end <= Size(was) && start / 64 == (end - 1) / 64
    requires var k := start / 64; now == was[k := now[k]] && Changed(was[k], now[k], k, start, end, v)
    ensures Elements(now) == Updated(Elements(was), start, end, v)
  {
    forall k | 0 <= k < |was|
      ensures Changed(was[k], now[k], k, start, end, v)
    {
      OtherWords(was[k], k, start, end);
    }
    ChangedElements(was, now, start, end, v);
  }

  /** The first and the last word changed as they should, and the words between them are filled. */
  lemma ManyWordsChanged(was: seq<u64>, now: seq<u64>, start: nat, end: nat, v: bool)
    requires |was| == |now| && start < end <= Size(was) && start / 64 < (end - 1) / 64
    requires Changed(was[start / 64], now[start / 64], start / 64, start, end, v)
    requires Changed(was[(end - 1) / 64], now[(end - 1) / 64], (end - 1) / 64, start, end, v)
    requires forall k :: 0 <= k < |was| && k != start / 64 && k != (end - 1) / 64 ==>
      now[k] == if start / 64 < k < (end - 1) / 64 then (if v then U64 - 1 else 0) else was[k]
    ensures Elements(now) == Updated(Elements(was), start, end, v)
  {
    hide Changed;
    forall k | 0 <= k < |was|
      ensures Changed(was[k], now[k], k, start, end, v)
    {
      OtherWords(was[k], k, start, end);
    }
    ChangedElements(was, now, start, end, v);
  }

  lemma FirstInMasked(words: seq<u64>, start: nat, masked: u64, first: nat)
    requires start < Size(words) && IsMasked(masked, words[start / 64], start % 64)
    requires var k := start / 64; 64 * k <= first < 64 * k + 64 && NoneFrom(masked, k, first) && Bit(masked, first - 64 * k)
    ensures start <= first && forall i :: start <= i < first ==> !Has(words, i)
  {
    hide Has;
    var k := start / 64;
    HasInWord(words, k);
    forall i | start <= i < first
      ensures !Has(words, i)
    {
      assert !Bit(masked, i - 64 * k);
    }
  }

  lemma NothingInWord(words: seq<u64>, start: nat)
    requires start < Size(words) && AndWord(words[start / 64], StartMask(start % 64)) == 0
    ensures forall i :: start <= i < 64 * (start / 64) + 64 ==> !Has(words, i)
  {
    var m := AndWord(words[start / 64], StartMask(start % 64));
    ZeroWord(m);
    MaskedWord(words[start / 64], start % 64);
    forall i | start <= i < 64 * (start / 64) + 64
      ensures !Has(words, i)
    {
      assert !Bit(m, i % 64);
    }
  }

  lemma EmptyWord(words: seq<u64>, k: nat)
    requires k < |words| && words[k] == 0
    ensures forall i :: 64 * k <= i < 64 * k + 64 ==> !Has(words, i)
  {
    forall i | 64 * k <= i < 64 * k + 64
      ensures !Has(words, i)
    {
      ZeroBits(i % 64);
    }
  }

  lemma FirstInWord(words: seq<u64>, k: nat, first: nat)
    requires k < |words| && NoneFrom(words[k], k, first) && 64 * k <= first < 64 * k + 64
    ensures forall i :: 64 * k <= i < first ==> !Has(words, i)
  {
    forall i | 64 * k <= i < first
      ensures !Has(words, i)
    {
      HasAt(words, k, i - 64 * k);
    }
  }

  // Iteration

  datatype Range = Range(first: nat, second: nat)

  class Iterator {
    const bits: BitArray
    var range: Range

    constructor (bits: BitArray, start: nat)
      ensures this.bits == bits && FirstRun(bits.data[..], start, range.first, range.second)
    {
      this.bits := bits;
      new;
      var first, second := bits.FirstRangeFrom(start);
      range := Range(first, second);
    }

    method Increment()
      modifies this
      ensures FirstRun(bits.data[..], old(range.second), range.first, range.second)
    {
      var first, second := bits.FirstRangeFrom(range.second);
      range := Range(first, second);
    }
  }

  predicate Covered(rs: seq<Range>, i: nat) {
    exists k :: 0 <= k < |rs| && rs[k].first <= i < rs[k].second
  }

  /** Non-empty ranges, ascending, with a gap between each and the next. */
  predicate Separated(rs: seq<Range>) {
    && (forall k :: 0 <= k < |rs| ==> rs[k].first < rs[k].second)
    && (forall k :: 0 <= k < |rs| - 1 ==> rs[k].second < rs[k + 1].first)
  }

  /** Where the ranges end. */
  function EndOf(rs: seq<Range>): nat {
    if rs == [] then 0 else rs[|rs| - 1].second
  }

  /** The ranges are the maximal runs of the elements below the bound. */
  ghost predicate RunsBelow(words: seq<u64>, rs: seq<Range>, bound: nat) {
    Separated(rs) && EndOf(rs) <= bound && forall i: nat :: i < bound ==> (Has(words, i) <==> Covered(rs, i))
  }

  /** The ranges are the maximal runs of the set. */
  ghost predicate MaximalRuns(words: seq<u64>, rs: seq<Range>) {
    Separated(rs) && forall i: nat :: Has(words, i) <==> Covered(rs, i)
  }

  lemma {:induction false} SeparatedOrder(rs: seq<Range>, j: nat, k: nat)
    requires Separated(rs) && j < k < |rs|
    ensures rs[j].second < rs[k].first
  {
    if j + 1 < k {
      SeparatedOrder(rs, j, k - 1);
    }
  }

  lemma CoveredBelowEnd(rs: seq<Range>, i: nat)
    requires Separated(rs) && Covered(rs, i)
    ensures i < EndOf(rs)
  {
    var k :| 0 <= k < |rs| && rs[k].first <= i < rs[k].second;
    if k < |rs| - 1 {
      SeparatedOrder(rs, k, |rs| - 1);
    }
  }

  lemma NextRun(words: seq<u64>, rs: seq<Range>, r: Range)
    requires RunsBelow(words, rs, EndOf(rs)) && !Covered(rs, EndOf(rs)) && (rs != [] ==> !Has(words, EndOf(rs)))
    requires r.first < Size(words) && FirstRun(words, EndOf(rs), r.first, r.second)
    ensures RunsBelow(words, rs + [r], r.second)
  {
    hide Has;
    var qs := rs + [r];
    forall i: nat | i < r.second
      ensures Has(words, i) <==> Covered(qs, i)
    {
      if Covered(rs, i) {
        var k :| 0 <= k < |rs| && rs[k].first <= i < rs[k].second;
        assert qs[k].first <= i < qs[k].second;
        CoveredBelowEnd(rs, i);
      }
      if r.first <= i {
        assert qs[|rs|].first <= i < qs[|rs|].second;
      }
      if Covered(qs, i) && i < r.first {
        var k :| 0 <= k < |qs| && qs[k].first <= i < qs[k].second;
        assert rs[k].first <= i < rs[k].second;
      }
    }
  }

  lemma LastRun(words: seq<u64>, rs: seq<Range>, r: Range)
    requires RunsBelow(words, rs, EndOf(rs)) && r.first >= Size(words) && FirstRun(words, EndOf(rs), r.first, r.second)
    ensures MaximalRuns(words, rs)
  {
    forall i: nat
      ensures Has(words, i) <==> Covered(rs, i)
    {
      if Covered(rs, i) {
        CoveredBelowEnd(rs, i);
      }
    }
  }

  /** Iterating from begin to end terminates and visits exactly the maximal runs, in ascending order. */
  method Iterate(bits: BitArray) returns (runs: seq<Range>)
    ensures MaximalRuns(bits.data[..], runs)
  {
    hide Has, FirstRun, RunsBelow, MaximalRuns;
    ghost var words := bits.data[..];
    var it := new Iterator(bits, 0);
    var end := new Iterator(bits, Size(bits.data[..]));
    EndRange(words, Size(words), end.range);
    runs := [];
    NoRuns(words);
    while it.range != end.range
      invariant it.bits == bits && end.bits == bits && it != end && bits.data[..] == words
      invariant end.range == Range(Size(words), Size(words))
      invariant FirstRun(words, EndOf(runs), it.range.first, it.range.second)
      invariant RunsBelow(words, runs, EndOf(runs)) && (runs != [] ==> !Has(words, EndOf(runs)))
      invariant EndOf(runs) <= Size(words)
      decreases Size(words) - EndOf(runs)
    {
      RealRange(words, EndOf(runs), it.range);
      NotCoveredAtEnd(words, runs);
      NextRun(words, runs, it.range);
      runs := runs + [it.range];
      it.Increment();
    }
    EndRange(words, EndOf(runs), it.range);
    LastRun(words, runs, it.range);
  }

  lemma NoRuns(words: seq<u64>)
    ensures RunsBelow(words, [], 0)
  {
  }

  lemma NotCoveredAtEnd(words: seq<u64>, rs: seq<Range>)
    requires RunsBelow(words, rs, EndOf(rs))
    ensures !Covered(rs, EndOf(rs))
  {
    hide Has;
    if Covered(rs, EndOf(rs)) {
      CoveredBelowEnd(rs, EndOf(rs));
    }
  }

  lemma EndRange(words: seq<u64>, start: nat, r: Range)
    requires FirstRun(words, start, r.first, r.second)
    ensures start >= Size(words) ==> r == Range(Size(words), Size(words))
  {
  }

  lemma RealRange(words: seq<u64>, start: nat, r: Range)
    requires FirstRun(words, start, r.first, r.second) && r != Range(Size(words), Size(words))
    ensures r.first < Size(words) && start <= r.first < r.second <= Size(words) && !Has(words, r.second)
  {
  }

  /** Only one list of ranges is the list of the maximal runs. */
  lemma RunsUnique(words: seq<u64>, rs: seq<Range>, qs: seq<Range>)
    requires MaximalRuns(words, rs) && MaximalRuns(words, qs)
    ensures rs == qs
  {
    hide MaximalRuns;
    if |rs| <= |qs| {
      RunsPrefix(words, rs, qs, |rs|);
      NothingAfter(words, rs, qs);
    } else {
      RunsPrefix(words, qs, rs, |qs|);
      NothingAfter(words, qs, rs);
    }
  }

  lemma {:induction false} RunsPrefix(words: seq<u64>, rs: seq<Range>, qs: seq<Range>, n: nat)
    requires MaximalRuns(words, rs) && MaximalRuns(words, qs) && n <= |rs| && n <= |qs|
    ensures rs[..n] == qs[..n]
  {
    hide MaximalRuns, FirstRun;
    if n > 0 {
      RunsPrefix(words, rs, qs, n - 1);
      assert n > 1 ==> rs[n - 2] == rs[..n - 1][n - 2] && qs[n - 2] == qs[..n - 1][n - 2];
      KthRun(words, rs, n - 1);
      KthRun(words, qs, n - 1);
      FirstRunUnique(words, if n > 1 then rs[n - 2].second else 0, rs[n - 1], qs[n - 1]);
    }
  }

  lemma KthRun(words: seq<u64>, rs: seq<Range>, k: nat)
    requires MaximalRuns(words, rs) && k < |rs|
    ensures FirstRun(words, if k > 0 then rs[k - 1].second else 0, rs[k].first, rs[k].second)
    ensures rs[k].first < Size(words)
  {
    var start := if k > 0 then rs[k - 1].second else 0;
    forall i: nat | start <= i < rs[k].first
      ensures !Has(words, i)
    {
      NotCovered(rs, k, i);
    }
    NotCovered(rs, k, rs[k].second);
    forall i: nat | rs[k].first <= i < rs[k].second
      ensures Has(words, i)
    {
      assert Covered(rs, i);
    }
    assert Has(words, rs[k].second - 1);
  }

  /** Between two runs, and right after one, nothing is covered. */
  lemma NotCovered(rs: seq<Range>, k: nat, i: nat)
    requires Separated(rs) && k < |rs|
    requires ((if k > 0 then rs[k - 1].second else 0) <= i < rs[k].first) || i == rs[k].second
    ensures !Covered(rs, i)
  {
    forall j | 0 <= j < |rs|
      ensures !(rs[j].first <= i < rs[j].second)
    {
      if j < k {
        SeparatedOrder(rs, j, k);
        if j < k - 1 {
          SeparatedOrder(rs, j, k - 1);
        }
      } else if k < j {
        SeparatedOrder(rs, k, j);
      }
    }
  }

  lemma FirstRunUnique(words: seq<u64>, start: nat, r: Range, q: Range)
    requires FirstRun(words, start, r.first, r.second) && FirstRun(words, start, q.first, q.second)
    ensures r == q
  {
    assert r.first < Size(words) ==> Has(words, r.first);
    assert q.first < Size(words) ==> Has(words, q.first);
  }

  lemma PrefixMisses(rs: seq<Range>, qs: seq<Range>)
    requires Separated(qs) && |rs| < |qs| && rs == qs[..|rs|]
    ensures !Covered(rs, qs[|rs|].first) && Covered(qs, qs[|rs|].first)
  {
    forall j | 0 <= j < |rs|
      ensures rs[j].second <= qs[|rs|].first
    {
      SeparatedOrder(qs, j, |rs|);
    }
  }

  lemma NothingAfter(words: seq<u64>, rs: seq<Range>, qs: seq<Range>)
    requires MaximalRuns(words, rs) && MaximalRuns(words, qs) && |rs| <= |qs| && rs == qs[..|rs|]
    ensures rs == qs
  {
    if |rs| < |qs| {
      PrefixMisses(rs, qs);
    } else {
      assert qs[..|rs|] == qs;
    }
  }
}
