/**
 A growing array of slots: the ids in use are the ones of a bitmap, all others are in the free list.
 Ids are unsigned 32-bit numbers, so growth beyond 2^32 slots would repeat them.
 */
module SlotVector {
  import opened Binary
  import opened Words
  import opened Sequences
  import opened WordBits
  import opened BitArray

  const INVALID_INDEX: nat := 0xFFFF_FFFF
  const INITIAL_CAPACITY: nat := 2048

  /** Conversion to an unsigned 32-bit number. */
  function Truncate(x: nat): nat {
    x % U32
  }

  /** The ids that growth appends to the free list, the lowest at the end. */
  function NewIds(from: nat, count: nat): (r: seq<nat>)
    ensures |r| == count
  {
    seq(count, j requires 0 <= j < count => Truncate(from + (count - 1 - j)))
  }

  /** The new ids are the new indices exactly when all of them fit in 32 bits. */
  lemma NewIdsExact(from: nat, count: nat)
    requires 0 < count
    ensures (forall j :: 0 <= j < count ==> NewIds(from, count)[j] == from + (count - 1 - j)) <==> from + count <= U32
  {
    var ids := NewIds(from, count);
    if from + count > U32 {
      assert ids[0] == Truncate(from + (count - 1 - 0)) < U32;
    } else {
      forall j | 0 <= j < count
        ensures ids[j] == from + (count - 1 - j)
      {
        Fits(from + (count - 1 - j));
      }
    }
  }

  lemma Fits(x: nat)
    requires x < U32
    ensures Truncate(x) == x
  {
  }

  /** From 2^32 slots on, the next growth would hand out id 0 again. */
  lemma GrowthRepeatsIds()
    ensures NewIds(U32, U32)[U32 - 1] == 0
  {
  }

  /** Free and live ids together are the indices below the capacity, each once. */
  ghost predicate Partition(capacity: nat, bits: seq<u64>, free: seq<nat>) {
    && Distinct(free)
    && (forall i: nat :: i in Elements(bits) <==> i < capacity && i !in free)
    && (forall k :: 0 <= k < |free| ==> free[k] < capacity)
  }

  lemma SetBit(bits: seq<u64>, i: nat)
    requires i < Size(bits)
    ensures var now := bits[i / 64 := OrWord(bits[i / 64], OneAt(i % 64))]; Elements(now) == Elements(bits) + {i}
  {
    var now := bits[i / 64 := OrWord(bits[i / 64], OneAt(i % 64))];
    SingleBit(i);
    OrSelected(bits[i / 64], OneAt(i % 64), i / 64, i, i + 1);
    OneWordChanged(bits, now, i, i + 1, true);
    assert Interval(i, i + 1) == {i};
  }

  lemma ResetBit(bits: seq<u64>, i: nat)
    requires i < Size(bits)
    ensures var now := bits[i / 64 := AndWord(bits[i / 64], Not(OneAt(i % 64)))]; Elements(now) == Elements(bits) - {i}
  {
    var now := bits[i / 64 := AndWord(bits[i / 64], Not(OneAt(i % 64)))];
    SingleBit(i);
    AndSpared(bits[i / 64], Not(OneAt(i % 64)), i / 64, i, i + 1);
    OneWordChanged(bits, now, i, i + 1, false);
    assert Interval(i, i + 1) == {i};
  }

  function ZeroWords(n: nat): seq<u64> {
    seq(n, i => 0)
  }

  lemma MoreZeros(bits: seq<u64>, n: nat)
    ensures Elements(bits + ZeroWords(n)) == Elements(bits)
  {
    forall i: nat
      ensures Has(bits + ZeroWords(n), i) <==> Has(bits, i)
    {
      if i / 64 >= |bits| {
        ZeroBits(i % 64);
      }
    }
  }

  lemma GrownPartition(capacity: nat, bits: seq<u64>, free: seq<nat>, now: seq<u64>, count: nat)
    requires Partition(capacity, bits, free) && Elements(now) == Elements(bits) && capacity + count <= U32
    ensures Partition(capacity + count, now, free + NewIds(capacity, count))
  {
    var ids := NewIds(capacity, count);
    if count > 0 {
      NewIdsExact(capacity, count);
    }
    forall i: nat
      ensures i in ids <==> capacity <= i < capacity + count
    {
      if capacity <= i < capacity + count {
        assert ids[capacity + count - 1 - i] == i;
      }
    }
  }

  lemma TakenPartition(capacity: nat, bits: seq<u64>, free: seq<nat>, now: seq<u64>)
    requires Partition(capacity, bits, free) && free != []
    requires Elements(now) == Elements(bits) + {free[|free| - 1]}
    ensures Partition(capacity, now, free[..|free| - 1])
  {
    var last := free[|free| - 1];
    assert last !in free[..|free| - 1];
    assert free == free[..|free| - 1] + [last];
  }

  lemma GivenPartition(capacity: nat, bits: seq<u64>, free: seq<nat>, now: seq<u64>, id: nat)
    requires Partition(capacity, bits, free) && id in Elements(bits) && Elements(now) == Elements(bits) - {id}
    ensures Partition(capacity, now, free + [id])
  {
  }

  /** The capacity is the number of live ids and free ids together. */
  lemma LiveCount(capacity: nat, bits: seq<u64>, free: seq<nat>)
    requires Partition(capacity, bits, free)
    ensures |Elements(bits)| == capacity - |free|
  {
    var all, f := Interval(0, capacity), SetOf(free);
    IntervalSize(0, capacity);
    SetOfSize(free);
    assert f <= all;
    assert Elements(bits) == all - f;
  }

  ghost function SetOf(s: seq<nat>): (r: set<nat>)
    ensures forall x :: x in r <==> x in s
  {
    if s == [] then {} else SetOf(s[..|s| - 1]) + {s[|s| - 1]}
  }

  lemma {:induction false} SetOfSize(s: seq<nat>)
    requires Distinct(s)
    ensures |SetOf(s)| == |s|
  {
    if s != [] {
      SetOfSize(s[..|s| - 1]);
      assert s[|s| - 1] !in SetOf(s[..|s| - 1]);
    }
  }

  lemma {:induction false} IntervalSize(start: nat, end: nat)
    requires start <= end
    ensures |Interval(start, end)| == end - start
    decreases end
  {
    if start < end {
      IntervalSize(start, end - 1);
      var front := Interval(start, end - 1);
      assert end - 1 !in front && Interval(start, end) == front + {end - 1};
    }
  }

  lemma LiveBelow(capacity: nat, bits: seq<u64>, free: seq<nat>)
    requires Partition(capacity, bits, free)
    ensures forall i :: i in Elements(bits) ==> i < capacity && i < Size(bits) && i !in free
  {
  }

  lemma LastIsFree(capacity: nat, bits: seq<u64>, free: seq<nat>)
    requires Partition(capacity, bits, free) && free != []
    ensures free[|free| - 1] < capacity && free[|free| - 1] !in Elements(bits)
  {
  }

  predicate Increasing(s: seq<nat>) {
    forall i, j :: 0 <= i < j < |s| ==> s[i] < s[j]
  }

  lemma IncreasingAppend(s: seq<nat>, x: nat)
    requires Increasing(s) && forall y :: y in s ==> y < x
    ensures Increasing(s + [x])
  {
    forall i | 0 <= i < |s|
      ensures s[i] < x
    {
      assert s[i] in s;
    }
  }

  class SlotVector<T(0)> {
    var values: array<T>
    var storedBitset: seq<u64>
    var freeList: seq<nat>

    /** The ids in use. */
    ghost function Live(): set<nat>
      reads this
    {
      Elements(storedBitset)
    }

    ghost predicate Valid()
      reads this
    {
      && values.Length <= U32 && |storedBitset| == (values.Length + 63) / 64
      && Partition(values.Length, storedBitset, freeList)
    }

    constructor ()
      ensures Valid() && Live() == {} && fresh(values)
    {
      values, storedBitset, freeList := new T[0], [], [];
      new;
      assert Elements([]) == {};
      Reserve(INITIAL_CAPACITY);
    }

    /** Move the live values to a larger array and add the new ids to the free list. */
    method Reserve(newCapacity: nat)
      requires Valid() && values.Length <= newCapacity <= U32
      modifies this
      ensures Valid() && fresh(values) && values.Length == newCapacity
      ensures Live() == old(Live()) && freeList == old(freeList) + NewIds(old(values.Length), newCapacity - old(values.Length))
      ensures forall i :: i in Live() ==> values[i] == old(values[i])
    {
      hide Partition, Elements;
      var newValues := new T[newCapacity];
      MoveValues(newValues);
      var more := (newCapacity + 63) / 64 - |storedBitset|;
      MoreZeros(storedBitset, more);
      GrownPartition(values.Length, storedBitset, freeList, storedBitset + ZeroWords(more), newCapacity - values.Length);
      storedBitset := storedBitset + ZeroWords(more);
      freeList := freeList + NewIds(values.Length, newCapacity - values.Length);
      values := newValues;
    }

    /** Take an id that is not in use, growing the array if there is none. */
    method FreeValueIndex() returns (index: nat)
      requires Valid() && (freeList == [] ==> 2 * values.Length <= U32)
      modifies this
      ensures values.Length <= U32 && |storedBitset| == (values.Length + 63) / 64 && Live() == old(Live())
      ensures index < values.Length && index !in Live() && (values == old(values) || fresh(values))
      ensures Partition(values.Length, storedBitset, freeList + [index])
      ensures old(freeList) != [] ==> freeList + [index] == old(freeList)
      ensures old(freeList) == [] ==> index == old(values.Length)
      ensures forall i :: i in Live() ==> i < old(values.Length) && i < values.Length && values[i] == old(values[i])
    {
      hide Partition, Elements;
      LiveBelow(values.Length, storedBitset, freeList);
      if freeList == [] {
        var capacity := if values.Length != 0 then values.Length * 2 else 1;
        NewIdsExact(values.Length, capacity - values.Length);
        Reserve(capacity);
      }
      index := freeList[|freeList| - 1];
      LastIsFree(values.Length, storedBitset, freeList);
      assert freeList == freeList[..|freeList| - 1] + [index];
      freeList := freeList[..|freeList| - 1];
      LiveBelow(values.Length, storedBitset, freeList + [index]);
    }

    /** Store a value under a new id; values under other ids stay where they are. */
    method Insert(v: T) returns (id: nat)
      // otherwise the next ids would not fit in 32 bits
      requires Valid() && (freeList == [] ==> 2 * values.Length <= U32)
      modifies this, values
      ensures Valid() && id !in old(Live()) && Live() == old(Live()) + {id}
      ensures values == old(values) || fresh(values)
      ensures id < values.Length && values[id] == v
      ensures id == if old(freeList) == [] then old(values.Length) else old(freeList)[|old(freeList)| - 1]
      ensures forall i :: i in old(Live()) ==> i < old(values.Length) && i < values.Length && values[i] == old(values[i])
      ensures id == INVALID_INDEX ==> values.Length == U32
    {
      hide Partition, Elements;
      LiveBelow(values.Length, storedBitset, freeList);
      id := FreeValueIndex();
      values[id] := v;
      ghost var bits := storedBitset;
      SetBit(storedBitset, id);
      storedBitset := storedBitset[id / 64 := OrWord(storedBitset[id / 64], OneAt(id % 64))];
      TakenPartition(values.Length, bits, freeList + [id], storedBitset);
      assert (freeList + [id])[..|freeList|] == freeList;
    }

    /** Give up a live id. */
    method Erase(id: nat)
      requires Valid() && id in Live()
      modifies this`storedBitset, this`freeList
      ensures Valid() && Live() == old(Live()) - {id} && freeList == old(freeList) + [id]
    {
      hide Partition, Elements;
      LiveBelow(values.Length, storedBitset, freeList);
      ghost var bits := storedBitset;
      ResetBit(storedBitset, id);
      GivenPartition(values.Length, bits, freeList, storedBitset[id / 64 := AndWord(storedBitset[id / 64], Not(OneAt(id % 64)))], id);
      freeList := freeList + [id];
      storedBitset := storedBitset[id / 64 := AndWord(storedBitset[id / 64], Not(OneAt(id % 64)))];
    }

    /** The number of ids in use. */
    method Count() returns (n: nat)
      requires Valid()
      ensures n == |Live()|
    {
      LiveCount(values.Length, storedBitset, freeList);
      n := values.Length - |freeList|;
    }

    method ReadStorageBit(index: nat) returns (r: bool)
      requires index < Size(storedBitset)
      ensures r <==> index in Live()
    {
      BitIsShift(storedBitset[index / 64], index % 64);
      r := Shr(storedBitset[index / 64], index % 64) % 2 != 0;
    }

    /** The first id in use from slot on, or the truncated capacity. */
    method AdvanceToValid(slot: nat) returns (r: nat)
      requires Valid() && slot <= Truncate(values.Length)
      ensures slot <= r <= Truncate(values.Length) && (r < Truncate(values.Length) ==> r in Live())
      ensures forall i :: slot <= i < r ==> i !in Live()
    {
      hide Partition, Elements;
      r := slot;
      while r < Truncate(values.Length)
        invariant slot <= r <= Truncate(values.Length)
        invariant forall i :: slot <= i < r ==> i !in Live()
      {
        var used := ReadStorageBit(r);
        if used {
          return;
        }
        r := r + 1;
      }
    }

    /** Iterating from begin to end: the ids in use in ascending order, unless the capacity does not fit in an id. */
    method Iterate() returns (ids: seq<nat>)
      requires Valid()
      ensures Increasing(ids)
      ensures values.Length < U32 ==> forall i :: i in ids <==> i in Live()
      ensures values.Length == U32 ==> ids == []
    {
      hide Partition, Elements;
      LiveBelow(values.Length, storedBitset, freeList);
      ids := [];
      var end := AdvanceToValid(Truncate(values.Length));
      var slot := AdvanceToValid(0);
      while slot != end
        invariant slot <= end == Truncate(values.Length) && (slot < end ==> slot in Live())
        invariant Increasing(ids) && forall i :: i in ids <==> 0 <= i < slot && i in Live()
        decreases end - slot
      {
        IncreasingAppend(ids, slot);
        ids := ids + [slot];
        slot := AdvanceToValid(slot + 1);
      }
      assert |ids| > 0 ==> ids[0] in ids;
    }

    method MoveValues(newValues: array<T>)
      requires Valid() && values.Length <= newValues.Length && newValues != values
      modifies newValues
      ensures forall i :: i in Live() ==> newValues[i] == values[i]
    {
      for w := 0 to |storedBitset|
        invariant forall i :: i in Live() && i < 64 * w ==> newValues[i] == values[i]
      {
        MoveWord(newValues, w);
      }
    }

    /** Move the values of one word of the bitmap, up to its highest one. */
    method MoveWord(newValues: array<T>, w: nat)
      requires Valid() && values.Length <= newValues.Length && newValues != values && w < |storedBitset|
      requires forall i :: i in Live() && i < 64 * w ==> newValues[i] == values[i]
      modifies newValues
      ensures forall i :: i in Live() && i < 64 * w + 64 ==> newValues[i] == values[i]
    {
      var bits: nat, bit := storedBitset[w], 0;
      while bits != 0
        invariant bits == Shr(storedBitset[w], bit) && bit <= 64
        invariant forall i :: i in Live() && i < 64 * w + bit ==> newValues[i] == values[i]
        decreases bits
      {
        BitOfShifted(storedBitset, w, bit);
        var i := 64 * w + bit;
        if bits % 2 != 0 {
          newValues[i] := values[i];
        }
        bits := bits / 2;
        bit := bit + 1;
      }
      NoMoreBits(storedBitset, w, bit);
    }
  }

  lemma BitOfShifted(bits: seq<u64>, w: nat, bit: nat)
    requires w < |bits| && Shr(bits[w], bit) != 0 && bit <= 64
    ensures bit < 64 && (64 * w + bit in Elements(bits) <==> Shr(bits[w], bit) % 2 == 1)
    ensures Shr(bits[w], bit) / 2 == Shr(bits[w], bit + 1)
  {
    WordIsPow2();
    LowSmall(bits[w], 64);
    BitIsShift(bits[w], bit);
    HasAt(bits, w, bit);
    ShrShr(bits[w], bit, 1);
    assert Shr(Shr(bits[w], bit), 1) == Shr(bits[w], bit) / 2;
  }

  lemma NoMoreBits(bits: seq<u64>, w: nat, bit: nat)
    requires w < |bits| && Shr(bits[w], bit) == 0
    ensures forall i :: i in Elements(bits) && i < 64 * w + 64 ==> i < 64 * w + bit
  {
    forall i | i in Elements(bits) && i < 64 * w + 64
      ensures i < 64 * w + bit
    {
      if 64 * w + bit <= i {
        ShiftedBits(bits[w], bit, i - 64 * w - bit);
        ZeroBits(i - 64 * w - bit);
        HasAt(bits, w, i - 64 * w);
      }
    }
  }
}
