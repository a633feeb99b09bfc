/**
 * The `u32_table` class: an open-addressed table of 32-bit items over a slot
 * array of `2^lgSize` words, with linear probing, deletion that re-inserts
 * the run of items after the freed slot, and rebuilding to twice or half the
 * size when the load crosses 3/4 or 1/4. The ghost field `Contents` is the
 * set of stored items.
 */
module U32Table {
  import opened Words
  import opened U32TableSpec
  import SortedMerge

  const UPSIZE_NUMER: nat := 3
  const UPSIZE_DENOM: nat := 4
  const DOWNSIZE_NUMER: nat := 1
  const DOWNSIZE_DENOM: nat := 4

  /** The table never shrinks below 2^MIN_LG_SIZE slots. */
  const MIN_LG_SIZE: nat := 2

  /** After one insertion into a table with a free slot, doubling the size fits the items under 3/4 load. */
  lemma UpsizeFits(n: nat, lg: nat)
    requires n <= Pow2(lg)
    ensures n < Pow2(lg + 1)
    ensures UPSIZE_DENOM * n <= UPSIZE_NUMER * Pow2(lg + 1)
  {
    assert Pow2(lg + 1) == 2 * Pow2(lg);
  }

  /** Below 1/4 load, halving the size keeps a free slot and stays under 3/4 load. */
  lemma DownsizeFits(n: nat, lg: nat)
    requires lg >= 1 && DOWNSIZE_DENOM * n < DOWNSIZE_NUMER * Pow2(lg)
    ensures n < Pow2(lg - 1)
    ensures UPSIZE_DENOM * n <= UPSIZE_NUMER * Pow2(lg - 1)
  {
    assert Pow2(lg) == 2 * Pow2(lg - 1);
  }

  class U32Table {
    var lgSize: nat
    var numValidBits: u8
    var numItems: nat
    var slots: array<u32>
    ghost var Contents: set<u32>

    /** Everything but the load bound: this holds during a rebuild's trigger. */
    ghost predicate Consistent()
      reads this, slots
    {
      && lgSize >= MIN_LG_SIZE
      && slots.Length == Pow2(lgSize)
      && WellFormed(slots[..])
      && Contents == Items(slots[..])
      && numItems == |Contents|
    }

    ghost predicate Valid()
      reads this, slots
    {
      && Consistent()
      && UPSIZE_DENOM * numItems <= UPSIZE_NUMER * slots.Length
    }

    /** A valid table has a free slot, so every probe stops. */
    lemma HasFreeSlot()
      requires Valid()
      ensures EMPTY in slots[..] && numItems < slots.Length
    {
      Pow2AtLeastFour(lgSize);
      FreeSlotExists(slots[..]);
    }

    /** `u32_table(lg_size, num_valid_bits)`: an empty table of `2^lg_size` free slots. */
    constructor (lgSize: nat, numValidBits: u8)
      requires lgSize >= MIN_LG_SIZE
      ensures Valid() && fresh(slots)
      ensures this.lgSize == lgSize && this.numValidBits == numValidBits
      ensures numItems == 0 && Contents == {}
      ensures forall j :: 0 <= j < slots.Length ==> slots[j] == EMPTY
    {
      this.lgSize := lgSize;
      this.numValidBits := numValidBits;
      numItems := 0;
      slots := new u32[Pow2(lgSize)](_ => EMPTY);
      Contents := {};
      new;
      assert Items(slots[..]) == {};
    }

    /** The number of distinct items stored. */
    function GetNumItems(): (r: nat)
      reads this, slots
      requires Valid()
      ensures r == |Contents| && r < slots.Length
    {
      HasFreeSlot();
      numItems
    }

    /** The slot array has `2^r` slots. */
    function GetLgSize(): (r: nat)
      reads this, slots
      requires Valid()
      ensures slots.Length == Pow2(r) && r >= MIN_LG_SIZE
    {
      lgSize
    }

    /** The slot words; the non-free ones are exactly the stored items. */
    function GetSlots(): (r: seq<u32>)
      reads this, slots
      requires Valid()
      ensures |r| == Pow2(lgSize)
      ensures forall x :: x in Contents <==> x in r && x != EMPTY
    {
      slots[..]
    }

    /** `clear()`: frees every slot, keeping the size. */
    method Clear()
      requires Valid()
      modifies this, slots
      ensures Valid()
      ensures Contents == {} && numItems == 0
      ensures lgSize == old(lgSize) && slots == old(slots) && numValidBits == old(numValidBits)
      ensures forall j :: 0 <= j < slots.Length ==> slots[j] == EMPTY
    {
      var i := 0;
      while i < slots.Length
        invariant 0 <= i <= slots.Length
        invariant forall j :: 0 <= j < i ==> slots[j] == EMPTY
        modifies slots
      {
        slots[i] := EMPTY;
        i := i + 1;
      }
      numItems := 0;
      Contents := {};
      assert Items(slots[..]) == {};
    }

    /**
     * `lookup(item)`: probes from the item's home slot until it meets the
     * item or a free slot; it meets the item exactly when it is stored.
     */
    method Lookup(item: u32) returns (index: nat)
      requires WellFormed(slots[..]) && EMPTY in slots[..]
      ensures ProbeStop(slots[..], item, index)
      ensures (slots[index] == item) <==> (item in slots[..])
    {
      var n := slots.Length;
      var h := Home(item, n);
      index := h;
      ghost var d := 0;
      while slots[index] != item && slots[index] != EMPTY
        invariant d < n && index == Step(h, d, n)
        invariant PathFull(slots[..], h, d)
        invariant forall d' :: 0 <= d' < d ==> slots[Step(h, d', n)] != item
        decreases n - d
      {
        FreeSlotStopsProbe(slots[..], h, d);
        index := if index + 1 == n then 0 else index + 1;
        d := d + 1;
      }
      DistStep(h, d, n);
      ProbeStopDecides(slots[..], item, index);
    }

    /** `must_insert(item)`: stores an item known to be absent; counts are the caller's. */
    method MustInsert(item: u32)
      requires WellFormed(slots[..]) && EMPTY in slots[..]
      requires item != EMPTY && item !in slots[..]
      modifies slots
      ensures WellFormed(slots[..])
      ensures Items(slots[..]) == old(Items(slots[..])) + {item}
    {
      var index := Lookup(item);
      PlaceAtProbeStop(slots[..], item, index);
      slots[index] := item;
    }

    /**
     * `rebuild(new_lg_size)`: moves every item into a fresh slot array of
     * `2^newLgSize` slots, probing again for each; the item set is kept.
     */
    method Rebuild(newLgSize: nat)
      requires Consistent() && newLgSize >= MIN_LG_SIZE && numItems < Pow2(newLgSize)
      modifies this
      ensures Consistent() && fresh(slots)
      ensures lgSize == newLgSize && Contents == old(Contents) && numItems == old(numItems)
      ensures numValidBits == old(numValidBits)
    {
      var oldSlots := slots;
      slots := new u32[Pow2(newLgSize)](_ => EMPTY);
      lgSize := newLgSize;
      assert Items(slots[..]) == {};
      MoveAll(oldSlots);
    }

    /** Inserts every item of `from`, slot by slot, into the current slot array. */
    method MoveAll(from: array<u32>)
      requires from != slots && NoDuplicates(from[..])
      requires WellFormed(slots[..]) && Items(slots[..]) == {}
      requires |Items(from[..])| < slots.Length
      modifies slots
      ensures WellFormed(slots[..]) && Items(slots[..]) == Items(from[..])
    {
      assert Items(from[..0]) == {};
      var i := 0;
      while i < from.Length
        invariant 0 <= i <= from.Length
        invariant WellFormed(slots[..])
        invariant Items(slots[..]) == Items(from[..i])
      {
        var x := from[i];
        PrefixStep(from[..], i);
        if x != EMPTY {
          FreeSlotExists(slots[..]);
          MustInsert(x);
        }
        i := i + 1;
      }
      assert from[..i] == from[..];
    }

    /**
     * `maybe_insert(item)`: true exactly when the item was new and has been
     * added. A table whose load then exceeds 3/4 is rebuilt at twice the size.
     */
    method MaybeInsert(item: u32) returns (inserted: bool)
      requires Valid()
      modifies this, slots
      ensures Valid()
      ensures inserted == (item != EMPTY && item !in old(Contents))
      ensures inserted ==> Contents == old(Contents) + {item} && numItems == old(numItems) + 1
      ensures !inserted ==> Contents == old(Contents) && numItems == old(numItems)
      ensures !inserted ==> lgSize == old(lgSize) && slots == old(slots) && slots[..] == old(slots[..])
      ensures inserted ==> lgSize == if UPSIZE_DENOM * numItems > UPSIZE_NUMER * Pow2(old(lgSize))
                                     then old(lgSize) + 1 else old(lgSize)
      ensures numValidBits == old(numValidBits)
      ensures slots == old(slots) || fresh(slots)
    {
      HasFreeSlot();
      var index := Lookup(item);
      if slots[index] == item {
        return false;
      }
      Place(item, index);
      if UPSIZE_DENOM * numItems > UPSIZE_NUMER * Pow2(lgSize) {
        UpsizeFits(numItems, lgSize);
        Rebuild(lgSize + 1);
      }
      return true;
    }

    /** Writes a new item into the free slot where its probe stopped. */
    method Place(item: u32, index: nat)
      requires Consistent() && numItems < slots.Length
      requires ProbeStop(slots[..], item, index) && slots[index] == EMPTY
      requires item != EMPTY && item !in slots[..]
      modifies this, slots
      ensures Consistent() && numItems <= slots.Length
      ensures item !in old(Contents) && Contents == old(Contents) + {item} && numItems == old(numItems) + 1
      ensures lgSize == old(lgSize) && slots == old(slots) && numValidBits == old(numValidBits)
    {
      ghost var s := slots[..];
      PlaceAtProbeStop(s, item, index);
      slots[index] := item;
      assert slots[..] == s[index := item];
      assert item !in Contents;
      numItems := numItems + 1;
      Contents := Contents + {item};
    }

    /**
     * Frees slot `index` and the run of occupied slots after it, up to the
     * next free slot, returning the run's items in probe order.
     */
    method TakeOutRun(index: nat) returns (pending: seq<u32>)
      requires WellFormed(slots[..]) && index < slots.Length && slots[index] != EMPTY && EMPTY in slots[..]
      modifies slots
      ensures WellFormed(slots[..]) && Distinct(pending) && EMPTY !in pending
      ensures Items(slots[..]) !! Elems(pending)
      ensures Items(slots[..]) + Elems(pending) == old(Items(slots[..])) - {old(slots[index])}
      ensures |Items(slots[..]) + Elems(pending)| == |old(Items(slots[..]))| - 1
    {
      ghost var s0 := slots[..];
      var n := slots.Length;
      slots[index] := EMPTY;
      assert slots[..] == ClearedRun(s0, index, 1);
      pending := [];
      var probe := if index + 1 == n then 0 else index + 1;
      ghost var k := 1;
      FreeSlotStopsProbe(s0, index, 0);
      while slots[probe] != EMPTY
        invariant 1 <= k < n && probe == Step(index, k, n)
        invariant forall k' :: 0 <= k' < k ==> s0[Step(index, k', n)] != EMPTY
        invariant slots[..] == ClearedRun(s0, index, k)
        invariant pending == RunValues(s0, index, k)
        decreases n - k
      {
        DistStep(index, k, n);
        FreeSlotStopsProbe(s0, index, k);
        RunValuesStep(s0, index, k);
        ClearedRunStep(s0, index, k);
        pending := pending + [slots[probe]];
        slots[probe] := EMPTY;
        probe := if probe + 1 == n then 0 else probe + 1;
        k := k + 1;
      }
      DistStep(index, k, n);
      ClearedRunProbeInvariant(s0, index, k);
      ClearedRunItems(s0, index, k);
    }

    /** Inserts again every item of a run taken out by `TakeOutRun`. */
    method PutBack(pending: seq<u32>)
      requires WellFormed(slots[..]) && Distinct(pending) && EMPTY !in pending
      requires Items(slots[..]) !! Elems(pending)
      requires |Items(slots[..]) + Elems(pending)| < slots.Length
      modifies slots
      ensures WellFormed(slots[..])
      ensures Items(slots[..]) == old(Items(slots[..])) + Elems(pending)
    {
      ghost var target := Items(slots[..]) + Elems(pending);
      var t := 0;
      while t < |pending|
        invariant 0 <= t <= |pending|
        invariant WellFormed(slots[..])
        invariant Items(slots[..]) + Elems(pending[t..]) == target
        invariant Items(slots[..]) !! Elems(pending[t..])
      {
        PendingStep(Items(slots[..]), pending, t, target);
        FreeSlotExists(slots[..]);
        MustInsert(pending[t]);
        t := t + 1;
      }
      assert pending[t..] == [];
    }

    /**
     * Deletes the item stored in slot `index`: the run after it is taken
     * out and inserted again, so that every remaining item stays reachable.
     */
    method Remove(item: u32, index: nat)
      requires Consistent() && index < slots.Length && slots[index] == item && item != EMPTY
      requires EMPTY in slots[..] && numItems < slots.Length
      modifies this, slots
      ensures Consistent()
      ensures item in old(Contents) && Contents == old(Contents) - {item} && numItems == old(numItems) - 1
      ensures lgSize == old(lgSize) && slots == old(slots) && numValidBits == old(numValidBits)
    {
      assert item in Contents;
      var pending := TakeOutRun(index);
      numItems := numItems - 1;
      Contents := Contents - {item};
      PutBack(pending);
    }

    /**
     * `maybe_delete(item)`: true exactly when the item was stored and has
     * been removed. The slot is freed, the run of items after it is taken out
     * and inserted again, and a table whose load then falls below 1/4 is
     * rebuilt at half the size, unless it is already at the floor size.
     */
    method MaybeDelete(item: u32) returns (deleted: bool)
      requires Valid()
      modifies this, slots
      ensures Valid()
      ensures deleted == (item in old(Contents))
      ensures deleted ==> Contents == old(Contents) - {item} && numItems == old(numItems) - 1
      ensures !deleted ==> Contents == old(Contents) && numItems == old(numItems)
      ensures !deleted ==> lgSize == old(lgSize) && slots == old(slots) && slots[..] == old(slots[..])
      ensures deleted ==> lgSize == if old(lgSize) > MIN_LG_SIZE && DOWNSIZE_DENOM * numItems < DOWNSIZE_NUMER * Pow2(old(lgSize))
                                     then old(lgSize) - 1 else old(lgSize)
      ensures numValidBits == old(numValidBits)
      ensures slots == old(slots) || fresh(slots)
    {
      HasFreeSlot();
      var index := Lookup(item);
      if slots[index] == EMPTY {
        assert item !in Contents;
        return false;
      }
      Remove(item, index);
      if lgSize > MIN_LG_SIZE && DOWNSIZE_DENOM * numItems < DOWNSIZE_NUMER * Pow2(lgSize) {
        DownsizeFits(numItems, lgSize);
        Rebuild(lgSize - 1);
      }
      return true;
    }

    /**
     * `unwrapping_get_items()`: every stored item exactly once. The scan
     * starts just after a free slot, so that no probe run is split by the
     * wrap from the last slot to the first.
     */
    method UnwrappingGetItems() returns (items: seq<u32>)
      requires Valid()
      ensures |items| == numItems
      ensures forall x :: x in items <==> x in Contents
      ensures Distinct(items)
    {
      if numItems == 0 {
        return [];
      }
      HasFreeSlot();
      var n := slots.Length;
      var anchor := 0;
      while slots[anchor] != EMPTY
        invariant 0 <= anchor < n
        invariant forall j :: 0 <= j < anchor ==> slots[j] != EMPTY
        decreases n - anchor
      {
        anchor := anchor + 1;
      }
      var start := if anchor + 1 == n then 0 else anchor + 1;
      ghost var rot := Rotated(slots[..], start);
      items := [];
      var i := start;
      var k := 0;
      while k < n
        invariant 0 <= k <= n
        invariant k < n ==> i == Step(start, k, n)
        invariant items == NonEmpty(rot[..k])
      {
        RotatedAt(slots[..], start, k);
        NonEmptySnoc(rot, k);
        if slots[i] != EMPTY {
          items := items + [slots[i]];
        }
        i := if i + 1 == n then 0 else i + 1;
        k := k + 1;
      }
      assert rot[..k] == rot;
      RotatedSameItems(slots[..], start);
      NonEmptyContents(rot);
    }

    /**
     * `merge(arr_a, start_a, length_a, arr_b, start_b, length_b, arr_c, start_c)`:
     * writes the two-pointer merge of the two input ranges into `arr_c`
     * from `start_c`, `length_a + length_b` items in all, and touches no
     * other cell of `arr_c`.
     */
    static method Merge(arrA: array<u32>, startA: nat, lengthA: nat,
                        arrB: array<u32>, startB: nat, lengthB: nat,
                        arrC: array<u32>, startC: nat)
      requires startA + lengthA <= arrA.Length && startB + lengthB <= arrB.Length
      requires startC + lengthA + lengthB <= arrC.Length
      requires arrC != arrA && arrC != arrB
      modifies arrC
      ensures forall j :: 0 <= j < arrC.Length && !(startC <= j < startC + lengthA + lengthB) ==> arrC[j] == old(arrC[j])
      ensures arrC[startC..startC + lengthA + lengthB]
           == SortedMerge.Merge(arrA[startA..startA + lengthA], arrB[startB..startB + lengthB])
    {
      var limA := startA + lengthA;
      var limB := startB + lengthB;
      var limC := startC + lengthA + lengthB;
      ghost var ra, rb := arrA[startA..limA], arrB[startB..limB];
      ghost var whole := SortedMerge.Merge(ra, rb);
      ghost var out: seq<u32> := [];
      var a := startA;
      var b := startB;
      var c := startC;
      while c < limC
        invariant startA <= a <= limA && startB <= b <= limB
        invariant c == startC + (a - startA) + (b - startB)
        invariant ra == arrA[a..limA] && rb == arrB[b..limB]
        invariant out + SortedMerge.Merge(ra, rb) == whole
        invariant |out| == c - startC
        invariant forall j :: 0 <= j < |out| ==> arrC[startC + j] == out[j]
        invariant forall j :: 0 <= j < arrC.Length && !(startC <= j < c) ==> arrC[j] == old(arrC[j])
      {
        var takeA: bool;
        if b >= limB {
          takeA := true;
        } else if a >= limA {
          takeA := false;
        } else {
          takeA := arrA[a] < arrB[b];
        }
        var next: u32;
        if takeA {
          SortedMerge.MergeTakesA(out, ra, rb, whole);
          next := arrA[a];
          a := a + 1;
          ra := ra[1..];
        } else {
          SortedMerge.MergeTakesB(out, ra, rb, whole);
          next := arrB[b];
          b := b + 1;
          rb := rb[1..];
        }
        out := out + [next];
        arrC[c] := next;
        c := c + 1;
      }
      assert out == whole;
      assert arrC[startC..limC] == out;
    }
  }
}
