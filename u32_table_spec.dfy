/**
 * The slot array of the `u32_table` open-addressed hash table as a value:
 * `EMPTY` marks a free slot, an item's probe starts at its home slot and walks
 * forward one slot at a time, wrapping from the last slot to slot 0 (linear
 * probing on a circular array). The invariant that makes lookups correct is
 * that every stored item sits at the end of an unbroken run of occupied
 * slots that starts at its home slot.
 */
module U32TableSpec {
  import opened Words

  /** The sentinel of a free slot; no stored item equals it. */
  const EMPTY: u32 := 0xFFFF_FFFF

  /** Slot where the probe for `x` starts in a table of `n` slots. */
  function Home(x: u32, n: nat): (r: nat)
    requires n > 0
    ensures r < n
  {
    x as int % n
  }

  /** The slot `d` steps forward from slot `a`, wrapping around. */
  function Step(a: nat, d: nat, n: nat): (r: nat)
    requires a < n && d < n
    ensures r < n
  {
    if a + d < n then a + d else a + d - n
  }

  /** How many forward steps lead from slot `a` to slot `b`. */
  function Dist(a: nat, b: nat, n: nat): (r: nat)
    requires a < n && b < n
    ensures r < n
  {
    if a <= b then b - a else b + n - a
  }

  /** The first `len` slots of the probe that starts at `h` are all occupied. */
  ghost predicate PathFull(s: seq<u32>, h: nat, len: nat)
    requires h < |s| && len <= |s|
  {
    forall d :: 0 <= d < len ==> s[Step(h, d, |s|)] != EMPTY
  }

  /** The item in slot `j` is found by probing from its home slot. */
  ghost predicate Reachable(s: seq<u32>, j: nat)
    requires j < |s|
  {
    var h := Home(s[j], |s|);
    PathFull(s, h, Dist(h, j, |s|))
  }

  ghost predicate ProbeInvariant(s: seq<u32>) {
    |s| > 0 && forall j {:trigger Reachable(s, j)} :: 0 <= j < |s| && s[j] != EMPTY ==> Reachable(s, j)
  }

  /** No item is stored in two slots. */
  ghost predicate NoDuplicates(s: seq<u32>) {
    forall i, j :: 0 <= i < |s| && 0 <= j < |s| && i != j && s[i] != EMPTY ==> s[i] != s[j]
  }

  ghost predicate WellFormed(s: seq<u32>) {
    ProbeInvariant(s) && NoDuplicates(s)
  }

  /** The items a slot array stores. */
  ghost function Items(s: seq<u32>): (r: set<u32>) {
    set x | x in s && x != EMPTY
  }

  /** Every word of `p`, free-slot markers included. */
  ghost function Elems(p: seq<u32>): (r: set<u32>) {
    set x | x in p
  }

  /** No two words of `p` coincide (CountMinSpec.Distinct says the same of flat locations). */
  ghost predicate Distinct(p: seq<u32>) {
    forall a, b :: 0 <= a < b < |p| ==> p[a] != p[b]
  }

  /** Where a probe for `x` ends: at `x` itself or at a free slot, after a full run without `x`. */
  ghost predicate ProbeStop(s: seq<u32>, x: u32, p: nat)
    requires |s| > 0
  {
    var h := Home(x, |s|);
    && p < |s|
    && (s[p] == x || s[p] == EMPTY)
    && PathFull(s, h, Dist(h, p, |s|))
    && forall d :: 0 <= d < Dist(h, p, |s|) ==> s[Step(h, d, |s|)] != x
  }

  // ---------------------------------------------------------------------
  // Circular index arithmetic

  lemma StepDist(a: nat, b: nat, n: nat)
    requires a < n && b < n
    ensures Step(a, Dist(a, b, n), n) == b
  {
  }

  lemma DistStep(a: nat, d: nat, n: nat)
    requires a < n && d < n
    ensures Dist(a, Step(a, d, n), n) == d
  {
  }

  /**
   * A probe that visited `d + 1` occupied slots, in a table that has a free
   * slot, has not gone all the way round.
   */
  lemma FreeSlotStopsProbe(s: seq<u32>, h: nat, d: nat)
    requires h < |s| && d < |s| && EMPTY in s
    requires forall d' :: 0 <= d' <= d ==> s[Step(h, d', |s|)] != EMPTY
    ensures d + 1 < |s|
  {
    var e :| 0 <= e < |s| && s[e] == EMPTY;
    StepDist(h, e, |s|);
  }

  // ---------------------------------------------------------------------
  // Lookup and insertion

  /**
   * A probe for `x` that meets a free slot before meeting `x` proves that
   * `x` is not stored anywhere.
   */
  lemma ProbeMissMeansAbsent(s: seq<u32>, x: u32, p: nat)
    requires WellFormed(s) && ProbeStop(s, x, p) && s[p] == EMPTY
    ensures x !in Items(s)
  {
    var n := |s|;
    var h := Home(x, n);
    var d := Dist(h, p, n);
    if x in Items(s) {
      var j :| 0 <= j < n && s[j] == x;
      assert Reachable(s, j);
      var dj := Dist(h, j, n);
      StepDist(h, j, n);
      StepDist(h, p, n);
    }
  }

  /** Where the probe ends decides membership: at `x` exactly when `x` is stored. */
  lemma ProbeStopDecides(s: seq<u32>, x: u32, p: nat)
    requires WellFormed(s) && ProbeStop(s, x, p)
    ensures (s[p] == x) <==> (x in s)
  {
    if s[p] != x {
      ProbeMissMeansAbsent(s, x, p);
    }
  }

  /**
   * Writing `x` into the free slot where its probe ended keeps the table
   * well formed and adds exactly `x`.
   */
  lemma PlaceAtProbeStop(s: seq<u32>, x: u32, p: nat)
    requires WellFormed(s) && ProbeStop(s, x, p) && s[p] == EMPTY
    requires x != EMPTY && x !in s
    ensures WellFormed(s[p := x])
    ensures Items(s[p := x]) == Items(s) + {x}
  {
    var n := |s|;
    var s' := s[p := x];
    var h := Home(x, n);
    forall j | 0 <= j < n && s'[j] != EMPTY
      ensures Reachable(s', j)
    {
      var hj := Home(s'[j], n);
      forall d | 0 <= d < Dist(hj, j, n)
        ensures s'[Step(hj, d, n)] != EMPTY
      {
        if j != p {
          assert Reachable(s, j);
        }
        if Step(hj, d, n) == p {
          assert s'[p] == x;
        }
      }
    }
    forall x' | x' in Items(s')
      ensures x' in Items(s) + {x}
    {
      var j :| 0 <= j < n && s'[j] == x';
      if j != p {
        assert s[j] == x';
      }
    }
    forall x' | x' in Items(s) + {x}
      ensures x' in Items(s')
    {
      if x' == x {
        assert s'[p] == x;
      } else {
        var j :| 0 <= j < n && s[j] == x';
        assert s'[j] == x';
      }
    }
  }

  // ---------------------------------------------------------------------
  // Counting

  /** In a duplicate-free slot array, the stored items are exactly as many as the occupied slots. */
  lemma {:induction false} FullTableCard(s: seq<u32>)
    requires NoDuplicates(s) && EMPTY !in s
    ensures |Items(s)| == |s|
  {
    if s != [] {
      var s' := s[..|s| - 1];
      var x := s[|s| - 1];
      assert s == s' + [x];
      assert NoDuplicates(s');
      assert EMPTY !in s';
      FullTableCard(s');
      assert Items(s) == Items(s') + {x};
    }
  }

  /** A duplicate-free slot array storing fewer items than it has slots has a free slot. */
  lemma FreeSlotExists(s: seq<u32>)
    requires NoDuplicates(s) && |Items(s)| < |s|
    ensures EMPTY in s
  {
    if EMPTY !in s {
      FullTableCard(s);
    }
  }

  lemma {:induction false} SubsetCard(a: set<u32>, b: set<u32>)
    requires a <= b
    ensures |a| <= |b|
  {
    assert b == a + (b - a);
  }

  /**
   * Reading one more slot of a slot array without repeats adds that slot's
   * item, which was not among those read so far.
   */
  lemma PrefixStep(p: seq<u32>, i: nat)
    requires NoDuplicates(p) && i < |p|
    ensures Items(p[..i + 1]) == Items(p[..i]) + (if p[i] != EMPTY then {p[i]} else {})
    ensures p[i] != EMPTY ==> p[i] !in Items(p[..i]) && |Items(p[..i])| < |Items(p)|
  {
    assert p[..i + 1] == p[..i] + [p[i]];
    if p[i] != EMPTY {
      assert Items(p[..i + 1]) <= Items(p);
      SubsetCard(Items(p[..i + 1]), Items(p));
    }
  }

  // ---------------------------------------------------------------------
  // Deletion: clearing the run after the deleted slot

  /** The slot array with the `k` slots starting at `i` freed. */
  ghost function ClearedRun(s: seq<u32>, i: nat, k: nat): (r: seq<u32>)
    requires i < |s|
    ensures |r| == |s|
  {
    seq(|s|, j requires 0 <= j < |s| => if Dist(i, j, |s|) < k then EMPTY else s[j])
  }

  /** The items of the `k - 1` slots that follow slot `i`, in probe order. */
  ghost function RunValues(s: seq<u32>, i: nat, k: nat): (r: seq<u32>)
    requires i < |s| && 1 <= k <= |s|
    ensures |r| == k - 1
  {
    seq(k - 1, t requires 0 <= t < k - 1 => s[Step(i, t + 1, |s|)])
  }

  lemma ClearedRunStep(s: seq<u32>, i: nat, k: nat)
    requires i < |s| && k < |s|
    ensures ClearedRun(s, i, k)[Step(i, k, |s|) := EMPTY] == ClearedRun(s, i, k + 1)
  {
    var n := |s|;
    var a := ClearedRun(s, i, k)[Step(i, k, n) := EMPTY];
    var b := ClearedRun(s, i, k + 1);
    forall j | 0 <= j < n
      ensures a[j] == b[j]
    {
      DistStep(i, k, n);
      StepDist(i, j, n);
    }
  }

  lemma RunValuesStep(s: seq<u32>, i: nat, k: nat)
    requires i < |s| && 1 <= k < |s|
    ensures RunValues(s, i, k + 1) == RunValues(s, i, k) + [s[Step(i, k, |s|)]]
  {
  }

  /**
   * The circular-arithmetic core of deletion. Slot `q` is `d` steps into the
   * probe from `h` that ends at occupied slot `j`, and `q` is one of the
   * `k` cleared slots after `i` while `j` is not. Then the free slot
   * `Step(i, k)` that ends the cleared run lies on that probe too, no later
   * than `j`.
   */
  lemma RunEndOnPath(n: nat, i: nat, h: nat, j: nat, d: nat, k: nat)
    requires i < n && h < n && j < n && k < n
    requires d < Dist(h, j, n)
    requires Dist(i, Step(h, d, n), n) < k <= Dist(i, j, n)
    ensures d + (k - Dist(i, Step(h, d, n), n)) <= Dist(h, j, n)
    ensures Step(h, d + (k - Dist(i, Step(h, d, n), n)), n) == Step(i, k, n)
  {
  }

  /**
   * Freeing slot `i` and the whole run of occupied slots after it, up to
   * the first free slot, leaves every remaining item reachable.
   */
  lemma ClearedRunProbeInvariant(s: seq<u32>, i: nat, k: nat)
    requires WellFormed(s) && i < |s| && 1 <= k < |s|
    requires forall k' :: 0 <= k' < k ==> s[Step(i, k', |s|)] != EMPTY
    requires s[Step(i, k, |s|)] == EMPTY
    ensures ProbeInvariant(ClearedRun(s, i, k))
  {
    var n := |s|;
    var c := ClearedRun(s, i, k);
    forall j | 0 <= j < n && c[j] != EMPTY
      ensures Reachable(c, j)
    {
      assert c[j] == s[j];
      assert Reachable(s, j);
      var h := Home(s[j], n);
      forall d | 0 <= d < Dist(h, j, n)
        ensures c[Step(h, d, n)] != EMPTY
      {
        var q := Step(h, d, n);
        if Dist(i, q, n) < k {
          RunEndOnPath(n, i, h, j, d, k);
          assert false;
        }
      }
    }
  }

  /**
   * The items split three ways: those left in the cleared table, the
   * deleted item in slot `i`, and the items of the cleared run; no item is
   * in two of these parts and the run has no repeats.
   */
  lemma ClearedRunItems(s: seq<u32>, i: nat, k: nat)
    requires NoDuplicates(s) && i < |s| && 1 <= k < |s|
    requires forall k' :: 0 <= k' < k ==> s[Step(i, k', |s|)] != EMPTY
    ensures NoDuplicates(ClearedRun(s, i, k))
    ensures Items(ClearedRun(s, i, k)) + Elems(RunValues(s, i, k)) == Items(s) - {s[i]}
    ensures |Items(ClearedRun(s, i, k)) + Elems(RunValues(s, i, k))| == |Items(s)| - 1
    ensures Items(ClearedRun(s, i, k)) !! Elems(RunValues(s, i, k))
    ensures Distinct(RunValues(s, i, k)) && EMPTY !in RunValues(s, i, k)
  {
    var c := ClearedRun(s, i, k);
    var rv := RunValues(s, i, k);
    ClearedRunCover(s, i, k);
    ClearedRunSeparate(s, i, k);
    assert s[i] !in Items(c) + Elems(rv);
    RemoveOne(Items(s), s[i], Items(c) + Elems(rv));
  }

  /** Every item is left in the cleared table, is the deleted one, or is in the run. */
  lemma ClearedRunCover(s: seq<u32>, i: nat, k: nat)
    requires i < |s| && 1 <= k < |s|
    requires forall k' :: 0 <= k' < k ==> s[Step(i, k', |s|)] != EMPTY
    ensures Items(s) == (Items(ClearedRun(s, i, k)) + Elems(RunValues(s, i, k))) + {s[i]}
  {
    var n := |s|;
    var c := ClearedRun(s, i, k);
    var rv := RunValues(s, i, k);
    assert s[Step(i, 0, n)] != EMPTY;
    forall x | x in Items(s)
      ensures x in Items(c) + {s[i]} + Elems(rv)
    {
      var j :| 0 <= j < n && s[j] == x;
      var m := Dist(i, j, n);
      StepDist(i, j, n);
      if m >= k {
        assert c[j] == x;
      } else if m > 0 {
        assert rv[m - 1] == x;
      }
    }
    forall t | 0 <= t < k - 1
      ensures rv[t] in Items(s)
    {
      assert s[Step(i, t + 1, n)] != EMPTY;
    }
    forall x | x in Items(c)
      ensures x in Items(s)
    {
      var j :| 0 <= j < n && c[j] == x;
    }
  }

  /**
   * The deleted item, the items left in the cleared table and the items of
   * the run are pairwise apart, and the run has no repeats.
   */
  lemma ClearedRunSeparate(s: seq<u32>, i: nat, k: nat)
    requires NoDuplicates(s) && i < |s| && 1 <= k < |s|
    requires forall k' :: 0 <= k' < k ==> s[Step(i, k', |s|)] != EMPTY
    ensures NoDuplicates(ClearedRun(s, i, k))
    ensures s[i] !in Items(ClearedRun(s, i, k)) && s[i] !in RunValues(s, i, k)
    ensures Items(ClearedRun(s, i, k)) !! Elems(RunValues(s, i, k))
    ensures Distinct(RunValues(s, i, k)) && EMPTY !in RunValues(s, i, k)
  {
    var n := |s|;
    var c := ClearedRun(s, i, k);
    var rv := RunValues(s, i, k);
    assert s[Step(i, 0, n)] != EMPTY;
    forall t | 0 <= t < k - 1
      ensures rv[t] != EMPTY && rv[t] != s[i]
    {
      assert s[Step(i, t + 1, n)] != EMPTY;
      DistStep(i, t + 1, n);
    }
    forall j | 0 <= j < n && c[j] != EMPTY
      ensures c[j] != s[i] && c[j] !in rv
    {
      DistStep(i, 0, n);
      forall t | 0 <= t < k - 1
        ensures rv[t] != c[j]
      {
        DistStep(i, t + 1, n);
      }
    }
    forall a, b | 0 <= a < b < k - 1
      ensures rv[a] != rv[b]
    {
      DistStep(i, a + 1, n);
      DistStep(i, b + 1, n);
    }
  }

  /** Taking away an element that is not in the rest leaves the rest, one smaller. */
  lemma RemoveOne(whole: set<u32>, x: u32, rest: set<u32>)
    requires whole == rest + {x} && x !in rest
    ensures whole - {x} == rest
    ensures |rest| == |whole| - 1
  {
  }

  /**
   * Moving the next pending item of a run into the table keeps the table's
   * items and the rest of the run disjoint, with the same union.
   */
  lemma PendingStep(stored: set<u32>, p: seq<u32>, t: nat, target: set<u32>)
    requires t < |p| && Distinct(p)
    requires stored + Elems(p[t..]) == target && stored !! Elems(p[t..])
    ensures p[t] !in stored && |stored| < |target|
    ensures (stored + {p[t]}) + Elems(p[t + 1..]) == target
    ensures (stored + {p[t]}) !! Elems(p[t + 1..])
  {
    assert p[t] in Elems(p[t..]);
    assert Elems(p[t..]) == {p[t]} + Elems(p[t + 1..]) by {
      assert p[t..] == [p[t]] + p[t + 1..];
    }
    assert p[t] !in Elems(p[t + 1..]);
    SubsetCard(stored + {p[t]}, target);
  }

  // ---------------------------------------------------------------------
  // Export

  /** The occupied slots' items, in slot order. */
  ghost function NonEmpty(p: seq<u32>): (r: seq<u32>)
    decreases |p|
  {
    if p == [] then []
    else NonEmpty(p[..|p| - 1]) + (if p[|p| - 1] != EMPTY then [p[|p| - 1]] else [])
  }

  /** Scanning one more slot appends that slot's item, if any. */
  lemma NonEmptySnoc(p: seq<u32>, k: nat)
    requires k < |p|
    ensures NonEmpty(p[..k + 1]) == NonEmpty(p[..k]) + (if p[k] != EMPTY then [p[k]] else [])
  {
    assert p[..k + 1][..k] == p[..k];
  }

  lemma {:induction false} NonEmptyContents(p: seq<u32>)
    requires NoDuplicates(p)
    ensures Elems(NonEmpty(p)) == Items(p)
    ensures Distinct(NonEmpty(p))
    ensures |NonEmpty(p)| == |Items(p)|
    decreases |p|
  {
    if p != [] {
      var p' := p[..|p| - 1];
      var x := p[|p| - 1];
      assert p == p' + [x];
      assert NoDuplicates(p');
      NonEmptyContents(p');
      if x != EMPTY {
        assert x !in Items(p');
        CollectOne(p', x, NonEmpty(p'));
      } else {
        assert Items(p) == Items(p');
      }
    }
  }

  /** One more occupied slot, holding an item not seen before. */
  lemma CollectOne(p: seq<u32>, x: u32, q: seq<u32>)
    requires Elems(q) == Items(p) && Distinct(q) && |q| == |Items(p)|
    requires x != EMPTY && x !in Items(p)
    ensures Elems(q + [x]) == Items(p + [x])
    ensures Distinct(q + [x])
    ensures |q + [x]| == |Items(p + [x])|
  {
    assert Items(p + [x]) == Items(p) + {x};
    assert Elems(q + [x]) == Elems(q) + {x};
    assert x !in q;
  }

  /** The slot array read circularly from slot `m`. */
  ghost function Rotated(s: seq<u32>, m: nat): (r: seq<u32>)
    requires m < |s|
    ensures |r| == |s|
  {
    s[m..] + s[..m]
  }

  lemma RotatedAt(s: seq<u32>, m: nat, k: nat)
    requires m < |s| && k < |s|
    ensures Rotated(s, m)[k] == s[Step(m, k, |s|)]
  {
  }

  /** Reading circularly from any slot sees the same items, still without repeats. */
  lemma RotatedSameItems(s: seq<u32>, m: nat)
    requires NoDuplicates(s) && m < |s|
    ensures Items(Rotated(s, m)) == Items(s)
    ensures NoDuplicates(Rotated(s, m))
  {
    var r := Rotated(s, m);
    var n := |s|;
    forall k | 0 <= k < n
      ensures r[k] == s[Step(m, k, n)]
    {
      RotatedAt(s, m, k);
    }
    forall x | x in Items(s)
      ensures x in Items(r)
    {
      var j :| 0 <= j < n && s[j] == x;
      StepDist(m, j, n);
      assert r[Dist(m, j, n)] == x;
    }
    forall a, b | 0 <= a < n && 0 <= b < n && a != b && r[a] != EMPTY
      ensures r[a] != r[b]
    {
      DistStep(m, a, n);
      DistStep(m, b, n);
    }
  }
}
