/**
 * The two-pointer merge used to combine two ascending runs of 32-bit items
 * into one output range, as a function on sequences, and what it
 * guarantees.
 */
module SortedMerge {
  import opened Words

  /**
   * At each step: if `b` is used up take from `a`, else if `a` is used up
   * take from `b`, else take the smaller head, preferring `b` on a tie.
   */
  function Merge(a: seq<u32>, b: seq<u32>): (r: seq<u32>)
    decreases |a| + |b|
  {
    if |b| == 0 then a
    else if |a| == 0 then b
    else if a[0] < b[0] then [a[0]] + Merge(a[1..], b)
    else [b[0]] + Merge(a, b[1..])
  }

  /** After `done`, taking the head of `a` is the next step of the merge. */
  lemma MergeTakesA(done: seq<u32>, a: seq<u32>, b: seq<u32>, whole: seq<u32>)
    requires done + Merge(a, b) == whole
    requires |a| > 0 && (|b| == 0 || a[0] < b[0])
    ensures (done + [a[0]]) + Merge(a[1..], b) == whole
  {
    var tail := Merge(a[1..], b);
    assert Merge(a, b) == [a[0]] + tail;
    assert done + ([a[0]] + tail) == (done + [a[0]]) + tail;
  }

  /** After `done`, taking the head of `b` is the next step of the merge. */
  lemma MergeTakesB(done: seq<u32>, a: seq<u32>, b: seq<u32>, whole: seq<u32>)
    requires done + Merge(a, b) == whole
    requires |b| > 0 && (|a| == 0 || !(a[0] < b[0]))
    ensures (done + [b[0]]) + Merge(a, b[1..]) == whole
  {
    var tail := Merge(a, b[1..]);
    assert Merge(a, b) == [b[0]] + tail;
    assert done + ([b[0]] + tail) == (done + [b[0]]) + tail;
  }

  lemma {:induction false} MergeLength(a: seq<u32>, b: seq<u32>)
    ensures |Merge(a, b)| == |a| + |b|
    decreases |a| + |b|
  {
    if |b| != 0 && |a| != 0 {
      if a[0] < b[0] {
        MergeLength(a[1..], b);
      } else {
        MergeLength(a, b[1..]);
      }
    }
  }

  ghost predicate Sorted(s: seq<u32>) {
    forall i, j :: 0 <= i < j < |s| ==> s[i] <= s[j]
  }

  /** Ascending and duplicate-free. */
  ghost predicate StrictlySorted(s: seq<u32>) {
    forall i, j :: 0 <= i < j < |s| ==> s[i] < s[j]
  }

  /** The output has every input element, as often as the inputs have it together. */
  lemma {:induction false} MergeIsPermutation(a: seq<u32>, b: seq<u32>)
    ensures multiset(Merge(a, b)) == multiset(a) + multiset(b)
    ensures |Merge(a, b)| == |a| + |b|
    decreases |a| + |b|
  {
    if |b| == 0 {
      assert b == [];
    } else if |a| == 0 {
      assert a == [];
    } else if a[0] < b[0] {
      MergeIsPermutation(a[1..], b);
      assert a == [a[0]] + a[1..];
    } else {
      MergeIsPermutation(a, b[1..]);
      assert b == [b[0]] + b[1..];
    }
  }

  /** Every element of the merge is at least `x` when every input element is. */
  lemma {:induction false} MergeLowerBound(a: seq<u32>, b: seq<u32>, x: u32)
    requires forall i :: 0 <= i < |a| ==> x <= a[i]
    requires forall i :: 0 <= i < |b| ==> x <= b[i]
    ensures forall i :: 0 <= i < |Merge(a, b)| ==> x <= Merge(a, b)[i]
  {
    MergeIsPermutation(a, b);
    forall i | 0 <= i < |Merge(a, b)|
      ensures x <= Merge(a, b)[i]
    {
      var y := Merge(a, b)[i];
      assert y in multiset(Merge(a, b));
      assert y in a || y in b;
    }
  }

  /** Merging two ascending runs gives an ascending run. */
  lemma {:induction false} MergeSorted(a: seq<u32>, b: seq<u32>)
    requires Sorted(a) && Sorted(b)
    ensures Sorted(Merge(a, b))
    decreases |a| + |b|
  {
    if |b| != 0 && |a| != 0 {
      if a[0] < b[0] {
        MergeSorted(a[1..], b);
        MergeLowerBound(a[1..], b, a[0]);
      } else {
        MergeSorted(a, b[1..]);
        MergeLowerBound(a, b[1..], b[0]);
      }
    }
  }

  /** Every element of the merge is above `x` when every input element is. */
  lemma {:induction false} MergeStrictLowerBound(a: seq<u32>, b: seq<u32>, x: u32)
    requires forall i :: 0 <= i < |a| ==> x < a[i]
    requires forall i :: 0 <= i < |b| ==> x < b[i]
    ensures forall i :: 0 <= i < |Merge(a, b)| ==> x < Merge(a, b)[i]
  {
    MergeIsPermutation(a, b);
    forall i | 0 <= i < |Merge(a, b)|
      ensures x < Merge(a, b)[i]
    {
      var y := Merge(a, b)[i];
      assert y in multiset(Merge(a, b));
      assert y in a || y in b;
    }
  }

  /** An item is in the merge exactly when it is in one of the inputs. */
  lemma MergeMembers(a: seq<u32>, b: seq<u32>)
    ensures forall x :: x in Merge(a, b) <==> x in a || x in b
  {
    MergeIsPermutation(a, b);
    forall x
      ensures x in Merge(a, b) <==> x in a || x in b
    {
      assert x in Merge(a, b) <==> x in multiset(Merge(a, b));
      assert x in a <==> x in multiset(a);
      assert x in b <==> x in multiset(b);
    }
  }

  /**
   * Two ascending duplicate-free runs with no item in common merge into an
   * ascending duplicate-free run holding exactly their union.
   */
  lemma {:induction false} MergeDisjointIsUnion(a: seq<u32>, b: seq<u32>)
    requires StrictlySorted(a) && StrictlySorted(b)
    requires forall x :: x in a ==> x !in b
    ensures StrictlySorted(Merge(a, b))
    ensures forall x :: x in Merge(a, b) <==> x in a || x in b
    decreases |a| + |b|
  {
    MergeMembers(a, b);
    if |b| != 0 && |a| != 0 {
      if a[0] < b[0] {
        MergeDisjointIsUnion(a[1..], b);
        MergeStrictLowerBound(a[1..], b, a[0]);
      } else {
        assert a[0] != b[0] by {
          assert a[0] in a;
        }
        MergeDisjointIsUnion(a, b[1..]);
        MergeStrictLowerBound(a, b[1..], b[0]);
      }
    }
  }
}
