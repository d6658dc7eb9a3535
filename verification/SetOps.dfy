/** Sorted-merge set algebra: setDifference and setIntersection of goal/util.go and
    sliceUnion of coord/update.go. All three sort their arguments in place. */
module SetOps {
  import opened Orders

  predicate HasEquivalent<T>(less: (T, T) -> bool, x: T, s: seq<T>) {
    exists k | 0 <= k < |s| :: Equivalent(less, x, s[k])
  }

  /** The elements of `a`, in order and with repetitions, that have no equivalent in `b`. */
  function Without<T>(less: (T, T) -> bool, a: seq<T>, b: seq<T>): seq<T> {
    if a == [] then []
    else
      var last := |a| - 1;
      Without(less, a[..last], b) + (if HasEquivalent(less, a[last], b) then [] else [a[last]])
  }

  /** How many elements of `s` are equivalent to `x`. */
  function Occurrences<T>(less: (T, T) -> bool, x: T, s: seq<T>): nat {
    if s == [] then 0
    else (if Equivalent(less, x, s[0]) then 1 else 0) + Occurrences(less, x, s[1..])
  }

  function Min(a: nat, b: nat): nat { if a < b then a else b }

  /** The merge loop shared by setIntersection and sliceUnion, from a pair of suffixes. */
  function Merge<T>(less: (T, T) -> bool, a: seq<T>, b: seq<T>): seq<T>
    decreases |a| + |b|
  {
    if a == [] || b == [] then []
    else if less(a[0], b[0]) then Merge(less, a[1..], b)
    else if less(b[0], a[0]) then Merge(less, a, b[1..])
    else [a[0]] + Merge(less, a[1..], b[1..])
  }

  // ----- what Without means -----

  /** `Without` keeps each value of `a` with its multiplicity, or drops it altogether. */
  lemma {:induction false} WithoutCounts<T>(less: (T, T) -> bool, a: seq<T>, b: seq<T>, x: T)
    ensures multiset(Without(less, a, b))[x]
            == if HasEquivalent(less, x, b) then 0 else multiset(a)[x]
  {
    if a != [] {
      var last := |a| - 1;
      WithoutCounts(less, a[..last], b, x);
      assert a == a[..last] + [a[last]];
    }
  }

  lemma {:induction false} WithoutSorted<T>(less: (T, T) -> bool, a: seq<T>, b: seq<T>)
    requires Sorted(less, a)
    ensures Sorted(less, Without(less, a, b))
  {
    if a != [] {
      var last := |a| - 1;
      WithoutSorted(less, a[..last], b);
      var r := Without(less, a[..last], b);
      forall k | 0 <= k < |r| ensures !less(a[last], r[k]) {
        assert r[k] in multiset(r);
        WithoutCounts(less, a[..last], b, r[k]);
        assert r[k] in multiset(a[..last]);
        assert r[k] in a[..last];
      }
    }
  }

  /** Membership form: the difference is exactly the values of `a` with no equivalent in `b`. */
  lemma WithoutMembers<T>(less: (T, T) -> bool, a: seq<T>, b: seq<T>, x: T)
    ensures x in Without(less, a, b) <==> x in a && !HasEquivalent(less, x, b)
  {
    WithoutCounts(less, a, b, x);
    assert x in Without(less, a, b) <==> x in multiset(Without(less, a, b));
    assert x in a <==> x in multiset(a);
  }

  /** One round of setDifference: `b[..j]` is what the inner loop has skipped as too small. */
  lemma DifferenceStep<T(!new)>(less: (T, T) -> bool, a: seq<T>, b: seq<T>, i: nat, j: nat)
    requires StrictWeak(less) && Sorted(less, b)
    requires i < |a| && j <= |b|
    requires forall k | 0 <= k < j :: less(b[k], a[i])
    requires j < |b| ==> !less(b[j], a[i])
    ensures Without(less, a[..i+1], b)
            == Without(less, a[..i], b) + (if j == |b| || less(a[i], b[j]) then [a[i]] else [])
  {
    assert a[..i+1][..i] == a[..i] && a[..i+1][i] == a[i];
    if j < |b| && !less(a[i], b[j]) {
      assert Equivalent(less, a[i], b[j]);
    } else {
      forall k | 0 <= k < |b| ensures !Equivalent(less, a[i], b[k]) {
        if j < k {
          assert Splits(less, a[i], b[j], b[k]);
        }
      }
    }
  }

  /** The merge loop of setDifference, over slices that are already sorted. */
  method DifferenceOfSorted<T(!new)>(a: seq<T>, b: seq<T>, less: (T, T) -> bool) returns (diff: seq<T>)
    requires StrictWeak(less) && Sorted(less, a) && Sorted(less, b)
    ensures diff == Without(less, a, b)
  {
    diff := [];
    var i, j := 0, 0;
    while i < |a|
      invariant 0 <= i <= |a| && 0 <= j <= |b|
      invariant i < |a| ==> forall k | 0 <= k < j :: less(b[k], a[i])
      invariant diff == Without(less, a[..i], b)
    {
      while j < |b| && less(b[j], a[i])
        invariant 0 <= j <= |b|
        invariant forall k | 0 <= k < j :: less(b[k], a[i])
      {
        j := j + 1;
      }
      DifferenceStep(less, a, b, i, j);
      if j == |b| || less(a[i], b[j]) {
        diff := diff + [a[i]];
      }
      i := i + 1;
      if i < |a| {
        forall k | 0 <= k < j ensures less(b[k], a[i]) {
          assert Splits(less, b[k], a[i-1], a[i]);
        }
      }
    }
    assert a[..|a|] == a;
  }

  /** goal/util.go setDifference. */
  method SetDifference<T(!new)>(a: array<T>, b: array<T>, less: (T, T) -> bool) returns (diff: seq<T>)
    requires StrictWeak(less)
    modifies a, b
    ensures Sorted(less, a[..]) && multiset(a[..]) == multiset(old(a[..]))
    ensures Sorted(less, b[..]) && multiset(b[..]) == multiset(old(b[..]))
    ensures diff == Without(less, a[..], b[..])
  {
    SortSlice(a, less);
    SortSlice(b, less);
    diff := DifferenceOfSorted(a[..], b[..], less);
  }

  // ----- what Merge means -----

  lemma {:induction false} NoOccurrences<T(!new)>(less: (T, T) -> bool, x: T, s: seq<T>)
    requires forall k | 0 <= k < |s| :: !Equivalent(less, x, s[k])
    ensures Occurrences(less, x, s) == 0
  {
    if s != [] {
      NoOccurrences(less, x, s[1..]);
    }
  }

  /** An element smaller than the head of a sorted sequence has no equivalent in it. */
  lemma BelowHead<T(!new)>(less: (T, T) -> bool, x: T, y: T, s: seq<T>)
    requires StrictWeak(less) && Sorted(less, s) && s != []
    requires less(x, s[0]) && Equivalent(less, y, x)
    ensures Occurrences(less, y, s) == 0
  {
    forall k | 0 <= k < |s| ensures !Equivalent(less, y, s[k]) {
      assert Splits(less, x, s[0], s[k]);
      assert Splits(less, x, s[k], y);
    }
    NoOccurrences(less, y, s);
  }

  lemma SameClass<T(!new)>(less: (T, T) -> bool, x: T, y: T, z: T)
    requires StrictWeak(less) && Equivalent(less, y, z)
    ensures Equivalent(less, x, y) <==> Equivalent(less, x, z)
  {
    assert Splits(less, x, y, z) && Splits(less, y, x, z) && Splits(less, x, z, y) && Splits(less, z, x, y);
  }

  /** On sorted inputs the merge keeps, of every class of equivalent values, the smaller count. */
  lemma {:induction false} MergeCounts<T(!new)>(less: (T, T) -> bool, a: seq<T>, b: seq<T>, x: T)
    requires StrictWeak(less) && Sorted(less, a) && Sorted(less, b)
    ensures Occurrences(less, x, Merge(less, a, b))
            == Min(Occurrences(less, x, a), Occurrences(less, x, b))
    decreases |a| + |b|
  {
    if a == [] || b == [] {
    } else if less(a[0], b[0]) {
      MergeCounts(less, a[1..], b, x);
      if Equivalent(less, x, a[0]) {
        BelowHead(less, a[0], x, b);
      }
    } else if less(b[0], a[0]) {
      MergeCounts(less, a, b[1..], x);
      if Equivalent(less, x, b[0]) {
        BelowHead(less, b[0], x, a);
      }
    } else {
      MergeCounts(less, a[1..], b[1..], x);
      SameClass(less, x, a[0], b[0]);
    }
  }

  /** The merge only ever takes elements of `a`, never more often than `a` has them, in order. */
  lemma {:induction false} MergeFromLeft<T(!new)>(less: (T, T) -> bool, a: seq<T>, b: seq<T>)
    requires Sorted(less, a)
    ensures multiset(Merge(less, a, b)) <= multiset(a)
    ensures Sorted(less, Merge(less, a, b))
    decreases |a| + |b|
  {
    if a == [] || b == [] {
    } else if less(a[0], b[0]) {
      MergeFromLeft(less, a[1..], b);
      assert a == [a[0]] + a[1..];
    } else if less(b[0], a[0]) {
      MergeFromLeft(less, a, b[1..]);
    } else {
      var rest := Merge(less, a[1..], b[1..]);
      MergeFromLeft(less, a[1..], b[1..]);
      assert a == [a[0]] + a[1..];
      NoneBelow(less, a, rest);
    }
  }

  lemma NoneBelow<T(!new)>(less: (T, T) -> bool, a: seq<T>, rest: seq<T>)
    requires a != [] && Sorted(less, a) && multiset(rest) <= multiset(a[1..]) && Sorted(less, rest)
    ensures Sorted(less, [a[0]] + rest)
  {
    forall k | 0 <= k < |rest| ensures !less(rest[k], a[0]) {
      assert rest[k] in multiset(rest);
      assert rest[k] in a[1..];
    }
  }

  lemma {:induction false} OccurrencesTotal<T(!new)>(less: (T, T) -> bool, x: T, s: seq<T>)
    requires StrictTotal(less)
    ensures Occurrences(less, x, s) == multiset(s)[x]
  {
    if s != [] {
      OccurrencesTotal(less, x, s[1..]);
      assert s == [s[0]] + s[1..];
      assert Equivalent(less, x, s[0]) <==> x == s[0];
    }
  }

  /** Under a total order the merge is multiset intersection, repeated values included. */
  lemma MergeIntersects<T(!new)>(less: (T, T) -> bool, a: seq<T>, b: seq<T>)
    requires StrictTotal(less) && Sorted(less, a) && Sorted(less, b)
    ensures multiset(Merge(less, a, b)) == multiset(a) * multiset(b)
  {
    forall x ensures multiset(Merge(less, a, b))[x] == (multiset(a) * multiset(b))[x] {
      MergeCounts(less, a, b, x);
      OccurrencesTotal(less, x, a);
      OccurrencesTotal(less, x, b);
      OccurrencesTotal(less, x, Merge(less, a, b));
    }
  }

  /** One round of either merge loop. */
  lemma MergeStep<T>(less: (T, T) -> bool, a: seq<T>, b: seq<T>, i: nat, j: nat)
    requires i < |a| && j < |b|
    ensures Merge(less, a[i..], b[j..])
            == if less(a[i], b[j]) then Merge(less, a[i+1..], b[j..])
               else if less(b[j], a[i]) then Merge(less, a[i..], b[j+1..])
               else [a[i]] + Merge(less, a[i+1..], b[j+1..])
  {
    assert a[i..][1..] == a[i+1..] && b[j..][1..] == b[j+1..];
  }

  /** The merge loop of setIntersection, over slices that are already sorted. */
  method IntersectionOfSorted<T(!new)>(a: seq<T>, b: seq<T>, less: (T, T) -> bool) returns (inter: seq<T>)
    ensures inter == Merge(less, a, b)
  {
    inter := [];
    var i, j := 0, 0;
    while i < |a| && j < |b|
      invariant 0 <= i <= |a| && 0 <= j <= |b|
      invariant Merge(less, a, b) == inter + Merge(less, a[i..], b[j..])
      decreases |a| + |b| - i - j
    {
      MergeStep(less, a, b, i, j);
      if less(a[i], b[j]) {
        i := i + 1;
      } else if less(b[j], a[i]) {
        j := j + 1;
      } else {
        inter := inter + [a[i]];
        i, j := i + 1, j + 1;
      }
    }
  }

  /** goal/util.go setIntersection. */
  method SetIntersection<T(!new)>(a: array<T>, b: array<T>, less: (T, T) -> bool) returns (inter: seq<T>)
    requires StrictWeak(less)
    modifies a, b
    ensures Sorted(less, a[..]) && multiset(a[..]) == multiset(old(a[..]))
    ensures Sorted(less, b[..]) && multiset(b[..]) == multiset(old(b[..]))
    ensures Sorted(less, inter) && multiset(inter) <= multiset(old(a[..]))
    ensures forall x :: Occurrences(less, x, inter)
                        == Min(Occurrences(less, x, a[..]), Occurrences(less, x, b[..]))
  {
    SortSlice(a, less);
    SortSlice(b, less);
    inter := IntersectionOfSorted(a[..], b[..], less);
    MergeFromLeft(less, a[..], b[..]);
    forall x ensures Occurrences(less, x, inter)
                     == Min(Occurrences(less, x, a[..]), Occurrences(less, x, b[..]))
    {
      MergeCounts(less, a[..], b[..], x);
    }
  }

  /** The merge loop of sliceUnion. Its three-way comparison covers every case only because the
      order is total: then i + j grows in every round. */
  method UnionOfSorted<T(!new,==)>(a: seq<T>, b: seq<T>, less: (T, T) -> bool) returns (result: seq<T>)
    requires StrictTotal(less)
    ensures result == Merge(less, a, b)
  {
    result := [];
    var i, j := 0, 0;
    while i < |a| && j < |b|
      invariant 0 <= i <= |a| && 0 <= j <= |b|
      invariant Merge(less, a, b) == result + Merge(less, a[i..], b[j..])
      decreases |a| + |b| - i - j
    {
      MergeStep(less, a, b, i, j);
      var x, y := a[i], b[j];
      if x == y {
        result := result + [x];
        i, j := i + 1, j + 1;
      } else if less(x, y) {
        i := i + 1;
      } else if less(y, x) {
        j := j + 1;
      }
    }
  }

  /** coord/update.go sliceUnion. In spite of its name it intersects. */
  method SliceUnion<T(!new,==)>(a: array<T>, b: array<T>, less: (T, T) -> bool) returns (result: seq<T>)
    requires StrictTotal(less)
    modifies a, b
    ensures Sorted(less, result)
    ensures multiset(result) == multiset(old(a[..])) * multiset(old(b[..]))
    ensures multiset(a[..]) == multiset(old(a[..])) && multiset(b[..]) == multiset(old(b[..]))
  {
    SortSlice(a, less);
    SortSlice(b, less);
    result := UnionOfSorted(a[..], b[..], less);
    MergeFromLeft(less, a[..], b[..]);
    MergeIntersects(less, a[..], b[..]);
  }
}
