/** Strict orders, sorted sequences and sorting, as the set operations of the
    goal and coord packages need them. */
module Orders {

  /** Wherever `z` stands, it is above `x` or below `y`. */
  predicate Splits<T>(less: (T, T) -> bool, x: T, y: T, z: T) {
    less(x, y) ==> less(x, z) || less(z, y)
  }

  /** Asymmetric and negatively transitive: what sort.Slice asks of `less`. */
  ghost predicate StrictWeak<T(!new)>(less: (T, T) -> bool) {
    && (forall x, y :: less(x, y) ==> !less(y, x))
    && (forall x, y, z :: Splits(less, x, y, z))
  }

  /** A strict weak order that tells any two distinct values apart. */
  ghost predicate StrictTotal<T(!new)>(less: (T, T) -> bool) {
    && StrictWeak(less)
    && (forall x, y :: x != y ==> less(x, y) || less(y, x))
  }

  predicate Equivalent<T>(less: (T, T) -> bool, x: T, y: T) {
    !less(x, y) && !less(y, x)
  }

  ghost predicate Sorted<T>(less: (T, T) -> bool, s: seq<T>) {
    forall i, j | 0 <= i < j < |s| :: !less(s[j], s[i])
  }

  function Insert<T>(less: (T, T) -> bool, x: T, s: seq<T>): (r: seq<T>)
    ensures multiset(r) == multiset{x} + multiset(s)
  {
    if s == [] then [x]
    else if less(s[0], x) then
      assert s == [s[0]] + s[1..];
      [s[0]] + Insert(less, x, s[1..])
    else [x] + s
  }

  /** The specification of sorting. Under a total order it is the only sorted permutation. */
  function SortSeq<T>(less: (T, T) -> bool, s: seq<T>): (r: seq<T>)
    ensures multiset(r) == multiset(s)
    ensures |r| == |s|
  {
    if s == [] then []
    else
      assert s == [s[0]] + s[1..];
      var r := Insert(less, s[0], SortSeq(less, s[1..]));
      assert |r| == |multiset(r)| == |multiset(s)|;
      r
  }

  lemma {:induction false} InsertSorted<T(!new)>(less: (T, T) -> bool, x: T, s: seq<T>)
    requires StrictWeak(less) && Sorted(less, s)
    ensures Sorted(less, Insert(less, x, s))
  {
    if s != [] && !less(s[0], x) {
      forall k | 0 <= k < |s| ensures !less(s[k], x) {
        assert Splits(less, s[k], x, s[0]);
      }
    } else if s != [] {
      var r := Insert(less, x, s[1..]);
      InsertSorted(less, x, s[1..]);
      forall k | 0 <= k < |r| ensures !less(r[k], s[0]) {
        assert r[k] in multiset(r);
        assert r[k] == x || r[k] in s[1..];
      }
    }
  }

  lemma {:induction false} SortSeqSorted<T(!new)>(less: (T, T) -> bool, s: seq<T>)
    requires StrictWeak(less)
    ensures Sorted(less, SortSeq(less, s))
  {
    if s != [] {
      SortSeqSorted(less, s[1..]);
      InsertSorted(less, s[0], SortSeq(less, s[1..]));
    }
  }

  lemma HeadOccurs<T>(s: seq<T>, t: seq<T>) returns (i: nat)
    requires s != [] && multiset(s) == multiset(t)
    ensures i < |t| && t[i] == s[0]
  {
    assert s[0] in multiset(t);
    i :| i < |t| && t[i] == s[0];
  }

  lemma SameHead<T(!new)>(less: (T, T) -> bool, s: seq<T>, t: seq<T>)
    requires StrictTotal(less) && Sorted(less, s) && Sorted(less, t)
    requires s != [] && t != [] && multiset(s) == multiset(t)
    ensures s[0] == t[0]
  {
    var i := HeadOccurs(s, t);
    var j := HeadOccurs(t, s);
    assert !less(t[i], t[0]) || i == 0;
    assert !less(s[j], s[0]) || j == 0;
  }

  lemma TailSorted<T>(less: (T, T) -> bool, s: seq<T>)
    requires Sorted(less, s) && s != []
    ensures Sorted(less, s[1..])
  {
  }

  lemma TailElements<T>(s: seq<T>)
    requires s != []
    ensures multiset(s[1..]) == multiset(s) - multiset{s[0]}
  {
    assert s == [s[0]] + s[1..];
  }

  /** Two sorted arrangements of the same elements are the same sequence. */
  lemma {:induction false} SortedUnique<T(!new)>(less: (T, T) -> bool, s: seq<T>, t: seq<T>)
    requires StrictTotal(less)
    requires Sorted(less, s) && Sorted(less, t)
    requires multiset(s) == multiset(t)
    ensures s == t
  {
    assert |multiset(s)| == |s| && |multiset(t)| == |t|;
    if s != [] {
      SameHead(less, s, t);
      TailElements(s);
      TailElements(t);
      TailSorted(less, s);
      TailSorted(less, t);
      SortedUnique(less, s[1..], t[1..]);
      assert s == [s[0]] + s[1..] && t == [t[0]] + t[1..];
    }
  }

  /** Sorting a sorted sequence changes nothing, and nothing else is left unchanged. */
  lemma SortSeqFixed<T(!new)>(less: (T, T) -> bool, s: seq<T>)
    requires StrictTotal(less)
    ensures SortSeq(less, s) == s <==> Sorted(less, s)
  {
    SortSeqSorted(less, s);
    if Sorted(less, s) {
      SortedUnique(less, SortSeq(less, s), s);
    }
  }

  /** Go's sort.Slice: afterwards the slice is some sorted permutation of what it was. */
  method SortSlice<T(!new)>(a: array<T>, less: (T, T) -> bool)
    requires StrictWeak(less)
    modifies a
    ensures Sorted(less, a[..])
    ensures multiset(a[..]) == multiset(old(a[..]))
  {
    var s := SortSeq(less, a[..]);
    SortSeqSorted(less, a[..]);
    forall i | 0 <= i < a.Length {
      a[i] := s[i];
    }
    assert a[..] == s;
  }

  // ----- lexicographic order on sequences -----

  /** bytes.Compare and string comparison: -1, 0 or 1. */
  function Compare<T>(rank: T -> int, a: seq<T>, b: seq<T>): (c: int)
    ensures -1 <= c <= 1
  {
    if a == [] then (if b == [] then 0 else -1)
    else if b == [] then 1
    else if rank(a[0]) < rank(b[0]) then -1
    else if rank(a[0]) > rank(b[0]) then 1
    else Compare(rank, a[1..], b[1..])
  }

  lemma {:induction false} CompareAfter<T>(rank: T -> int, front: seq<T>, a: seq<T>, b: seq<T>)
    ensures Compare(rank, front + a, front + b) == Compare(rank, a, b)
  {
    if front == [] {
      assert front + a == a && front + b == b;
    } else {
      CompareAfter(rank, front[1..], a, b);
      assert (front + a)[1..] == front[1..] + a && (front + b)[1..] == front[1..] + b;
    }
  }

  lemma {:induction false} CompareAntisymmetric<T>(rank: T -> int, a: seq<T>, b: seq<T>)
    ensures Compare(rank, a, b) == -Compare(rank, b, a)
  {
    if a != [] && b != [] {
      CompareAntisymmetric(rank, a[1..], b[1..]);
    }
  }

  lemma {:induction false} CompareTransitive<T>(rank: T -> int, a: seq<T>, b: seq<T>, c: seq<T>)
    requires Compare(rank, a, b) <= 0 && Compare(rank, b, c) <= 0
    ensures Compare(rank, a, c) <= 0
    ensures Compare(rank, a, b) < 0 || Compare(rank, b, c) < 0 ==> Compare(rank, a, c) < 0
  {
    if a != [] && b != [] && c != [] && rank(a[0]) == rank(b[0]) == rank(c[0]) {
      CompareTransitive(rank, a[1..], b[1..], c[1..]);
    }
  }

  lemma {:induction false} CompareZero<T(!new)>(rank: T -> int, a: seq<T>, b: seq<T>)
    requires forall x, y :: rank(x) == rank(y) ==> x == y
    ensures Compare(rank, a, b) == 0 <==> a == b
  {
    if a != [] && b != [] {
      CompareZero(rank, a[1..], b[1..]);
      assert a == [a[0]] + a[1..] && b == [b[0]] + b[1..];
    }
  }

  function CharCode(c: char): int { c as int }

  /** Go's `<` on strings. Code-point order and UTF-8 byte order agree. */
  predicate StringLess(a: string, b: string) {
    Compare(CharCode, a, b) < 0
  }

  lemma StringLessTotal()
    ensures StrictTotal(StringLess)
  {
    forall x, y ensures StringLess(x, y) ==> !StringLess(y, x) {
      CompareAntisymmetric(CharCode, x, y);
    }
    forall x, y, z ensures Splits(StringLess, x, y, z) {
      CompareAntisymmetric(CharCode, x, z);
      CompareAntisymmetric(CharCode, z, y);
      CompareAntisymmetric(CharCode, x, y);
      if StringLess(x, y) && !StringLess(x, z) && !StringLess(z, y) {
        CompareTransitive(CharCode, y, z, x);
      }
    }
    forall x: string, y: string ensures x != y ==> StringLess(x, y) || StringLess(y, x) {
      CompareAntisymmetric(CharCode, x, y);
      CompareZero(CharCode, x, y);
    }
  }

  // ----- the first difference -----

  /** Is position `k` the first difference, with `a` over or smaller there? */
  predicate ComesFirst<T(==)>(rank: T -> int, a: seq<T>, b: seq<T>, k: nat) {
    && k <= |a| && k < |b| && a[..k] == b[..k]
    && (k < |a| ==> rank(a[k]) < rank(b[k]))
  }

  lemma {:induction false} CompareMeans<T(!new)>(rank: T -> int, a: seq<T>, b: seq<T>)
    requires forall x, y :: rank(x) == rank(y) ==> x == y
    ensures Compare(rank, a, b) < 0 <==> exists k: nat :: ComesFirst(rank, a, b, k)
  {
    if a != [] && b != [] && rank(a[0]) == rank(b[0]) {
      CompareMeans(rank, a[1..], b[1..]);
      forall k: nat ensures ComesFirst(rank, a[1..], b[1..], k) <==> ComesFirst(rank, a, b, k + 1) {
        FirstAfterHead(rank, a, b, k);
      }
      assert !ComesFirst(rank, a, b, 0);
      if k: nat :| ComesFirst(rank, a, b, k) {
        assert ComesFirst(rank, a[1..], b[1..], k - 1);
      }
    } else if a == [] || b == [] || rank(a[0]) < rank(b[0]) {
      assert ComesFirst(rank, a, b, 0) <==> b != [];
    } else {
      forall k: nat ensures !ComesFirst(rank, a, b, k) {
        assert k > 0 && k <= |a| && k < |b| ==> a[..k][0] != b[..k][0];
      }
    }
  }

  lemma FirstAfterHead<T>(rank: T -> int, a: seq<T>, b: seq<T>, k: nat)
    requires a != [] && b != [] && a[0] == b[0]
    ensures ComesFirst(rank, a[1..], b[1..], k) <==> ComesFirst(rank, a, b, k + 1)
  {
    if k + 1 <= |a| && k + 1 < |b| {
      assert a[..k+1] == [a[0]] + a[1..][..k] && b[..k+1] == [b[0]] + b[1..][..k];
      assert a[..k+1][1..] == a[1..][..k] && b[..k+1][1..] == b[1..][..k];
    }
  }
}
