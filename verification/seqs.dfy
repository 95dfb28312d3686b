/**
 Sequence folds used by the aggregations and the queries: sums of a
 numeric field, filtering, and sorting by an integer key (the model of a
 store query's `.sort(...)`).
 */
module Seqs {

  /** Sum of `f` over the elements of `s`, the model of `reduce` from 0.
      It folds from the right; with exact reals that gives the same sum as
      the left-to-right `reduce`. */
  function SumReal<T>(s: seq<T>, f: T -> real): real
  {
    if |s| == 0 then 0.0 else f(s[0]) + SumReal(s[1..], f)
  }

  /** Integer version of `SumReal`, for the whole-minute fields. */
  function SumInt<T>(s: seq<T>, f: T -> int): int
  {
    if |s| == 0 then 0 else f(s[0]) + SumInt(s[1..], f)
  }

  /** A sum over a concatenation splits into the two sums. */
  lemma {:induction false} SumRealConcat<T>(a: seq<T>, b: seq<T>, f: T -> real)
    ensures SumReal(a + b, f) == SumReal(a, f) + SumReal(b, f)
    decreases |a|
  {
    if |a| == 0 {
      assert a + b == b;
    } else {
      assert (a + b)[1..] == a[1..] + b;
      SumRealConcat(a[1..], b, f);
    }
  }

  /** Taking one element out of a sum. */
  lemma SumRealRemove<T>(b: seq<T>, i: nat, f: T -> real)
    requires i < |b|
    ensures SumReal(b, f) == f(b[i]) + SumReal(b[..i] + b[i + 1..], f)
  {
    assert b == b[..i] + [b[i]] + b[i + 1..];
    SumRealConcat(b[..i] + [b[i]], b[i + 1..], f);
    SumRealConcat(b[..i], [b[i]], f);
    SumRealConcat(b[..i], b[i + 1..], f);
    assert SumReal([b[i]], f) == f(b[i]) + SumReal([b[i]][1..], f);
  }

  /** Taking one element out of a multiset of a sequence. */
  lemma MultisetRemove<T>(b: seq<T>, i: nat)
    requires i < |b|
    ensures multiset(b[..i] + b[i + 1..]) == multiset(b) - multiset{b[i]}
  {
    assert b == b[..i] + ([b[i]] + b[i + 1..]);
  }

  /** Splicing one element between two sequences adds it to the multiset. */
  lemma MultisetSplice<T>(x: seq<T>, v: T, y: seq<T>)
    ensures multiset(x + ([v] + y)) == multiset{v} + multiset(x + y)
  {
  }

  /** A position at which an element of `multiset(b)` occurs in `b`. */
  lemma IndexIn<T>(b: seq<T>, x: T) returns (i: nat)
    requires x in multiset(b)
    ensures i < |b| && b[i] == x
  {
    assert x in b;
    i :| i < |b| && b[i] == x;
  }

  /** Removing matching elements from two permutations of each other
      leaves permutations of each other. */
  lemma PermutationTail<T>(a: seq<T>, b: seq<T>, i: nat)
    requires multiset(a) == multiset(b)
    requires 0 < |a| && i < |b| && b[i] == a[0]
    ensures multiset(a[1..]) == multiset(b[..i] + b[i + 1..])
  {
    MultisetTail(a);
    MultisetRemove(b, i);
  }

  /** The multiset of a tail lacks one copy of the head. */
  lemma MultisetTail<T>(a: seq<T>)
    requires 0 < |a|
    ensures multiset(a[1..]) == multiset(a) - multiset{a[0]}
  {
    assert a == [a[0]] + a[1..];
  }

  /** The sum does not depend on the order of the elements. */
  lemma {:induction false} SumRealPermutation<T>(a: seq<T>, b: seq<T>, f: T -> real)
    requires multiset(a) == multiset(b)
    ensures SumReal(a, f) == SumReal(b, f)
    decreases |a|
  {
    if |a| == 0 {
      assert |multiset(b)| == 0;
    } else {
      var i := IndexIn(b, a[0]);
      var rest := b[..i] + b[i + 1..];
      PermutationTail(a, b, i);
      SumRealPermutation(a[1..], rest, f);
      SumRealRemove(b, i, f);
      assert SumReal(a, f) == f(a[0]) + SumReal(a[1..], f);
    }
  }

  /** `SumInt` agrees with `SumReal` over the same values seen as reals. */
  lemma {:induction false} SumIntAsReal<T>(s: seq<T>, f: T -> int, g: T -> real)
    requires forall x :: g(x) == f(x) as real
    ensures SumInt(s, f) as real == SumReal(s, g)
    decreases |s|
  {
    if |s| > 0 {
      SumIntAsReal(s[1..], f, g);
    }
  }

  /** Integer sums are order-independent too. */
  lemma SumIntPermutation<T>(a: seq<T>, b: seq<T>, f: T -> int)
    requires multiset(a) == multiset(b)
    ensures SumInt(a, f) == SumInt(b, f)
  {
    var g := (x: T) => f(x) as real;
    SumIntAsReal(a, f, g);
    SumIntAsReal(b, f, g);
    SumRealPermutation(a, b, g);
  }

  /** A sum of non-negative values is non-negative. */
  lemma {:induction false} SumRealNonNegative<T>(s: seq<T>, f: T -> real)
    requires forall i :: 0 <= i < |s| ==> f(s[i]) >= 0.0
    ensures SumReal(s, f) >= 0.0
    decreases |s|
  {
    if |s| > 0 {
      SumRealNonNegative(s[1..], f);
    }
  }

  /** Integer counterpart of `SumRealNonNegative`. */
  lemma {:induction false} SumIntNonNegative<T>(s: seq<T>, f: T -> int)
    requires forall i :: 0 <= i < |s| ==> f(s[i]) >= 0
    ensures SumInt(s, f) >= 0
    decreases |s|
  {
    if |s| > 0 {
      SumIntNonNegative(s[1..], f);
    }
  }

  /** The elements of `s` that satisfy `p`, in their original order. */
  function Filter<T>(s: seq<T>, p: T -> bool): (r: seq<T>)
    ensures |r| <= |s|
  {
    if |s| == 0 then []
    else if p(s[0]) then [s[0]] + Filter(s[1..], p)
    else Filter(s[1..], p)
  }

  /** Filtering keeps exactly the elements that satisfy `p`. */
  lemma {:induction false} FilterMembers<T>(s: seq<T>, p: T -> bool)
    ensures forall y :: y in Filter(s, p) <==> y in s && p(y)
    decreases |s|
  {
    if |s| > 0 {
      FilterMembers(s[1..], p);
      assert s == [s[0]] + s[1..];
    }
  }

  /** Nothing survives the filter exactly when no element satisfies `p`. */
  lemma FilterEmpty<T>(s: seq<T>, p: T -> bool)
    ensures Filter(s, p) == [] <==> forall i :: 0 <= i < |s| ==> !p(s[i])
  {
    FilterMembers(s, p);
    var r := Filter(s, p);
    if r != [] {
      assert r[0] in r;
    }
  }

  /** Filtering a sequence extended by one element extends the filtered
      sequence by that element exactly when it satisfies `p`. */
  lemma {:induction false} FilterAppend<T>(s: seq<T>, x: T, p: T -> bool)
    ensures Filter(s + [x], p) == Filter(s, p) + (if p(x) then [x] else [])
    decreases |s|
  {
    if |s| == 0 {
      assert s + [x] == [x];
      assert [x][1..] == [];
    } else {
      assert (s + [x])[1..] == s[1..] + [x];
      FilterAppend(s[1..], x, p);
    }
  }

  /** The first element of `s` that satisfies `p`: what `findOne` returns
      when the store is scanned in its natural order. */
  function FindFirst<T>(s: seq<T>, p: T -> bool): (r: nat)
    ensures r <= |s|
    ensures r < |s| ==> p(s[r])
    ensures forall i :: 0 <= i < r ==> !p(s[i])
  {
    if |s| == 0 then 0
    else if p(s[0]) then 0
    else 1 + FindFirst(s[1..], p)
  }

  /** `s` is in non-decreasing order of `key`. */
  predicate SortedBy<T>(s: seq<T>, key: T -> int)
  {
    forall i, j :: 0 <= i < j < |s| ==> key(s[i]) <= key(s[j])
  }

  /** Inserts `x` before the first element whose key is not smaller. */
  function Insert<T>(x: T, s: seq<T>, key: T -> int): (r: seq<T>)
    ensures |r| == |s| + 1
    ensures multiset(r) == multiset(s) + multiset{x}
  {
    if |s| == 0 then [x]
    else if key(x) <= key(s[0]) then [x] + s
    else
      assert s == [s[0]] + s[1..];
      [s[0]] + Insert(x, s[1..], key)
  }

  /** Inserting into a sorted sequence keeps it sorted. */
  lemma {:induction false} InsertSorted<T>(x: T, s: seq<T>, key: T -> int)
    requires SortedBy(s, key)
    ensures SortedBy(Insert(x, s, key), key)
    decreases |s|
  {
    if |s| > 0 && key(x) > key(s[0]) {
      var tail := Insert(x, s[1..], key);
      InsertSorted(x, s[1..], key);
      forall k | 0 <= k < |tail|
        ensures key(s[0]) <= key(tail[k])
      {
        assert tail[k] in multiset(tail);
        if tail[k] != x {
          assert tail[k] in multiset(s[1..]);
          var j :| 0 <= j < |s[1..]| && s[1..][j] == tail[k];
          assert s[j + 1] == tail[k];
        }
      }
    }
  }

  /** Insertion sort by `key`: a permutation of `s` in ascending key order.
      Elements with equal keys keep their relative order. */
  function SortBy<T>(s: seq<T>, key: T -> int): (r: seq<T>)
    ensures SortedBy(r, key)
    ensures multiset(r) == multiset(s)
    ensures |r| == |s|
  {
    if |s| == 0 then []
    else
      assert s == [s[0]] + s[1..];
      var rest := SortBy(s[1..], key);
      InsertSorted(s[0], rest, key);
      Insert(s[0], rest, key)
  }

  /** The head of a sorted sequence has the least key of all its elements. */
  lemma SortedHeadIsLeast<T>(s: seq<T>, key: T -> int, y: T)
    requires SortedBy(s, key)
    requires y in s
    ensures key(s[0]) <= key(y)
  {
    var j :| 0 <= j < |s| && s[j] == y;
    if j > 0 {
      assert key(s[0]) <= key(s[j]);
    }
  }
}
