/** Stable insertion sort by a comparison, standing for Swift's `sorted(by:)`. */
module Sorting {
  import opened Sequences

  /** Inserts `x` before the first element it must precede. */
  function Insert<T>(x: T, s: seq<T>, lt: (T, T) -> bool): seq<T> {
    if s == [] then [x]
    else if lt(x, s[0]) then [x] + s
    else [s[0]] + Insert(x, s[1..], lt)
  }

  function Sort<T>(s: seq<T>, lt: (T, T) -> bool): seq<T> {
    if s == [] then [] else Insert(s[|s| - 1], Sort(s[..|s| - 1], lt), lt)
  }

  lemma {:induction false} InsertMultiset<T>(x: T, s: seq<T>, lt: (T, T) -> bool)
    ensures multiset(Insert(x, s, lt)) == multiset(s) + multiset{x}
    ensures |Insert(x, s, lt)| == |s| + 1
  {
    if s != [] {
      assert s == [s[0]] + s[1..];
      if !lt(x, s[0]) {
        InsertMultiset(x, s[1..], lt);
      }
    }
  }

  /** Whatever the comparison, sorting only rearranges. */
  lemma {:induction false} SortMultiset<T>(s: seq<T>, lt: (T, T) -> bool)
    ensures multiset(Sort(s, lt)) == multiset(s)
    ensures |Sort(s, lt)| == |s|
  {
    if s != [] {
      var n := |s| - 1;
      SortMultiset(s[..n], lt);
      InsertMultiset(s[n], Sort(s[..n], lt), lt);
      assert s == s[..n] + [s[n]];
    }
  }

  lemma SortSameElements<T>(s: seq<T>, lt: (T, T) -> bool, x: T)
    ensures x in Sort(s, lt) <==> x in s
  {
    SortMultiset(s, lt);
    assert x in Sort(s, lt) <==> x in multiset(Sort(s, lt));
    assert x in s <==> x in multiset(s);
  }

  lemma {:induction false} InsertDistinct<T>(x: T, s: seq<T>, lt: (T, T) -> bool)
    requires Distinct(s) && x !in s
    ensures Distinct(Insert(x, s, lt))
  {
    if s != [] && !lt(x, s[0]) {
      InsertDistinct(x, s[1..], lt);
      var r := Insert(x, s[1..], lt);
      forall j | 0 <= j < |r| ensures r[j] != s[0] {
        InsertMultiset(x, s[1..], lt);
        assert r[j] in multiset(r);
      }
    }
  }

  lemma {:induction false} SortDistinct<T>(s: seq<T>, lt: (T, T) -> bool)
    requires Distinct(s)
    ensures Distinct(Sort(s, lt))
  {
    if s != [] {
      var n := |s| - 1;
      SortDistinct(s[..n], lt);
      SortSameElements(s[..n], lt, s[n]);
      InsertDistinct(s[n], Sort(s[..n], lt), lt);
    }
  }

  ghost predicate StrictlySorted<T>(s: seq<T>, lt: (T, T) -> bool) {
    forall i, j :: 0 <= i < j < |s| ==> lt(s[i], s[j])
  }

  ghost predicate Separates<T>(lt: (T, T) -> bool, x: T, s: seq<T>) {
    forall i :: 0 <= i < |s| ==> lt(x, s[i]) || lt(s[i], x)
  }

  ghost predicate Transitive<T(!new)>(lt: (T, T) -> bool) {
    forall x, y, z :: lt(x, y) && lt(y, z) ==> lt(x, z)
  }

  lemma {:induction false} InsertSorted<T(!new)>(x: T, s: seq<T>, lt: (T, T) -> bool)
    requires StrictlySorted(s, lt) && Transitive(lt) && Separates(lt, x, s)
    ensures StrictlySorted(Insert(x, s, lt), lt)
  {
    if s != [] && !lt(x, s[0]) {
      InsertSorted(x, s[1..], lt);
      var r := Insert(x, s[1..], lt);
      InsertMultiset(x, s[1..], lt);
      forall j | 0 <= j < |r|
        ensures lt(s[0], r[j])
      {
        assert r[j] in multiset(r);
        assert r[j] == x || r[j] in s[1..];
      }
    }
  }

  /** Elements that are pairwise separated come out strictly increasing. */
  lemma {:induction false} SortSorted<T(!new)>(s: seq<T>, lt: (T, T) -> bool)
    requires Transitive(lt)
    requires forall i, j :: 0 <= i < j < |s| ==> lt(s[i], s[j]) || lt(s[j], s[i])
    ensures StrictlySorted(Sort(s, lt), lt)
  {
    if s != [] {
      var n := |s| - 1;
      SortSorted(s[..n], lt);
      forall i | 0 <= i < |Sort(s[..n], lt)|
        ensures lt(s[n], Sort(s[..n], lt)[i]) || lt(Sort(s[..n], lt)[i], s[n])
      {
        SortSameElements(s[..n], lt, Sort(s[..n], lt)[i]);
      }
      InsertSorted(s[n], Sort(s[..n], lt), lt);
    }
  }

  lemma HasHead<T>(s: seq<T>)
    ensures s == [] || s[0] in s
  {}

  /** A strictly sorted sequence is determined by its elements. */
  lemma {:induction false} SortedUnique<T(!new)>(a: seq<T>, b: seq<T>, lt: (T, T) -> bool)
    requires StrictlySorted(a, lt) && StrictlySorted(b, lt) && Transitive(lt) && (forall x :: !lt(x, x))
    requires forall x :: x in a <==> x in b
    ensures a == b
  {
    if a == [] {
      HasHead(b);
    } else {
      assert a[0] in b && b[0] in a;
      assert a[0] == b[0];
      forall x
        ensures x in a[1..] <==> x in b[1..]
      {
        assert x in a[1..] ==> x in a && x != a[0];
        assert x in b[1..] ==> x in b && x != b[0];
      }
      SortedUnique(a[1..], b[1..], lt);
    }
  }

  // ---------- Comparisons that leave ties ----------

  /** On the elements of `s`, `lt` is asymmetric and its negation is transitive: a strict weak order. */
  ghost predicate WeakOn<T>(lt: (T, T) -> bool, s: seq<T>) {
    && (forall x, y :: x in s && y in s && lt(x, y) ==> !lt(y, x))
    && (forall x, y, z :: x in s && y in s && z in s && !lt(x, y) && !lt(y, z) ==> !lt(x, z))
  }

  ghost predicate Sorted<T>(s: seq<T>, lt: (T, T) -> bool) {
    forall i, j :: 0 <= i < j < |s| ==> !lt(s[j], s[i])
  }

  lemma {:induction false} InsertWeak<T>(x: T, s: seq<T>, lt: (T, T) -> bool, all: seq<T>)
    requires Sorted(s, lt) && WeakOn(lt, all) && x in all && forall y :: y in s ==> y in all
    ensures Sorted(Insert(x, s, lt), lt)
  {
    if s != [] {
      assert s[0] in s;
      if lt(x, s[0]) {
        forall j | 0 <= j < |s| ensures !lt(s[j], x) {
          assert s[j] in s;
          assert j > 0 ==> !lt(s[j], s[0]);
        }
      } else {
        InsertWeak(x, s[1..], lt, all);
        var r := Insert(x, s[1..], lt);
        InsertMultiset(x, s[1..], lt);
        forall j | 0 <= j < |r| ensures !lt(r[j], s[0]) {
          assert r[j] in multiset(r);
          assert r[j] == x || r[j] in s[1..];
        }
      }
    }
  }

  /** Under a strict weak order the sorted list has no element before a smaller one. */
  lemma {:induction false} SortWeak<T>(s: seq<T>, lt: (T, T) -> bool, all: seq<T>)
    requires WeakOn(lt, all) && forall y :: y in s ==> y in all
    ensures Sorted(Sort(s, lt), lt)
  {
    if s != [] {
      var n := |s| - 1;
      SortWeak(s[..n], lt, all);
      forall y | y in Sort(s[..n], lt) ensures y in all { SortSameElements(s[..n], lt, y); }
      InsertWeak(s[n], Sort(s[..n], lt), lt, all);
    }
  }

  /** `a` stands before `b`. */
  ghost predicate StandsBefore<T>(r: seq<T>, a: T, b: T) {
    exists i, j :: 0 <= i < j < |r| && r[i] == a && r[j] == b
  }

  lemma {:induction false} InsertHas<T>(x: T, s: seq<T>, lt: (T, T) -> bool)
    ensures exists j :: 0 <= j < |Insert(x, s, lt)| && Insert(x, s, lt)[j] == x
  {
    if s != [] && !lt(x, s[0]) {
      InsertHas(x, s[1..], lt);
      var j :| 0 <= j < |Insert(x, s[1..], lt)| && Insert(x, s[1..], lt)[j] == x;
      assert Insert(x, s, lt)[j + 1] == x;
    } else {
      assert Insert(x, s, lt)[0] == x;
    }
  }

  /** An element inserted into a sorted list comes after every element it need not precede. */
  lemma {:induction false} InsertAfter<T>(x: T, s: seq<T>, lt: (T, T) -> bool, all: seq<T>, a: T)
    requires Sorted(s, lt) && WeakOn(lt, all) && x in all && (forall y :: y in s ==> y in all)
    requires a in s && !lt(x, a)
    ensures StandsBefore(Insert(x, s, lt), a, x)
  {
    var k :| 0 <= k < |s| && s[k] == a;
    assert s[0] in s && (k > 0 ==> !lt(a, s[0]));
    assert !lt(x, s[0]);
    var rest := Insert(x, s[1..], lt);
    var r := Insert(x, s, lt);
    assert r == [s[0]] + rest;
    if k == 0 {
      InsertHas(x, s[1..], lt);
      var j :| 0 <= j < |rest| && rest[j] == x;
      assert r[0] == a && r[j + 1] == x;
    } else {
      assert s[1..][k - 1] == a;
      InsertAfter(x, s[1..], lt, all, a);
      var i, j :| 0 <= i < j < |rest| && rest[i] == a && rest[j] == x;
      assert r[i + 1] == a && r[j + 1] == x;
    }
  }

  /** Sorting a list with `x` at its end puts `x` after every element it need not precede. */
  lemma SortAfter<T>(front: seq<T>, x: T, lt: (T, T) -> bool, all: seq<T>, a: T)
    requires WeakOn(lt, all) && x in all && (forall y :: y in front ==> y in all)
    requires a in front && !lt(x, a)
    ensures StandsBefore(Sort(front + [x], lt), a, x)
  {
    assert (front + [x])[..|front|] == front;
    SortWeak(front, lt, all);
    forall y | y in Sort(front, lt) ensures y in all { SortSameElements(front, lt, y); }
    SortSameElements(front, lt, a);
    InsertAfter(x, Sort(front, lt), lt, all, a);
  }
}
