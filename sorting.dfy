/** The specification of Python's `sorted(...)` and `list.sort()`: an
    insertion sort over any total order, proved to return an ordered
    permutation of its input, and the uniqueness of ordered permutations
    (so any correct sort gives the same list). */
module Sorting {

  ghost predicate TotalOrder<T(!new)>(le: (T, T) -> bool)
  {
    && (forall a, b :: le(a, b) || le(b, a))
    && (forall a, b, c :: le(a, b) && le(b, c) ==> le(a, c))
    && (forall a, b :: le(a, b) && le(b, a) ==> a == b)
  }

  predicate SortedBy<T>(s: seq<T>, le: (T, T) -> bool)
  {
    forall i, j :: 0 <= i < j < |s| ==> le(s[i], s[j])
  }

  function Insert<T>(x: T, s: seq<T>, le: (T, T) -> bool): (r: seq<T>)
    ensures |r| == |s| + 1
    ensures multiset(r) == multiset(s) + multiset{x}
  {
    if s == [] then [x]
    else if le(x, s[0]) then [x] + s
    else
      assert s == [s[0]] + s[1..];
      [s[0]] + Insert(x, s[1..], le)
  }

  function SortBy<T>(s: seq<T>, le: (T, T) -> bool): (r: seq<T>)
    ensures |r| == |s|
    ensures multiset(r) == multiset(s)
  {
    if s == [] then []
    else
      assert s == [s[0]] + s[1..];
      Insert(s[0], SortBy(s[1..], le), le)
  }

  lemma {:induction false} InsertSorted<T(!new)>(x: T, s: seq<T>, le: (T, T) -> bool)
    requires TotalOrder(le) && SortedBy(s, le)
    ensures SortedBy(Insert(x, s, le), le)
  {
    if s != [] && !le(x, s[0]) {
      var t := s[1..];
      InsertSorted(x, t, le);
      var r := Insert(x, t, le);
      HeadBelowInsert(x, s, le);
      ConsSorted(s[0], r, le);
      assert Insert(x, s, le) == [s[0]] + r;
    } else if s != [] {
      assert Insert(x, s, le) == [x] + s;
      BelowHead(x, s, le);
      ConsSorted(x, s, le);
    }
  }

  /** When x goes after the head, the head is below everything that
      follows it. */
  lemma HeadBelowInsert<T(!new)>(x: T, s: seq<T>, le: (T, T) -> bool)
    requires TotalOrder(le) && SortedBy(s, le) && s != [] && !le(x, s[0])
    ensures forall k :: 0 <= k < |Insert(x, s[1..], le)| ==> le(s[0], Insert(x, s[1..], le)[k])
  {
    var t := s[1..];
    var r := Insert(x, t, le);
    assert le(s[0], x);
    forall k | 0 <= k < |r| ensures le(s[0], r[k]) {
      assert r[k] in multiset(r);
      if r[k] != x {
        assert r[k] in multiset(t);
        var i :| 0 <= i < |t| && t[i] == r[k];
        assert s[i + 1] == t[i];
      }
    }
  }

  /** A value below every element of an ordered list, put in front, keeps
      it ordered. */
  lemma ConsSorted<T(!new)>(h: T, r: seq<T>, le: (T, T) -> bool)
    requires TotalOrder(le) && SortedBy(r, le)
    requires forall k :: 0 <= k < |r| ==> le(h, r[k])
    ensures SortedBy([h] + r, le)
  {
    forall i, j | 0 <= i < j < |r| + 1 ensures le(([h] + r)[i], ([h] + r)[j]) {
      if i > 0 {
        assert le(r[i - 1], r[j - 1]);
      } else {
        assert le(h, r[j - 1]);
      }
    }
  }

  /** A value below the head of an ordered list is below all of it. */
  lemma BelowHead<T(!new)>(h: T, r: seq<T>, le: (T, T) -> bool)
    requires TotalOrder(le) && SortedBy(r, le) && r != [] && le(h, r[0])
    ensures forall k :: 0 <= k < |r| ==> le(h, r[k])
  {
    forall k | 0 <= k < |r| ensures le(h, r[k]) {
      if k > 0 {
        assert le(r[0], r[k]);
      }
    }
  }

  lemma {:induction false} SortBySorted<T(!new)>(s: seq<T>, le: (T, T) -> bool)
    requires TotalOrder(le)
    ensures SortedBy(SortBy(s, le), le)
  {
    if s != [] {
      SortBySorted(s[1..], le);
      InsertSorted(s[0], SortBy(s[1..], le), le);
    }
  }

  /** Two ordered permutations of the same elements are the same list. */
  lemma {:induction false} SortedUnique<T(!new)>(a: seq<T>, b: seq<T>, le: (T, T) -> bool)
    requires TotalOrder(le) && SortedBy(a, le) && SortedBy(b, le)
    requires multiset(a) == multiset(b)
    ensures a == b
  {
    if a != [] {
      SameHead(a, b, le);
      SortedTail(a, le);
      SortedTail(b, le);
      SortedUnique(a[1..], b[1..], le);
      assert a == [a[0]] + a[1..];
      assert b == [b[0]] + b[1..];
    }
  }

  /** Two non-empty ordered permutations start alike and go on with the
      same elements. */
  lemma SameHead<T(!new)>(a: seq<T>, b: seq<T>, le: (T, T) -> bool)
    requires TotalOrder(le) && SortedBy(a, le) && SortedBy(b, le)
    requires multiset(a) == multiset(b) && a != []
    ensures b != [] && a[0] == b[0] && multiset(a[1..]) == multiset(b[1..])
  {
    assert |b| == |multiset(b)| == |multiset(a)| == |a|;
    HeadIsLeast(a, b[0], le);
    HeadIsLeast(b, a[0], le);
    MultisetTail(a);
    MultisetTail(b);
  }

  lemma HeadIsLeast<T(!new)>(a: seq<T>, x: T, le: (T, T) -> bool)
    requires TotalOrder(le) && SortedBy(a, le) && x in multiset(a)
    ensures le(a[0], x)
  {
    var i :| 0 <= i < |a| && a[i] == x;
    if i == 0 {
      assert le(x, x) || le(x, x);
    }
  }

  lemma SortedTail<T>(a: seq<T>, le: (T, T) -> bool)
    requires a != [] && SortedBy(a, le)
    ensures SortedBy(a[1..], le)
  {
    forall i, j | 0 <= i < j < |a| - 1
      ensures le(a[1..][i], a[1..][j])
    {
      assert le(a[i + 1], a[j + 1]);
    }
  }

  lemma MultisetTail<T>(s: seq<T>)
    requires s != []
    ensures multiset(s[1..]) == multiset(s) - multiset{s[0]}
  {
    assert s == [s[0]] + s[1..];
  }

  function IntLe(x: int, y: int): bool
  {
    x <= y
  }

  predicate Sorted(s: seq<int>)
  {
    forall i, j :: 0 <= i < j < |s| ==> s[i] <= s[j]
  }

  predicate StrictlySorted(s: seq<int>)
  {
    forall i, j :: 0 <= i < j < |s| ==> s[i] < s[j]
  }

  lemma IntLeTotalOrder()
    ensures TotalOrder(IntLe)
  {
  }

  /** `sorted(xs)` on integers. */
  function Sort(s: seq<int>): (r: seq<int>)
    ensures Sorted(r) && multiset(r) == multiset(s) && |r| == |s|
  {
    IntLeTotalOrder();
    SortBySorted(s, IntLe);
    var r := SortBy(s, IntLe);
    assert forall i, j :: 0 <= i < j < |r| ==> IntLe(r[i], r[j]);
    r
  }

  lemma SortedEqual(a: seq<int>, b: seq<int>)
    requires Sorted(a) && Sorted(b) && multiset(a) == multiset(b)
    ensures a == b
  {
    IntLeTotalOrder();
    assert SortedBy(a, IntLe) && SortedBy(b, IntLe);
    SortedUnique(a, b, IntLe);
  }

  /** A strictly increasing list is determined by its set of elements. */
  lemma {:induction false} StrictlySortedUnique(a: seq<int>, b: seq<int>)
    requires StrictlySorted(a) && StrictlySorted(b)
    requires forall x :: x in a <==> x in b
    ensures a == b
  {
    if a != [] && b != [] {
      assert a[0] in a && b[0] in b;
      assert a[0] in b;
      assert b[0] in a;
      assert a[0] == b[0] by {
        var i :| 0 <= i < |b| && b[i] == a[0];
        var j :| 0 <= j < |a| && a[j] == b[0];
        assert b[0] <= b[i];
        assert a[0] <= a[j];
      }
      forall x ensures x in a[1..] <==> x in b[1..] {
        if x in a[1..] {
          var i :| 1 <= i < |a| && a[i] == x;
          assert x in b;
          var j :| 0 <= j < |b| && b[j] == x;
          assert j != 0;
          assert x in b[1..];
        }
        if x in b[1..] {
          var i :| 1 <= i < |b| && b[i] == x;
          assert x in a;
          var j :| 0 <= j < |a| && a[j] == x;
          assert j != 0;
          assert x in a[1..];
        }
      }
      StrictlySortedUnique(a[1..], b[1..]);
      assert a == [a[0]] + a[1..];
      assert b == [b[0]] + b[1..];
    } else {
      EmptyTogether(a, b);
    }
  }

  lemma EmptyTogether(a: seq<int>, b: seq<int>)
    requires forall x :: x in a <==> x in b
    ensures a == [] <==> b == []
  {
    if a != [] {
      var x := a[0];
      assert x in a;
      assert x in b;
      assert |b| > 0;
    }
    if b != [] {
      var x := b[0];
      assert x in b;
      assert x in a;
      assert |a| > 0;
    }
  }

  /** A sorted list with no repeated element is strictly increasing. */
  lemma SortedDistinct(s: seq<int>)
    requires Sorted(s)
    requires forall x :: multiset(s)[x] <= 1
    ensures StrictlySorted(s)
  {
    forall i, j | 0 <= i < j < |s| ensures s[i] < s[j] {
      RepeatCountsTwice(s, i, j);
    }
  }

  lemma RepeatCountsTwice(s: seq<int>, i: int, j: int)
    requires 0 <= i < j < |s|
    ensures s[i] == s[j] ==> multiset(s)[s[i]] >= 2
  {
    assert s == s[..i] + [s[i]] + s[i + 1..j] + [s[j]] + s[j + 1..];
  }

  // A Python set of integers is modelled as a list without repeats, in
  // insertion order; `sorted(a_set)` is `Sort` of that list.

  predicate Distinct<T(==)>(s: seq<T>)
  {
    forall i, j :: 0 <= i < j < |s| ==> s[i] != s[j]
  }

  /** `a_set.add(x)`. */
  function SetAdd(s: seq<int>, x: int): (r: seq<int>)
    ensures Distinct(s) ==> Distinct(r)
    ensures forall y :: y in r <==> y in s || y == x
  {
    if x in s then s else s + [x]
  }

  lemma {:induction false} DistinctCounts(s: seq<int>)
    requires Distinct(s)
    ensures forall x :: multiset(s)[x] <= 1
  {
    if s != [] {
      var t := s[..|s| - 1];
      assert s == t + [s[|s| - 1]];
      DistinctCounts(t);
      assert s[|s| - 1] !in t;
    }
  }

  /** Sorting a list without repeats gives a strictly increasing list of
      the same elements. */
  lemma SortDistinct(s: seq<int>)
    requires Distinct(s)
    ensures StrictlySorted(Sort(s))
    ensures forall x :: x in Sort(s) <==> x in s
  {
    DistinctCounts(s);
    var r := Sort(s);
    assert forall x :: x in r <==> x in multiset(r);
    SortedDistinct(r);
  }

  /** `a_set.update(other)`. */
  function SetUnion(s: seq<int>, t: seq<int>): (r: seq<int>)
    ensures Distinct(s) ==> Distinct(r)
    ensures forall y :: y in r <==> y in s || y in t
    decreases |t|
  {
    if t == [] then s
    else
      var r := SetUnion(SetAdd(s, t[0]), t[1..]);
      assert forall y :: y in t <==> y == t[0] || y in t[1..] by {
        assert t == [t[0]] + t[1..];
      }
      r
  }

  /** Dropping the last element of a strictly increasing list removes
      exactly its largest value. */
  lemma StrictlySortedLast(s: seq<int>)
    requires StrictlySorted(s) && s != []
    ensures StrictlySorted(s[..|s| - 1])
    ensures forall x :: x in s ==> x <= s[|s| - 1]
    ensures forall x :: x in s[..|s| - 1] <==> x in s && x < s[|s| - 1]
  {
    var init := s[..|s| - 1];
    forall x ensures x in init <==> x in s && x < s[|s| - 1] {
      if x in init {
        var j :| 0 <= j < |init| && init[j] == x;
        assert s[j] == x;
      }
      if x in s && x < s[|s| - 1] {
        var j :| 0 <= j < |s| && s[j] == x;
        assert init[j] == x;
      }
    }
  }

  lemma DistinctSnoc(s: seq<int>, x: int)
    requires Distinct(s) && x !in s
    ensures Distinct(s + [x])
  {
  }

  /** `bisect.bisect_left(s, x)`: on a sorted list, the first position
      holding a value of at least x. */
  function BisectLeft(s: seq<int>, x: int): (i: nat)
    ensures i <= |s|
    ensures Sorted(s) ==> (forall j :: 0 <= j < i ==> s[j] < x) && (forall j :: i <= j < |s| ==> s[j] >= x)
  {
    if s == [] || s[0] >= x then 0 else 1 + BisectLeft(s[1..], x)
  }
}
