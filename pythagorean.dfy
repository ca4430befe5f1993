/** Features/Pythagorean.py: right triangles with whole sides, found by
    search over a perimeter or over the hypotenuse. */
module Pythagorean {
  import opened Wrappers
  import opened Arith

  type Triple = (int, int, int)

  /** t = (a, b, c) is a right triangle with whole sides a < b < c and
      perimeter num. */
  predicate IsTriple(num: int, t: Triple)
  {
    1 <= t.0 < t.1 < t.2 && t.0 + t.1 + t.2 == num && t.0 * t.0 + t.1 * t.1 == t.2 * t.2
  }

  // ---------------------------------------------------------------------
  // pythagorean_triple_1

  /** With a and the remaining perimeter numA = num - a, the leg b leaves the
      hypotenuse c = numA - b. */
  predicate Closes(a: int, numA: int, b: int)
  {
    (numA - b) * (numA - b) == a * a + b * b
  }

  /** The first b in lo .. hi - 1 that closes the triangle. */
  function FirstLeg(a: int, numA: int, lo: int, hi: int): Option<int>
    decreases hi - lo
  {
    if lo >= hi then None
    else if Closes(a, numA, lo) then Some(lo)
    else FirstLeg(a, numA, lo + 1, hi)
  }

  lemma {:induction false} FirstLegMeaning(a: int, numA: int, lo: int, hi: int)
    ensures FirstLeg(a, numA, lo, hi).Some? ==>
      var b := FirstLeg(a, numA, lo, hi).value;
      lo <= b < hi && Closes(a, numA, b) && forall b' :: lo <= b' < b ==> !Closes(a, numA, b')
    ensures FirstLeg(a, numA, lo, hi).None? <==> forall b :: lo <= b < hi ==> !Closes(a, numA, b)
    decreases hi - lo
  {
    if lo < hi && !Closes(a, numA, lo) {
      FirstLegMeaning(a, numA, lo + 1, hi);
    }
  }

  /** For a given a and remaining perimeter at most one leg closes the
      triangle, since (numA - b)^2 == a^2 + b^2 means 2 * numA * b ==
      numA^2 - a^2; so the `break` after the first one loses nothing. */
  lemma LegUnique(a: int, numA: int, b1: int, b2: int)
    requires numA != 0 && Closes(a, numA, b1) && Closes(a, numA, b2)
    ensures b1 == b2
  {
    assert (numA - b1) * (numA - b1) == numA * numA - 2 * numA * b1 + b1 * b1;
    assert (numA - b2) * (numA - b2) == numA * numA - 2 * numA * b2 + b2 * b2;
    assert numA * (b1 - b2) == 0;
  }

  /** The exclusive bound of the inner loop: `num_a // 2` as written
      (slack 0); slack 1 gives the bound that admits every b < c. */
  function LegBound(num: int, slack: int, a: int): int
  {
    (num - a + slack) / 2
  }

  /** What the inner loop appends for a. */
  function Found(num: int, slack: int, a: int): (r: seq<Triple>)
    ensures forall t :: t in r ==> t.0 == a
  {
    match FirstLeg(a, num - a, a + 1, LegBound(num, slack, a))
    case None => []
    case Some(b) => [(a, b, num - a - b)]
  }

  /** The triangles the outer loop has collected before reaching a = k. */
  function TriplesBelow(num: int, slack: int, k: int): seq<Triple>
    decreases k
  {
    if k <= 1 then [] else TriplesBelow(num, slack, k - 1) + Found(num, slack, k - 1)
  }

  /** `pythagorean_triple_1(num)` (slack 0), and the corrected search (slack 1). */
  function Triples(num: int, slack: int): seq<Triple>
  {
    TriplesBelow(num, slack, num / 3)
  }

  /** The inner loop of `pythagorean_triple_1`: the first b from a + 1
      below numA // 2 with (numA - b)^2 == a^2 + b^2, where the loop
      appends and breaks. */
  method ClosingLeg(a: int, numA: int) returns (found: Option<int>)
    ensures found == FirstLeg(a, numA, a + 1, numA / 2)
  {
    var a2 := a * a;
    var b := a + 1;
    while b < numA / 2
      invariant a + 1 <= b
      invariant FirstLeg(a, numA, a + 1, numA / 2) == FirstLeg(a, numA, b, numA / 2)
    {
      var c := numA - b;
      if c * c == a2 + b * b {
        return Some(b);
      }
      b := b + 1;
    }
    return None;
  }

  /** `pythagorean_triple_1(num)`: for each a below num // 3, the triangle
      the inner loop closes, if any. */
  method PythagoreanTriple1(num: int) returns (result: seq<Triple>)
    ensures result == Triples(num, 0)
  {
    result := [];
    var a := 1;
    while a < num / 3
      invariant 1 <= a && (a <= num / 3 || a == 1)
      invariant result == TriplesBelow(num, 0, a)
    {
      var numA := num - a;
      var found := ClosingLeg(a, numA);
      assert TriplesBelow(num, 0, a + 1) == result + Found(num, 0, a);
      if found.Some? {
        var b := found.value;
        result := result + [(a, b, numA - b)];
      }
      a := a + 1;
    }
  }

  /** Every collected triangle is a right triangle with perimeter num whose
      short leg is below k, and (for slack 0 or 1) the legs are in order. */
  lemma {:induction false} TriplesBelowValid(num: int, slack: int, k: int)
    requires slack == 0 || slack == 1
    ensures forall t :: t in TriplesBelow(num, slack, k) ==> IsTriple(num, t) && t.0 < k
    decreases k
  {
    if k > 1 {
      TriplesBelowValid(num, slack, k - 1);
      var a := k - 1;
      FirstLegMeaning(a, num - a, a + 1, LegBound(num, slack, a));
    }
  }

  /** The short legs of ts strictly increase. */
  predicate Ascending(ts: seq<Triple>)
  {
    forall i, j :: 0 <= i < j < |ts| ==> ts[i].0 < ts[j].0
  }

  lemma AppendAscending(prev: seq<Triple>, next: seq<Triple>, a: int)
    requires Ascending(prev) && |next| <= 1
    requires forall t :: t in prev ==> t.0 < a
    requires forall t :: t in next ==> t.0 == a
    ensures Ascending(prev + next)
  {
    var ts := prev + next;
    forall i, j | 0 <= i < j < |ts|
      ensures ts[i].0 < ts[j].0
    {
      if j >= |prev| {
        assert ts[j] == next[j - |prev|] && ts[j] in next;
        assert ts[i] == prev[i] && ts[i] in prev;
      } else {
        assert ts[i] == prev[i] && ts[j] == prev[j];
      }
    }
  }

  /** The triangles come in strictly ascending order of the short leg, so
      there is at most one per a. */
  lemma {:induction false} TriplesBelowAscending(num: int, slack: int, k: int)
    requires slack == 0 || slack == 1
    ensures Ascending(TriplesBelow(num, slack, k))
    decreases k
  {
    if k > 1 {
      TriplesBelowAscending(num, slack, k - 1);
      TriplesBelowValid(num, slack, k - 1);
      AppendAscending(TriplesBelow(num, slack, k - 1), Found(num, slack, k - 1), k - 1);
    }
  }

  /** What is appended for a stays in the list for every later k. */
  lemma {:induction false} FoundKept(num: int, slack: int, a: int, k: int)
    requires 1 <= a < k
    ensures forall t :: t in Found(num, slack, a) ==> t in TriplesBelow(num, slack, k)
    decreases k
  {
    if a < k - 1 {
      FoundKept(num, slack, a, k - 1);
    }
  }

  /** The triangles the loops find for one a: the right triangle (a, b, c)
      with perimeter num and b < c is found exactly when b is below the
      bound of the inner loop. */
  lemma FoundExactly(num: int, slack: int, t: Triple)
    requires slack == 0 || slack == 1
    requires IsTriple(num, t)
    ensures t in Found(num, slack, t.0) <==> t.1 < LegBound(num, slack, t.0)
  {
    var (a, b, c) := t;
    var numA := num - a;
    FirstLegMeaning(a, numA, a + 1, LegBound(num, slack, a));
    assert Closes(a, numA, b);
    if b < LegBound(num, slack, a) {
      var b' := FirstLeg(a, numA, a + 1, LegBound(num, slack, a)).value;
      LegUnique(a, numA, b, b');
    }
  }

  /** Right triangles with perimeter num, each once: the search with slack
      s lists exactly those whose leg b is below (num - a + s) // 2. */
  lemma TriplesExactly(num: int, slack: int, t: Triple)
    requires slack == 0 || slack == 1
    ensures t in Triples(num, slack) <==> IsTriple(num, t) && t.1 < LegBound(num, slack, t.0)
  {
    if t in Triples(num, slack) {
      TriplesBelowValid(num, slack, num / 3);
      TriplesBelowFrom(num, slack, num / 3, t);
      FoundExactly(num, slack, t);
    }
    if IsTriple(num, t) && t.1 < LegBound(num, slack, t.0) {
      FoundExactly(num, slack, t);
      assert 3 * t.0 + 3 <= num;
      FoundKept(num, slack, t.0, num / 3);
    }
  }

  /** A collected triangle was appended at its own a. */
  lemma {:induction false} TriplesBelowFrom(num: int, slack: int, k: int, t: Triple)
    requires t in TriplesBelow(num, slack, k)
    ensures t in Found(num, slack, t.0)
    decreases k
  {
    if k > 1 && t in TriplesBelow(num, slack, k - 1) {
      TriplesBelowFrom(num, slack, k - 1, t);
    }
  }

  /** As written the search misses exactly the triangles whose hypotenuse is
      one more than the long leg: b < (num - a) // 2 means c >= b + 2. */
  lemma TriplesAsWritten(num: int, t: Triple)
    ensures t in Triples(num, 0) <==> IsTriple(num, t) && t.2 >= t.1 + 2
  {
    TriplesExactly(num, 0, t);
  }

  /** The corrected bound (num - a + 1) // 2 lists every right triangle with
      perimeter num. */
  lemma TriplesCorrected(num: int, t: Triple)
    ensures t in Triples(num, 1) <==> IsTriple(num, t)
  {
    TriplesExactly(num, 1, t);
  }

  /** The documented `pythagorean_triple_1(12) == [(3, 4, 5)]` does not hold:
      the inner loop for a = 3 is `range(4, 4)`, so the result is empty,
      although (3, 4, 5) has perimeter 12; the corrected search finds it. */
  lemma PerimeterTwelve()
    ensures IsTriple(12, (3, 4, 5))
    ensures Triples(12, 0) == []
    ensures Triples(12, 1) == [(3, 4, 5)]
  {
    assert FirstLeg(1, 11, 2, 5) == None by {
      assert !Closes(1, 11, 2) && !Closes(1, 11, 3) && !Closes(1, 11, 4);
    }
    assert FirstLeg(1, 11, 2, 6) == None by {
      assert !Closes(1, 11, 2) && !Closes(1, 11, 3) && !Closes(1, 11, 4) && !Closes(1, 11, 5);
      assert FirstLeg(1, 11, 5, 6) == None;
    }
    assert FirstLeg(2, 10, 3, 5) == None by {
      assert !Closes(2, 10, 3) && !Closes(2, 10, 4);
    }
    assert FirstLeg(3, 9, 4, 4) == None;
    assert FirstLeg(3, 9, 4, 5) == Some(4);
    assert TriplesBelow(12, 0, 2) == [] && TriplesBelow(12, 1, 2) == [];
    assert TriplesBelow(12, 0, 3) == [] && TriplesBelow(12, 1, 3) == [];
  }

  // ---------------------------------------------------------------------
  // pythagorean_triple_2

  /** The first b in lo .. hi - 1 with a^2 + b^2 == target. */
  function FirstPartner(a: int, target: int, lo: int, hi: int): Option<int>
    decreases hi - lo
  {
    if lo >= hi then None
    else if a * a + lo * lo == target then Some(lo)
    else FirstPartner(a, target, lo + 1, hi)
  }

  lemma {:induction false} FirstPartnerMeaning(a: int, target: int, lo: int, hi: int)
    ensures FirstPartner(a, target, lo, hi).Some? ==>
      var b := FirstPartner(a, target, lo, hi).value;
      lo <= b < hi && a * a + b * b == target
    ensures FirstPartner(a, target, lo, hi).None? <==> forall b :: lo <= b < hi ==> a * a + b * b != target
    decreases hi - lo
  {
    if lo < hi && a * a + lo * lo != target {
      FirstPartnerMeaning(a, target, lo + 1, hi);
    }
  }

  /** The pairs collected for a = 1 .. k - 1, b searched in a .. hi - 1. */
  function PairsBelow(target: int, hi: int, k: int): seq<(int, int)>
    decreases k
  {
    if k <= 1 then []
    else
      PairsBelow(target, hi, k - 1)
      + match FirstPartner(k - 1, target, k - 1, hi)
        case None => []
        case Some(b) => [(k - 1, b)]
  }

  /** Two non-negative numbers with the same square are equal. */
  lemma SquareUnique(x: int, y: int)
    requires 0 <= x && 0 <= y && x * x == y * y
    ensures x == y
  {
    assert (x - y) * (x + y) == 0;
  }

  /** The pairs are exactly the (a, b) with 1 <= a < k, a <= b < hi and
      a^2 + b^2 == target, each once. */
  lemma {:induction false} PairsBelowExactly(target: int, hi: int, k: int, a: int, b: int)
    ensures (a, b) in PairsBelow(target, hi, k) <==> 1 <= a < k && a <= b < hi && a * a + b * b == target
    decreases k
  {
    if k > 1 {
      PairsBelowExactly(target, hi, k - 1, a, b);
      var last := k - 1;
      FirstPartnerMeaning(last, target, last, hi);
      if a == last && a <= b < hi && a * a + b * b == target {
        var b' := FirstPartner(last, target, last, hi).value;
        SquareUnique(b, b');
      }
    }
  }

  /** `pythagorean_triple_2(num)`: n = int(num ** 0.5), taken as the integer
      square root; for each a in 1 .. n // 2 - 1 the first b in a .. n with
      a^2 + b^2 == num. None for a negative num, whose root is complex. */
  method PythagoreanTriple2(num: int) returns (r: Option<seq<(int, int)>>)
    ensures num < 0 ==> r.None?
    ensures num >= 0 ==> r == Some(PairsBelow(num, Isqrt(num) + 1, Isqrt(num) / 2))
  {
    if num < 0 {
      return None;
    }
    var numList := [];
    var maxi := num;
    var root := Isqrt(num);
    var a := 1;
    while a < root / 2
      invariant 1 <= a && (a <= root / 2 || a == 1)
      invariant numList == PairsBelow(maxi, root + 1, a)
    {
      var a2 := a * a;
      ghost var before := numList;
      var b := a;
      while b < root + 1
        invariant a <= b && numList == before
        invariant FirstPartner(a, maxi, a, root + 1) == FirstPartner(a, maxi, b, root + 1)
      {
        if a2 + b * b == maxi {
          numList := numList + [(a, b)];
          break;
        }
        b := b + 1;
      }
      assert numList == PairsBelow(maxi, root + 1, a + 1);
      a := a + 1;
    }
    r := Some(numList);
  }

  /** As written the pairs satisfy a^2 + b^2 == num, not num^2: they are
      exactly the (a, b) with 1 <= a < isqrt(num) // 2, a <= b and
      a^2 + b^2 == num. */
  lemma PairsAsWritten(num: nat, a: int, b: int)
    ensures (a, b) in PairsBelow(num, Isqrt(num) + 1, Isqrt(num) / 2)
      <==> 1 <= a < Isqrt(num) / 2 && a <= b && a * a + b * b == num
  {
    var root := Isqrt(num);
    PairsBelowExactly(num, root + 1, root / 2, a, b);
    if 1 <= a <= b && a * a + b * b == num {
      IsqrtSquare(num);
      if b >= root + 1 {
        MulMonotone(root + 1, b);
      }
    }
  }

  /** The search the documentation describes: the legs a <= b of every
      right triangle with hypotenuse num. */
  function Legs(num: int): seq<(int, int)>
  {
    PairsBelow(num * num, num, num)
  }

  lemma LegsExactly(num: int, a: int, b: int)
    requires num >= 0
    ensures (a, b) in Legs(num) <==> 1 <= a <= b && a * a + b * b == num * num
  {
    PairsBelowExactly(num * num, num, num, a, b);
    if 1 <= a <= b && a * a + b * b == num * num {
      if num <= b {
        MulMonotone(num, b);
      }
    }
  }

  /** The documented `pythagorean_triple_2(25) == [(7, 24)]` does not hold:
      with n = 5 the only a is 1, and 1 + b^2 == 25 has no solution, so the
      result is empty; the legs of hypotenuse 25 include (7, 24). */
  lemma HypotenuseTwentyFive()
    ensures Isqrt(25) == 5
    ensures PairsBelow(25, Isqrt(25) + 1, Isqrt(25) / 2) == []
    ensures (7, 24) in Legs(25)
  {
    IsqrtUnique(25, 5);
    assert FirstPartner(1, 25, 1, 6) == None by {
      FirstPartnerMeaning(1, 25, 1, 6);
      forall b | 1 <= b < 6
        ensures 1 * 1 + b * b != 25
      {
        assert b == 1 || b == 2 || b == 3 || b == 4 || b == 5;
      }
    }
    assert PairsBelow(25, 6, 2) == PairsBelow(25, 6, 1) + [];
    LegsExactly(25, 7, 24);
  }

  // ---------------------------------------------------------------------
  // whole_right_triangles

  /** The first k' in 1 .. k with the longest f(k'), as `max(..., key=len)`
      keeps the first of equal maxima. */
  function FirstLongest<T>(f: int -> seq<T>, k: int): int
    requires k >= 1
  {
    if k == 1 then 1
    else
      var best := FirstLongest(f, k - 1);
      if |f(k)| > |f(best)| then k else best
  }

  lemma {:induction false} FirstLongestMeaning<T>(f: int -> seq<T>, k: int)
    requires k >= 1
    ensures var p := FirstLongest(f, k);
      1 <= p <= k
      && (forall q :: 1 <= q <= k ==> |f(q)| <= |f(p)|)
      && (forall q :: 1 <= q < p ==> |f(q)| < |f(p)|)
  {
    if k > 1 {
      FirstLongestMeaning(f, k - 1);
    }
  }

  /** `pythagorean_triple_1` as written, and with the corrected bound. */
  function PerimeterSearch(num: int): seq<Triple>
  {
    Triples(num, 0)
  }

  function CorrectedPerimeterSearch(num: int): seq<Triple>
  {
    Triples(num, 1)
  }

  /** `whole_right_triangles(maxim)`, with the per-perimeter search it maps
      over `range(1, maxim + 1)` as a parameter (PerimeterSearch as
      written): the triangles of the first perimeter with the most of them,
      their number, and the sum of the first triangle's sides, or 0 when
      there is none. None for maxim < 1, where `max` gets no arguments. */
  function WholeRightTriangles(search: int -> seq<Triple>, maxim: int): Option<(seq<Triple>, int, int)>
  {
    if maxim < 1 then None
    else
      var result := search(FirstLongest(search, maxim));
      Some((result, |result|, if result == [] then 0 else result[0].0 + result[0].1 + result[0].2))
  }

  /** Both searches find only triangles of the perimeter they are given. */
  lemma SearchesKeepPerimeter()
    ensures forall q, t :: t in PerimeterSearch(q) ==> t.0 + t.1 + t.2 == q
    ensures forall q, t :: t in CorrectedPerimeterSearch(q) ==> t.0 + t.1 + t.2 == q
  {
    forall q
      ensures forall t :: t in PerimeterSearch(q) ==> IsTriple(q, t)
      ensures forall t :: t in CorrectedPerimeterSearch(q) ==> IsTriple(q, t)
    {
      TriplesBelowValid(q, 0, q / 3);
      TriplesBelowValid(q, 1, q / 3);
    }
  }

  /** The three parts agree: the list is the search at the first perimeter
      p <= maxim with the most triangles, the length is its length, and,
      for a search that keeps to its perimeter, the reported perimeter is p
      itself when there is a triangle, else 0. */
  lemma WholeRightTrianglesMeaning(search: int -> seq<Triple>, maxim: int)
    requires forall q, t :: t in search(q) ==> t.0 + t.1 + t.2 == q
    ensures WholeRightTriangles(search, maxim).None? <==> maxim < 1
    ensures maxim >= 1 ==>
      var (result, length, p) := WholeRightTriangles(search, maxim).value;
      exists best :: 1 <= best <= maxim && result == search(best) && length == |result|
        && (forall q :: 1 <= q <= maxim ==> |search(q)| <= length)
        && (forall q :: 1 <= q < best ==> |search(q)| < length)
        && p == (if result == [] then 0 else best)
  {
    if maxim >= 1 {
      FirstLongestMeaning(search, maxim);
      var best := FirstLongest(search, maxim);
      var result := search(best);
      if result != [] {
        assert result[0] in result;
      }
    }
  }

  /** No perimeter up to 12 has a triangle as written, so the documented
      `whole_right_triangles(12) == ([(3, 4, 5)], 1, 12)` gives
      `([], 0, 0)` instead. */
  lemma WholeRightTrianglesTwelve()
    ensures WholeRightTriangles(PerimeterSearch, 12) == Some(([], 0, 0))
  {
    forall p | 1 <= p <= 12
      ensures PerimeterSearch(p) == []
    {
      SmallPerimeter(p);
    }
    FirstLongestMeaning(PerimeterSearch, 12);
    assert FirstLongest(PerimeterSearch, 12) == 1;
  }

  /** With the corrected search the documented value comes out. */
  lemma CorrectedWholeRightTrianglesTwelve()
    ensures WholeRightTriangles(CorrectedPerimeterSearch, 12) == Some(([(3, 4, 5)], 1, 12))
  {
    CorrectedLongestTwelve();
    PerimeterTwelve();
  }

  /** Up to 12, only the perimeter 12 has a triangle for the corrected
      search. */
  lemma CorrectedLongestTwelve()
    ensures FirstLongest(CorrectedPerimeterSearch, 12) == 12
  {
    forall p | 1 <= p < 12
      ensures CorrectedPerimeterSearch(p) == []
    {
      SmallPerimeter(p);
    }
    PerimeterTwelve();
    FirstLongestMeaning(CorrectedPerimeterSearch, 12);
  }

  /** No right triangle has a perimeter below 12, and the one with perimeter
      12 has hypotenuse one more than its long leg. */
  lemma SmallPerimeter(p: int)
    requires 1 <= p <= 12
    ensures Triples(p, 0) == [] && (p < 12 ==> Triples(p, 1) == [])
  {
    forall t
      ensures t !in Triples(p, 0) && (p < 12 ==> t !in Triples(p, 1))
    {
      TriplesAsWritten(p, t);
      TriplesCorrected(p, t);
      NoSmallTriangle(p, t);
    }
    EmptyOrFirst(Triples(p, 0));
    EmptyOrFirst(Triples(p, 1));
  }

  lemma EmptyOrFirst<T>(s: seq<T>)
    ensures s == [] || s[0] in s
  {
  }

  /** Right triangles with perimeter at most 12 are (3, 4, 5) alone. */
  lemma NoSmallTriangle(p: int, t: Triple)
    requires p <= 12
    ensures IsTriple(p, t) ==> t == (3, 4, 5)
  {
    if IsTriple(p, t) {
      var (a, b, c) := t;
      assert a <= 3 && b <= 5 && c <= 9;
      assert a == 1 || a == 2 || a == 3;
      assert b == 2 || b == 3 || b == 4 || b == 5;
    }
  }
}
