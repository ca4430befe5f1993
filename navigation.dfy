/** Features/Navigation.py: products of runs of numbers in a grid that is
    stored row by row in one list, read along rows, columns and the two
    diagonals by Python slices, and the best such product. */
module Navigation {
  import opened Wrappers
  import opened Arith
  import opened MathOperations
  import TableOperations

  // ---------------------------------------------------------------------
  // Python slices

  /** A slice bound for a positive step, after Python counts a negative
      bound from the end and clips it to the list. */
  function UpBound(s: int, n: nat): (r: int)
    ensures 0 <= r <= n
    ensures 0 <= s <= n ==> r == s
    ensures s < 0 && s + n >= 0 ==> r == s + n
  {
    if s < 0 then (if s + n < 0 then 0 else s + n)
    else if s > n then n
    else s
  }

  /** A slice bound for a negative step: clipped to -1 .. n - 1 instead. */
  function DownBound(s: int, n: nat): (r: int)
    ensures -1 <= r < n
    ensures 0 <= s < n ==> r == s
    ensures s < 0 && s + n >= 0 ==> r == s + n
  {
    if s < 0 then (if s + n < 0 then -1 else s + n)
    else if s >= n then n - 1
    else s
  }

  /** The entries at i, i + step, ... below stop. */
  function SliceUp(xs: seq<int>, i: int, stop: int, step: nat): seq<int>
    requires 0 <= i && stop <= |xs| && step > 0
    decreases stop - i
  {
    if i >= stop then [] else [xs[i]] + SliceUp(xs, i + step, stop, step)
  }

  /** The entries at i, i - step, ... above stop. */
  function SliceDown(xs: seq<int>, i: int, stop: int, step: nat): seq<int>
    requires i < |xs| && -1 <= stop && step > 0
    decreases i - stop
  {
    if i <= stop then [] else [xs[i]] + SliceDown(xs, i - step, stop, step)
  }

  /** `xs[start:stop:step]`; None for the ValueError of a zero step. */
  function Slice(xs: seq<int>, start: int, stop: int, step: int): Option<seq<int>>
  {
    if step == 0 then None
    else if step > 0 then Some(SliceUp(xs, UpBound(start, |xs|), UpBound(stop, |xs|), step))
    else Some(SliceDown(xs, DownBound(start, |xs|), DownBound(stop, |xs|), -step))
  }

  lemma StrideArith(i: int, k: int, step: int)
    ensures i + step + (k - 1) * step == i + k * step
    ensures i - step - (k - 1) * step == i - k * step
  {
  }

  /** The ascending slice holds exactly the entries i + k * step below stop. */
  lemma {:induction false} SliceUpMeaning(xs: seq<int>, i: int, stop: int, step: nat)
    requires 0 <= i && stop <= |xs| && step > 0
    ensures var r := SliceUp(xs, i, stop, step);
      (forall k :: 0 <= k < |r| ==> i + k * step < stop && r[k] == xs[i + k * step])
      && i + |r| * step >= stop
    decreases stop - i
  {
    if i < stop {
      var rest := SliceUp(xs, i + step, stop, step);
      SliceUpMeaning(xs, i + step, stop, step);
      var r := SliceUp(xs, i, stop, step);
      assert r == [xs[i]] + rest;
      forall k | 1 <= k < |r|
        ensures i + k * step < stop && r[k] == xs[i + k * step]
      {
        assert r[k] == rest[k - 1];
        StrideArith(i, k, step);
      }
      StrideArith(i, |r|, step);
    }
  }

  /** The descending slice holds exactly the entries i - k * step above stop. */
  lemma {:induction false} SliceDownMeaning(xs: seq<int>, i: int, stop: int, step: nat)
    requires i < |xs| && -1 <= stop && step > 0
    ensures var r := SliceDown(xs, i, stop, step);
      (forall k :: 0 <= k < |r| ==> stop < i - k * step && r[k] == xs[i - k * step])
      && i - |r| * step <= stop
    decreases i - stop
  {
    if i > stop {
      var rest := SliceDown(xs, i - step, stop, step);
      SliceDownMeaning(xs, i - step, stop, step);
      var r := SliceDown(xs, i, stop, step);
      assert r == [xs[i]] + rest;
      forall k | 1 <= k < |r|
        ensures stop < i - k * step && r[k] == xs[i - k * step]
      {
        assert r[k] == rest[k - 1];
        StrideArith(i, k, step);
      }
      StrideArith(i, |r|, step);
    }
  }

  /** With step 1 the slice is the contiguous run between the clipped bounds. */
  lemma {:induction false} SliceUnit(xs: seq<int>, i: int, stop: int)
    requires 0 <= i <= stop <= |xs|
    ensures SliceUp(xs, i, stop, 1) == xs[i..stop]
    decreases stop - i
  {
    if i < stop {
      SliceUnit(xs, i + 1, stop);
      assert xs[i..stop] == [xs[i]] + xs[i + 1..stop];
    }
  }

  /** `xs[start:stop]` with bounds already inside the list. */
  lemma SliceContiguous(xs: seq<int>, start: int, stop: int)
    requires 0 <= start <= stop <= |xs|
    ensures Slice(xs, start, stop, 1) == Some(xs[start..stop])
  {
    SliceUnit(xs, start, stop);
  }

  // ---------------------------------------------------------------------
  // the four directions

  /** `horizon(op, xs, start, end)`: the fold of op over `xs[start:end]`. */
  function Horizon(op: string, numList: seq<int>, start: int, end: int): Option<int>
  {
    var part :- Slice(numList, start, end, 1);
    PerformAction(op, part)
  }

  /** `vertical`: the fold over `xs[start:end:step]`, every step-th entry. */
  function Vertical(op: string, numList: seq<int>, start: int, end: int, step: int): Option<int>
  {
    var part :- Slice(numList, start, end, step);
    PerformAction(op, part)
  }

  /** `diagonal_1`: the fold with stride step - 1. */
  function Diagonal1(op: string, numList: seq<int>, start: int, end: int, step: int): Option<int>
  {
    var part :- Slice(numList, start, end, step - 1);
    PerformAction(op, part)
  }

  /** `diagonal_2`: the fold with stride step + 1. */
  function Diagonal2(op: string, numList: seq<int>, start: int, end: int, step: int): Option<int>
  {
    var part :- Slice(numList, start, end, step + 1);
    PerformAction(op, part)
  }

  /** `horizon` folds op over the run between the two bounds, each counted
      from the end when negative and clipped to the list; the run is empty
      when the end comes before the start. */
  lemma HorizonFold(op: string, numList: seq<int>, start: int, end: int)
    ensures var lo, hi := UpBound(start, |numList|), UpBound(end, |numList|);
      Horizon(op, numList, start, end) == PerformAction(op, numList[lo..Max(lo, hi)])
  {
    var lo, hi := UpBound(start, |numList|), UpBound(end, |numList|);
    SliceUnit(numList, lo, Max(lo, hi));
  }

  /** A horizontal product is the product of the run between the bounds, or
      None when the run is empty (the TypeError of `reduce` on nothing). */
  lemma HorizonProduct(numList: seq<int>, start: int, end: int)
    requires 0 <= start <= end <= |numList|
    ensures Horizon("*", numList, start, end)
      == if start == end then None else Some(Product(numList[start..end]))
  {
    SliceContiguous(numList, start, end);
    if start < end {
      PerformActionMul(numList[start..end]);
    }
  }

  /** A column fails with a zero row length; otherwise, when it is not empty,
      it is the product of the entries start, start + step, ... before end. */
  lemma VerticalProduct(numList: seq<int>, start: int, end: int, step: int)
    requires 0 <= start < end <= |numList| && step > 0
    ensures var part := SliceUp(numList, start, end, step);
      Vertical("*", numList, start, end, step) == Some(Product(part))
      && (forall k :: 0 <= k < |part| ==> start + k * step < end && part[k] == numList[start + k * step])
      && start + |part| * step >= end
  {
    var part := SliceUp(numList, start, end, step);
    SliceUpMeaning(numList, start, end, step);
    assert part != [] by {
      assert part == [numList[start]] + SliceUp(numList, start + step, end, step);
    }
    PerformActionMul(part);
  }

  /** Every direction fails on a zero stride: a row length of 0 for
      `vertical`, 1 for `diagonal_1`, -1 for `diagonal_2`. */
  lemma ZeroStride(op: string, numList: seq<int>, start: int, end: int)
    ensures Vertical(op, numList, start, end, 0).None?
    ensures Diagonal1(op, numList, start, end, 1).None?
    ensures Diagonal2(op, numList, start, end, -1).None?
  {
  }

  /** A descending stride reads the entries from start down to just above end. */
  lemma DescendingSlice(numList: seq<int>, start: int, end: int, step: int)
    requires step < 0
    ensures Slice(numList, start, end, step).Some?
    ensures var i, stop := DownBound(start, |numList|), DownBound(end, |numList|);
      var part := Slice(numList, start, end, step).value;
      (forall k :: 0 <= k < |part| ==> stop < i + k * step && part[k] == numList[i + k * step])
      && i + |part| * step <= stop
  {
    var i, stop := DownBound(start, |numList|), DownBound(end, |numList|);
    SliceDownMeaning(numList, i, stop, -step);
    var part := Slice(numList, start, end, step).value;
    forall k | 0 <= k < |part|
      ensures i - k * -step == i + k * step
    {
    }
    assert i - |part| * -step == i + |part| * step;
  }

  // ---------------------------------------------------------------------
  // the documented examples

  lemma FourNumbers(xs: seq<int>)
    requires xs == [1, 2, 3, 4]
    ensures SliceUp(xs, 0, 2, 1) == [1, 2] && SliceUp(xs, 0, 4, 2) == [1, 3]
    ensures SliceUp(xs, 0, 4, 1) == [1, 2, 3, 4] && SliceUp(xs, 0, 4, 3) == [1, 4]
  {
    SliceUnit(xs, 0, 2);
    SliceUnit(xs, 0, 4);
    assert xs[0..2] == [1, 2] && xs[0..4] == [1, 2, 3, 4];
    assert SliceUp(xs, 4, 4, 2) == [] && SliceUp(xs, 2, 4, 2) == [3];
    assert SliceUp(xs, 6, 4, 3) == [] && SliceUp(xs, 3, 4, 3) == [4];
  }

  /** `horizon("*", [1, 2, 3, 4], 0, 2) == 2`, `vertical(...) == 3`,
      `diagonal_2(...) == 4`, as documented; `diagonal_1("*", [1, 2, 3, 4],
      0, 4, 2)` is 24, the product of all four, where the documentation
      says 2. */
  lemma DirectionExamples(xs: seq<int>)
    requires xs == [1, 2, 3, 4]
    ensures Horizon("*", xs, 0, 2) == Some(2)
    ensures Vertical("*", xs, 0, 4, 2) == Some(3)
    ensures Diagonal1("*", xs, 0, 4, 2) == Some(24)
    ensures Diagonal2("*", xs, 0, 4, 2) == Some(4)
  {
    FourNumbers(xs);
    PerformActionMul([1, 2]);
    PerformActionMul([1, 3]);
    PerformActionMul([1, 2, 3, 4]);
    PerformActionMul([1, 4]);
    assert Product([1, 2]) == 2 && Product([1, 3]) == 3;
    assert Product([1, 2, 3, 4]) == 24 && Product([1, 4]) == 4;
  }

  // ---------------------------------------------------------------------
  // most_navigate

  /** The four products `most_navigate` takes at `index`: the run of
      selectionLength entries ending before index, and the column and the
      two diagonals from index - selectionLength up to max_index; None if
      any of them raises. */
  function Selections(numList: seq<int>, length: int, selectionLength: int, index: int): (r: Option<seq<int>>)
    ensures r.Some? ==> |r.value| == 4
  {
    var maxIndex := Min(|numList|, index + length * (selectionLength - 1) + 1);
    var start := index - selectionLength;
    var h :- Horizon("*", numList, start, index);
    var v :- Vertical("*", numList, start, maxIndex, length);
    var d1 :- Diagonal1("*", numList, start, maxIndex, length);
    var d2 :- Diagonal2("*", numList, start, maxIndex, length);
    Some([h, v, d1, d2])
  }

  /** m is the running maximum, from 0, of the k-th value that f gives at
      lo .. hi - 1, and f gives values at all of them. */
  ghost predicate RunningMax(f: int -> Option<seq<int>>, lo: int, hi: int, k: nat, m: int)
  {
    m >= 0
    && (forall i :: lo <= i < hi ==> f(i).Some? && k < |f(i).value| && f(i).value[k] <= m)
    && (m == 0 || exists i :: lo <= i < hi && f(i).Some? && k < |f(i).value| && f(i).value[k] == m)
  }

  lemma RunningMaxStep(f: int -> Option<seq<int>>, lo: int, hi: int, k: nat, m: int, x: int)
    requires lo <= hi && RunningMax(f, lo, hi, k, m)
    requires f(hi).Some? && k < |f(hi).value| && f(hi).value[k] == x
    ensures RunningMax(f, lo, hi + 1, k, Max(m, x))
  {
  }

  /** The largest of four running maxima bounds every value and is either
      0 or one of them. */
  lemma BestOfFour(f: int -> Option<seq<int>>, lo: int, hi: int, m0: int, m1: int, m2: int, m3: int)
    requires RunningMax(f, lo, hi, 0, m0) && RunningMax(f, lo, hi, 1, m1)
    requires RunningMax(f, lo, hi, 2, m2) && RunningMax(f, lo, hi, 3, m3)
    ensures var m := Max(Max(m0, m1), Max(m2, m3));
      m >= 0
      && (forall i :: lo <= i < hi ==> f(i).Some? && |f(i).value| >= 4 && forall k :: 0 <= k < 4 ==> f(i).value[k] <= m)
      && (m != 0 ==> exists i, k :: lo <= i < hi && 0 <= k < 4 && f(i).Some? && k < |f(i).value| && f(i).value[k] == m)
  {
    var m := Max(Max(m0, m1), Max(m2, m3));
    if m != 0 {
      if m == m0 {
        assert RunningMax(f, lo, hi, 0, m);
      } else if m == m1 {
        assert RunningMax(f, lo, hi, 1, m);
      } else if m == m2 {
        assert RunningMax(f, lo, hi, 2, m);
      } else {
        assert RunningMax(f, lo, hi, 3, m);
      }
    }
  }

  /** What the four maxima say once the loop has visited every index. */
  lemma NavigateResult(numList: seq<int>, length: int, sel: int, f: int -> Option<seq<int>>, hi: int,
                       m0: int, m1: int, m2: int, m3: int)
    requires forall i :: f(i) == Selections(numList, length, sel, i)
    requires sel <= hi && hi >= |numList| && (hi <= |numList| || hi == sel)
    requires RunningMax(f, sel, hi, 0, m0) && RunningMax(f, sel, hi, 1, m1)
    requires RunningMax(f, sel, hi, 2, m2) && RunningMax(f, sel, hi, 3, m3)
    ensures var m := Max(Max(m0, m1), Max(m2, m3));
      m >= 0
      && !(exists i :: sel <= i < |numList| && Selections(numList, length, sel, i).None?)
      && (forall i :: sel <= i < |numList| ==>
            Selections(numList, length, sel, i).Some?
            && forall k :: 0 <= k < 4 ==> Selections(numList, length, sel, i).value[k] <= m)
      && (m != 0 ==>
            exists i, k :: sel <= i < |numList| && 0 <= k < 4
              && Selections(numList, length, sel, i).Some? && Selections(numList, length, sel, i).value[k] == m)
  {
    BestOfFour(f, sel, hi, m0, m1, m2, m3);
  }

  /** `most_navigate(num_list, length, selection_length)`, given the list
      and row length that `table` would produce: the largest of the four
      running maxima, which start at 0. None if any product raises. */
  method MostNavigate(numList: seq<int>, length: int, selectionLength: int) returns (r: Option<int>)
    ensures r.None? <==> exists i :: selectionLength <= i < |numList| && Selections(numList, length, selectionLength, i).None?
    ensures r.Some? ==> r.value >= 0
    ensures r.Some? ==> forall i :: selectionLength <= i < |numList| ==>
      Selections(numList, length, selectionLength, i).Some?
      && forall k :: 0 <= k < 4 ==> Selections(numList, length, selectionLength, i).value[k] <= r.value
    ensures r.Some? && r.value != 0 ==>
      exists i, k :: selectionLength <= i < |numList| && 0 <= k < 4
        && Selections(numList, length, selectionLength, i).Some? && Selections(numList, length, selectionLength, i).value[k] == r.value
  {
    ghost var sel := selectionLength;
    ghost var f := (i: int) => Selections(numList, length, sel, i);
    var maxHorizontal, maxVertical, maxDiagonal1, maxDiagonal2 := 0, 0, 0, 0;
    var index := selectionLength;
    while index < |numList|
      invariant sel <= index && (index <= |numList| || index == sel)
      invariant RunningMax(f, sel, index, 0, maxHorizontal)
      invariant RunningMax(f, sel, index, 1, maxVertical)
      invariant RunningMax(f, sel, index, 2, maxDiagonal1)
      invariant RunningMax(f, sel, index, 3, maxDiagonal2)
      decreases |numList| - index
    {
      var products := Selections(numList, length, selectionLength, index);
      if products.None? {
        assert Selections(numList, length, sel, index).None?;
        return None;
      }
      RunningMaxStep(f, sel, index, 0, maxHorizontal, products.value[0]);
      RunningMaxStep(f, sel, index, 1, maxVertical, products.value[1]);
      RunningMaxStep(f, sel, index, 2, maxDiagonal1, products.value[2]);
      RunningMaxStep(f, sel, index, 3, maxDiagonal2, products.value[3]);
      maxHorizontal := Max(maxHorizontal, products.value[0]);
      maxVertical := Max(maxVertical, products.value[1]);
      maxDiagonal1 := Max(maxDiagonal1, products.value[2]);
      maxDiagonal2 := Max(maxDiagonal2, products.value[3]);
      index := index + 1;
    }
    NavigateResult(numList, length, sel, f, index, maxHorizontal, maxVertical, maxDiagonal1, maxDiagonal2);
    r := Some(Max(Max(maxHorizontal, maxVertical), Max(maxDiagonal1, maxDiagonal2)));
  }

  /** The horizontal run at any index the loop visits lies within the list
      without its last entry, so the last entry is never in a horizontal
      product. */
  lemma HorizontalRunsSkipLast(numList: seq<int>, selectionLength: int, index: int)
    requires 0 <= selectionLength <= index < |numList|
    ensures Slice(numList, index - selectionLength, index, 1)
      == Some(numList[..|numList| - 1][index - selectionLength..index])
  {
    SliceContiguous(numList, index - selectionLength, index);
    assert numList[index - selectionLength..index] == numList[..|numList| - 1][index - selectionLength..index];
  }

  lemma FourNumbersFromSecond(xs: seq<int>)
    requires xs == [1, 2, 3, 4]
    ensures SliceUp(xs, 1, 3, 1) == [2, 3] && SliceUp(xs, 1, 4, 2) == [2, 4]
    ensures SliceUp(xs, 1, 4, 1) == [2, 3, 4] && SliceUp(xs, 1, 4, 3) == [2]
  {
    SliceUnit(xs, 1, 3);
    SliceUnit(xs, 1, 4);
    assert xs[1..3] == [2, 3] && xs[1..4] == [2, 3, 4];
    assert SliceUp(xs, 5, 4, 2) == [] && SliceUp(xs, 3, 4, 2) == [4];
    assert SliceUp(xs, 4, 4, 3) == [];
  }

  lemma SelectionsAtTwo(xs: seq<int>)
    requires xs == [1, 2, 3, 4]
    ensures Selections(xs, 2, 2, 2) == Some([2, 3, 24, 4])
  {
    DirectionExamples(xs);
  }

  lemma SelectionsAtThree(xs: seq<int>)
    requires xs == [1, 2, 3, 4]
    ensures Selections(xs, 2, 2, 3) == Some([6, 8, 24, 2])
  {
    FourNumbersFromSecond(xs);
    PerformActionMul([2, 3]);
    PerformActionMul([2, 4]);
    PerformActionMul([2, 3, 4]);
    PerformActionMul([2]);
    assert Product([2, 3]) == 6 && Product([2, 4]) == 8;
    assert Product([2, 3, 4]) == 24 && Product([2]) == 2;
  }

  /** `most_navigate` on the text "1 2\n3 4" with selection length 2: the
      table reads as [1, 2, 3, 4] with rows of 2, and the answer is 24 (the
      product of the whole list read as a diagonal with stride 1), where the
      documentation, which passes the list [[1, 2], [3, 4]] instead of a
      text, says 8. */
  method NavigateExample() returns (r: Option<int>)
    ensures r == Some(24)
  {
    var text := "1 2\n3 4";
    TableOperations.TableSquareExample();
    var parsed := TableOperations.Table(text);
    var xs, length := parsed.value.0, parsed.value.1;
    r := MostNavigate(xs, length, 2);
    NavigateOnExample(xs, r);
  }

  /** What the contract of `MostNavigate` leaves for [1, 2, 3, 4] with
      row length 2: the selections at 2 and 3 exist and their largest
      value is 24. */
  lemma NavigateOnExample(xs: seq<int>, r: Option<int>)
    requires xs == [1, 2, 3, 4]
    requires r.None? <==> exists i :: 2 <= i < |xs| && Selections(xs, 2, 2, i).None?
    requires r.Some? ==> forall i :: 2 <= i < |xs| ==>
      Selections(xs, 2, 2, i).Some?
      && forall k :: 0 <= k < 4 ==> Selections(xs, 2, 2, i).value[k] <= r.value
    requires r.Some? && r.value != 0 ==>
      exists i, k :: 2 <= i < |xs| && 0 <= k < 4
        && Selections(xs, 2, 2, i).Some? && Selections(xs, 2, 2, i).value[k] == r.value
    ensures r == Some(24)
  {
    forall i | 2 <= i < |xs|
      ensures Selections(xs, 2, 2, i).Some?
    {
      SelectionsUpTo24(xs, i, 0);
    }
    forall i, k | 2 <= i < |xs| && 0 <= k < 4
      ensures Selections(xs, 2, 2, i).Some? && Selections(xs, 2, 2, i).value[k] <= 24
    {
      SelectionsUpTo24(xs, i, k);
    }
    SelectionsAtTwo(xs);
    assert Selections(xs, 2, 2, 2).value[2] <= r.value;
  }

  lemma SelectionsUpTo24(xs: seq<int>, i: int, k: int)
    requires xs == [1, 2, 3, 4] && 2 <= i < 4 && 0 <= k < 4
    ensures Selections(xs, 2, 2, i).Some? && Selections(xs, 2, 2, i).value[k] <= 24
  {
    if i == 2 {
      SelectionsAtTwo(xs);
    } else {
      SelectionsAtThree(xs);
    }
  }
}
