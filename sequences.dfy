/** The number sequences of `Features/Sequences.py`: the diagonals of the
    number spiral, triangular numbers, Fibonacci numbers, and the count of
    words whose letter value is triangular, with its memo of triangular
    numbers. */
module Sequences {

  // ---------------------------------------------------------------------
  // spiral_diagonals_sum

  /** The j-th corner (j = 1..4) of the ring of side s of the number
      spiral: the ring continues after (s - 2)^2 and turns every s - 1
      numbers. */
  function Corner(s: int, j: int): int
  {
    (s - 2) * (s - 2) + j * (s - 1)
  }

  /** The sum of the diagonal numbers of all rings of odd side 3..m (the
      centre 1 is not counted). */
  function SpiralDiagonals(m: int): int
    decreases m
  {
    if m < 3 then 0
    else SpiralDiagonals(m - 1) + (if m % 2 == 1 then Corner(m, 1) + Corner(m, 2) + Corner(m, 3) + Corner(m, 4) else 0)
  }

  /** The last corner of a ring is the square of its side, and the corners
      are s^2, s^2 - (s - 1), s^2 - 2(s - 1), s^2 - 3(s - 1). */
  lemma CornersFromSquare(s: int)
    ensures Corner(s, 4) == s * s
    ensures Corner(s, 3) == s * s - (s - 1) && Corner(s, 2) == s * s - (s - 1) * 2 && Corner(s, 1) == s * s - (s - 1) * 3
  {
  }

  /** `spiral_diagonals_sum`: adds the four corners of each ring of side
      3, 5, ..., up to maximum. */
  method SpiralDiagonalsSum(maximum: int) returns (diagonalSum: int)
    ensures diagonalSum == SpiralDiagonals(maximum)
  {
    diagonalSum := 0;
    var size := 3;
    while size <= maximum
      invariant size >= 3 && size % 2 == 1
      invariant size <= maximum + 2 || size == 3
      invariant diagonalSum == SpiralDiagonals(size - 1)
      decreases maximum - size
    {
      var next := diagonalSum + RingSum(size);
      RingAdded(size, diagonalSum, next);
      diagonalSum := next;
      size := size + 2;
    }
  }

  /** `sum([size ** 2, size ** 2 - (size - 1), ...])`: the four corners of
      a ring counted down from size^2. */
  function RingSum(size: int): int
  {
    size * size + (size * size - (size - 1)) + (size * size - (size - 1) * 2) + (size * size - (size - 1) * 3)
  }

  /** One pass of the loop adds the ring of side size. */
  lemma RingAdded(size: int, before: int, after: int)
    requires size >= 3 && size % 2 == 1 && before == SpiralDiagonals(size - 1)
    requires after == before + RingSum(size)
    ensures after == SpiralDiagonals(size + 1)
  {
    RingOf(size);
    assert SpiralDiagonals(size + 1) == SpiralDiagonals(size);
  }

  /** The corners of a ring are the ones the loop adds. */
  lemma RingOf(s: int)
    ensures RingSum(s) == Corner(s, 1) + Corner(s, 2) + Corner(s, 3) + Corner(s, 4)
  {
    CornersFromSquare(s);
  }

  /** The closed form of the diagonal sum of an m by m spiral, less its
      centre: 6 * sum == 4m^3 + 3m^2 + 8m - 15 for odd m. */
  lemma {:induction false} SpiralDiagonalsClosedForm(m: int)
    requires m >= 1 && m % 2 == 1
    ensures 6 * SpiralDiagonals(m) == 4 * m * m * m + 3 * m * m + 8 * m - 15
    decreases m
  {
    if m >= 3 {
      SpiralDiagonalsClosedForm(m - 2);
      assert SpiralDiagonals(m - 1) == SpiralDiagonals(m - 2);
      RingStep(m);
    }
  }

  /** Adding the ring of side m to the closed form for m - 2. */
  lemma RingStep(m: int)
    ensures 4 * (m - 2) * (m - 2) * (m - 2) + 3 * (m - 2) * (m - 2) + 8 * (m - 2) - 15
      + 6 * (Corner(m, 1) + Corner(m, 2) + Corner(m, 3) + Corner(m, 4))
      == 4 * m * m * m + 3 * m * m + 8 * m - 15
  {
    var k := m - 2;
    assert Corner(m, 1) + Corner(m, 2) + Corner(m, 3) + Corner(m, 4) == 4 * k * k + 10 * k + 10;
    assert m * m == k * k + 4 * k + 4;
    assert m * m * m == k * k * k + 6 * k * k + 12 * k + 8;
  }

  // ---------------------------------------------------------------------
  // triangular_numbers

  /** The k-th triangular number 1 + 2 + ... + k. */
  function Tri(k: nat): nat
  {
    if k == 0 then 0 else Tri(k - 1) + k
  }

  /** T_k = k (k + 1) / 2, the formula `count_triangular_words` uses. */
  lemma {:induction false} TriClosedForm(k: nat)
    ensures 2 * Tri(k) == k * (k + 1)
    ensures Tri(k) == k * (k + 1) / 2
  {
    if k > 0 {
      TriClosedForm(k - 1);
    }
  }

  /** Triangular numbers increase strictly from T_0 = 0. */
  lemma {:induction false} TriStrictlyIncreasing(j: nat, k: nat)
    requires j < k
    ensures Tri(j) < Tri(k)
    decreases k
  {
    if j < k - 1 {
      TriStrictlyIncreasing(j, k - 1);
    }
  }

  /** `triangular_numbers`: appends T_1, T_2, ... until one reaches
      max_num, then drops the initial 0 and that last one. */
  method TriangularNumbers(maxNum: int) returns (r: seq<int>)
    ensures forall i :: 0 <= i < |r| ==> r[i] == Tri(i + 1) && r[i] < maxNum
    ensures Tri(|r| + 1) >= maxNum
  {
    var currentNumber := 0;
    var triangularNums: seq<int> := [0];
    while triangularNums[|triangularNums| - 1] < maxNum
      invariant |triangularNums| == currentNumber + 1
      invariant TriPrefix(triangularNums, maxNum)
      decreases maxNum - triangularNums[|triangularNums| - 1]
    {
      TriPrefixStep(triangularNums, maxNum);
      currentNumber := currentNumber + 1;
      triangularNums := triangularNums + [triangularNums[|triangularNums| - 1] + currentNumber];
    }
    r := if |triangularNums| >= 2 then triangularNums[1..|triangularNums| - 1] else [];
    TriPrefixEnd(triangularNums, maxNum, r);
  }

  /** The list so far is T_0, T_1, ..., and all but its last are below max_num. */
  predicate TriPrefix(s: seq<int>, maxNum: int)
  {
    && (forall i :: 0 <= i < |s| ==> s[i] == Tri(i))
    && (forall i :: 0 <= i < |s| - 1 ==> s[i] < maxNum)
  }

  lemma TriPrefixStep(s: seq<int>, maxNum: int)
    requires s != [] && TriPrefix(s, maxNum) && s[|s| - 1] < maxNum
    ensures TriPrefix(s + [s[|s| - 1] + |s|], maxNum)
    ensures s[|s| - 1] + |s| > s[|s| - 1]
  {
    var t := s + [s[|s| - 1] + |s|];
    forall i | 0 <= i < |t| ensures t[i] == Tri(i) {
      if i < |s| {
        assert t[i] == s[i];
      }
    }
  }

  lemma TriPrefixEnd(s: seq<int>, maxNum: int, r: seq<int>)
    requires s != [] && TriPrefix(s, maxNum) && s[|s| - 1] >= maxNum
    requires r == if |s| >= 2 then s[1..|s| - 1] else []
    ensures forall i :: 0 <= i < |r| ==> r[i] == Tri(i + 1) && r[i] < maxNum
    ensures Tri(|r| + 1) >= maxNum
  {
    assert s[|s| - 1] == Tri(|s| - 1);
    forall i | 0 <= i < |r| ensures r[i] == Tri(i + 1) && r[i] < maxNum {
      assert r[i] == s[i + 1];
    }
  }

  /** The list holds exactly the triangular numbers T_k, k >= 1, below
      max_num (empty when max_num <= 1). */
  lemma TriangularNumbersExact(maxNum: int, r: seq<int>, t: int)
    requires forall i :: 0 <= i < |r| ==> r[i] == Tri(i + 1) && r[i] < maxNum
    requires Tri(|r| + 1) >= maxNum
    ensures t in r <==> IsTriangular(t) && t < maxNum
    ensures maxNum <= 1 ==> r == []
  {
    if IsTriangular(t) && t < maxNum {
      var k: nat :| k >= 1 && t == Tri(k);
      if k > |r| {
        if k > |r| + 1 {
          TriStrictlyIncreasing(|r| + 1, k);
        }
      } else {
        assert r[k - 1] == t;
      }
    }
    if t in r {
      var i :| 0 <= i < |r| && r[i] == t;
      var k: nat := i + 1;
      assert k >= 1 && t == Tri(k);
    }
    if r != [] {
      assert r[0] == Tri(1) == 1;
    }
  }

  // ---------------------------------------------------------------------
  // fibonacci

  function Fib(n: nat): nat
  {
    if n == 0 then 0 else if n == 1 then 1 else Fib(n - 1) + Fib(n - 2)
  }

  /** From F_1 on the Fibonacci numbers do not decrease. */
  lemma {:induction false} FibMonotone(i: nat, j: nat)
    requires 1 <= i <= j
    ensures Fib(i) <= Fib(j)
    decreases j
  {
    if i < j {
      FibMonotone(i, j - 1);
      if j >= 2 {
        assert Fib(j) == Fib(j - 1) + Fib(j - 2);
      }
    }
  }

  /** `fibonacci`: F_0, F_1, ... while the last is at most max_num, then
      the first one above max_num is popped. */
  method Fibonacci(maxNum: int) returns (fibSequence: seq<int>)
    ensures |fibSequence| >= 1
    ensures forall i :: 0 <= i < |fibSequence| ==> fibSequence[i] == Fib(i)
    ensures Fib(|fibSequence|) > maxNum
    ensures maxNum >= 0 ==> forall i :: 0 <= i < |fibSequence| ==> fibSequence[i] <= maxNum
  {
    fibSequence := [0, 1];
    while fibSequence[|fibSequence| - 1] <= maxNum
      invariant |fibSequence| >= 2 && IsFibPrefix(fibSequence)
      invariant maxNum >= 0 ==> Fib(|fibSequence| - 2) <= maxNum
      decreases 2 * maxNum - fibSequence[|fibSequence| - 1] - fibSequence[|fibSequence| - 2]
    {
      var n := |fibSequence|;
      FibAppend(fibSequence);
      fibSequence := fibSequence + [fibSequence[n - 1] + fibSequence[n - 2]];
    }
    if fibSequence[|fibSequence| - 1] >= maxNum {
      fibSequence := fibSequence[..|fibSequence| - 1];
    }
    FibBelow(|fibSequence| - 1, maxNum);
  }

  /** The list is F_0, F_1, ..., F_(|f|-1). */
  predicate IsFibPrefix(f: seq<int>)
  {
    forall i :: 0 <= i < |f| ==> f[i] == Fib(i)
  }

  /** Appending the sum of the last two extends the Fibonacci prefix; the
      last two are ordered and the last is at least 1. */
  lemma FibAppend(f: seq<int>)
    requires |f| >= 2 && IsFibPrefix(f)
    ensures IsFibPrefix(f + [f[|f| - 1] + f[|f| - 2]])
    ensures 0 <= f[|f| - 2] <= f[|f| - 1] && f[|f| - 1] >= 1
  {
    var n := |f|;
    assert Fib(n) == Fib(n - 1) + Fib(n - 2);
    if n >= 3 {
      FibMonotone(1, n - 1);
      FibMonotone(n - 2, n - 1);
    }
  }

  lemma FibBelow(last: nat, maxNum: int)
    requires maxNum >= 0 ==> Fib(last) <= maxNum
    ensures maxNum >= 0 ==> forall i :: 0 <= i <= last ==> Fib(i) <= maxNum
  {
    forall i | 0 <= i <= last && maxNum >= 0
      ensures Fib(i) <= maxNum
    {
      if i >= 1 {
        FibMonotone(i, last);
      }
    }
  }

  /** Each element after the first two is the sum of the two before it. */
  lemma FibonacciRecurrence(fibSequence: seq<int>, i: int)
    requires forall k :: 0 <= k < |fibSequence| ==> fibSequence[k] == Fib(k)
    requires 2 <= i < |fibSequence|
    ensures fibSequence[i] == fibSequence[i - 1] + fibSequence[i - 2]
  {
  }

  // ---------------------------------------------------------------------
  // count_triangular_words

  /** `word_value`: each character counts its code minus that of 'A', plus 1. */
  function WordValue(word: string): int
  {
    if word == [] then 0 else WordValue(word[..|word| - 1]) + (word[|word| - 1] as int - 'A' as int + 1)
  }

  ghost predicate IsTriangular(v: int)
  {
    exists k: nat :: k >= 1 && v == Tri(k)
  }

  /** The upper-case letters have values 1..26, so an upper-case word has
      a value between its length and 26 times its length. */
  lemma {:induction false} WordValueBounds(word: string)
    requires forall i :: 0 <= i < |word| ==> 'A' <= word[i] <= 'Z'
    ensures |word| <= WordValue(word) <= 26 * |word|
  {
    if word != [] {
      WordValueBounds(word[..|word| - 1]);
    }
  }

  /** The number of triangular words, as `sum(1 for word in words if ...)`. */
  ghost function TriangularWordCount(words: seq<string>): nat
  {
    if words == [] then 0
    else TriangularWordCount(words[..|words| - 1]) + (if IsTriangular(WordValue(words[|words| - 1])) then 1 else 0)
  }

  lemma {:induction false} TriangularWordCountBound(words: seq<string>)
    ensures TriangularWordCount(words) <= |words|
  {
    if words != [] {
      TriangularWordCountBound(words[..|words| - 1]);
    }
  }

  /** "SKY" has value 19 + 11 + 25 = 55 = T_10. */
  lemma SkyIsTriangular()
    ensures WordValue("SKY") == 55 && IsTriangular(55)
  {
    assert "SKY"[..2] == "SK";
    assert "SK"[..1] == "S";
    assert "S"[..0] == "";
    assert Tri(10) == 55;
  }

  /** The memo of `triangular_numbers` inside `count_triangular_words`: the
      function attributes `triangular_nums` (starting at [1]) and `n`
      (starting at 2). */
  class TriangularMemo {
    var triangularNums: seq<int>
    var n: int

    /** The list is T_1, ..., T_(n-1). */
    ghost predicate Valid()
      reads this
    {
      n >= 2 && |triangularNums| == n - 1 &&
      forall i :: 0 <= i < |triangularNums| ==> triangularNums[i] == Tri(i + 1)
    }

    constructor ()
      ensures Valid() && triangularNums == [1] && n == 2
    {
      triangularNums := [1];
      n := 2;
    }

    /** The decorated `triangular_numbers(maxi)`: extends the list with
        n (n + 1) / 2 until its last element reaches maxi. */
    method Extend(maxi: int)
      requires Valid()
      modifies this
      ensures Valid() && old(triangularNums) <= triangularNums
      ensures triangularNums[|triangularNums| - 1] >= maxi
      ensures |triangularNums| > |old(triangularNums)| ==> triangularNums[|triangularNums| - 2] < maxi
    {
      while triangularNums[|triangularNums| - 1] < maxi
        invariant Valid() && old(triangularNums) <= triangularNums
        invariant |triangularNums| > |old(triangularNums)| ==> triangularNums[|triangularNums| - 2] < maxi
        decreases maxi - triangularNums[|triangularNums| - 1]
      {
        TriClosedForm(n);
        var nextNum := n * (n + 1) / 2;
        triangularNums := triangularNums + [nextNum];
        n := n + 1;
      }
    }

    /** `is_triangular_word`: the list is extended past the word's value
        if needed, then searched. */
    method IsTriangularWord(word: string) returns (b: bool)
      requires Valid()
      modifies this
      ensures Valid() && old(triangularNums) <= triangularNums
      ensures triangularNums[|triangularNums| - 1] >= WordValue(word)
      ensures |triangularNums| > |old(triangularNums)| ==> triangularNums[|triangularNums| - 2] < WordValue(word)
      ensures old(triangularNums[|triangularNums| - 1]) >= WordValue(word) ==> triangularNums == old(triangularNums)
      ensures b == IsTriangular(WordValue(word))
    {
      var wordVal := WordValue(word);
      if wordVal > triangularNums[|triangularNums| - 1] {
        Extend(wordVal);
      }
      b := wordVal in triangularNums;
      MemoMembership(triangularNums, wordVal);
    }
  }

  /** A memo list T_1, ..., T_K with T_K >= v holds v exactly when v is
      triangular. */
  lemma MemoMembership(nums: seq<int>, v: int)
    requires nums != [] && forall i :: 0 <= i < |nums| ==> nums[i] == Tri(i + 1)
    requires nums[|nums| - 1] >= v
    ensures v in nums <==> IsTriangular(v)
  {
    if IsTriangular(v) {
      var k: nat :| k >= 1 && v == Tri(k);
      if k > |nums| {
        TriStrictlyIncreasing(|nums|, k);
      } else {
        assert nums[k - 1] == v;
      }
    }
    if v in nums {
      var i :| 0 <= i < |nums| && nums[i] == v;
      assert i + 1 >= 1 && v == Tri(i + 1);
    }
  }

  /** `count_triangular_words`: a fresh memo per call, one membership test
      per word. */
  method CountTriangularWords(words: seq<string>) returns (count: int)
    ensures count == TriangularWordCount(words)
    ensures 0 <= count <= |words|
  {
    var memo := new TriangularMemo();
    count := 0;
    var i := 0;
    while i < |words|
      invariant 0 <= i <= |words| && memo.Valid()
      invariant count == TriangularWordCount(words[..i])
    {
      var b := memo.IsTriangularWord(words[i]);
      assert words[..i + 1][..i] == words[..i];
      if b {
        count := count + 1;
      }
      i := i + 1;
    }
    assert words[..|words|] == words;
    TriangularWordCountBound(words);
  }
}
