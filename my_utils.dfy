/** The digit and number helpers of `Features/my_utils.py`: binary search,
    modular exponentiation, decimal digit lists, reversal, digit counting
    and concatenation of numbers. */
module MyUtils {
  import opened Wrappers
  import opened Arith
  import opened Sorting

  // ---------------------------------------------------------------------
  // Decimal digits

  /** 10^k, known to be positive. */
  function Pow10(k: nat): (r: int)
    ensures r >= 1 && r == Pow(10, k)
  {
    PowPositive(10, k);
    Pow(10, k)
  }

  /** The decimal digits of `n`, most significant first; `[]` for n <= 0. */
  function Digits(n: int): (r: seq<int>)
    ensures forall i :: 0 <= i < |r| ==> 0 <= r[i] <= 9
    ensures n > 0 <==> r != []
    ensures n > 0 ==> r[0] != 0
    decreases n
  {
    if n <= 0 then [] else Digits(n / 10) + [n % 10]
  }

  /** The number that a list of decimal digits spells, most significant first. */
  function FromDigits(ds: seq<int>): int
  {
    if ds == [] then 0 else FromDigits(ds[..|ds| - 1]) * 10 + ds[|ds| - 1]
  }

  /** A well-formed digit list: digits 0..9 and no leading zero. */
  predicate IsDigitList(ds: seq<int>)
  {
    (forall i :: 0 <= i < |ds| ==> 0 <= ds[i] <= 9) && (ds == [] || ds[0] != 0)
  }

  lemma {:induction false} FromDigitsOfDigits(n: int)
    requires n >= 0
    ensures FromDigits(Digits(n)) == n
  {
    if n > 0 {
      var d := Digits(n);
      assert d[..|d| - 1] == Digits(n / 10);
      FromDigitsOfDigits(n / 10);
    }
  }

  lemma {:induction false} FromDigitsConcat(a: seq<int>, b: seq<int>)
    ensures FromDigits(a + b) == FromDigits(a) * Pow(10, |b|) + FromDigits(b)
  {
    if b == [] {
      assert a + b == a;
    } else {
      var b' := b[..|b| - 1];
      assert (a + b)[..|a + b| - 1] == a + b';
      FromDigitsConcat(a, b');
      calc {
        FromDigits(a + b);
        FromDigits(a + b') * 10 + b[|b| - 1];
        (FromDigits(a) * Pow(10, |b'|) + FromDigits(b')) * 10 + b[|b| - 1];
        FromDigits(a) * (Pow(10, |b'|) * 10) + (FromDigits(b') * 10 + b[|b| - 1]);
        FromDigits(a) * Pow(10, |b|) + FromDigits(b);
      }
    }
  }

  /** Appending a digit at the low end. */
  lemma FromDigitsSnoc(s: seq<int>, d: int)
    ensures FromDigits(s + [d]) == FromDigits(s) * 10 + d
  {
    assert (s + [d])[..|s|] == s;
  }

  lemma FromDigitsOne(a: int)
    ensures FromDigits([a]) == a
  {
    FromDigitsSnoc([], a);
    assert [] + [a] == [a];
  }

  lemma FromDigitsTwo(a: int, b: int)
    ensures FromDigits([a, b]) == a * 10 + b
  {
    FromDigitsOne(a);
    FromDigitsSnoc([a], b);
    assert [a] + [b] == [a, b];
  }

  lemma FromDigitsThree(a: int, b: int, c: int)
    ensures FromDigits([a, b, c]) == (a * 10 + b) * 10 + c
  {
    FromDigitsTwo(a, b);
    FromDigitsSnoc([a, b], c);
    assert [a, b] + [c] == [a, b, c];
  }

  lemma FromDigitsFour(a: int, b: int, c: int, d: int)
    ensures FromDigits([a, b, c, d]) == ((a * 10 + b) * 10 + c) * 10 + d
  {
    FromDigitsThree(a, b, c);
    FromDigitsSnoc([a, b, c], d);
    assert [a, b, c] + [d] == [a, b, c, d];
  }

  lemma FromDigitsFive(a: int, b: int, c: int, d: int, e: int)
    ensures FromDigits([a, b, c, d, e]) == (((a * 10 + b) * 10 + c) * 10 + d) * 10 + e
  {
    FromDigitsFour(a, b, c, d);
    FromDigitsSnoc([a, b, c, d], e);
    assert [a, b, c, d] + [e] == [a, b, c, d, e];
  }

  lemma FromDigitsSix(a: int, b: int, c: int, d: int, e: int, f: int)
    ensures FromDigits([a, b, c, d, e, f]) == ((((a * 10 + b) * 10 + c) * 10 + d) * 10 + e) * 10 + f
  {
    FromDigitsFive(a, b, c, d, e);
    FromDigitsSnoc([a, b, c, d, e], f);
    assert [a, b, c, d, e] + [f] == [a, b, c, d, e, f];
  }

  /** A list of k digits spells a number below 10^k, and at least 10^(k-1)
      when its first digit is not zero. */
  lemma {:induction false} FromDigitsBounds(ds: seq<int>)
    requires forall i :: 0 <= i < |ds| ==> 0 <= ds[i] <= 9
    ensures 0 <= FromDigits(ds) < Pow(10, |ds|)
    ensures ds != [] && ds[0] != 0 ==> Pow(10, |ds| - 1) <= FromDigits(ds)
  {
    if ds != [] {
      var init := ds[..|ds| - 1];
      FromDigitsBounds(init);
      assert FromDigits(ds) == FromDigits(init) * 10 + ds[|ds| - 1];
      assert FromDigits(init) <= Pow(10, |init|) - 1;
      assert FromDigits(init) * 10 <= Pow(10, |init|) * 10 - 10;
      if |ds| > 1 {
        assert init[0] == ds[0];
        assert Pow(10, |init| - 1) * 10 == Pow(10, |ds| - 1);
        assert ds[0] != 0 ==> Pow(10, |init| - 1) * 10 <= FromDigits(init) * 10;
      }
    }
  }

  lemma {:induction false} DigitsOfFromDigits(ds: seq<int>)
    requires IsDigitList(ds)
    ensures Digits(FromDigits(ds)) == ds
  {
    if ds != [] {
      var init := ds[..|ds| - 1];
      var x := FromDigits(ds);
      FromDigitsBounds(ds);
      FromDigitsBounds(init);
      ModUnique(x, FromDigits(init), ds[|ds| - 1], 10);
      assert |init| > 0 ==> init[0] == ds[0];
      DigitsOfFromDigits(init);
      assert ds == init + [ds[|ds| - 1]];
    }
  }

  /** n has k digits exactly when 10^(k-1) <= n < 10^k. */
  lemma DigitsLength(n: int)
    requires n > 0
    ensures Pow(10, |Digits(n)| - 1) <= n < Pow(10, |Digits(n)|)
  {
    FromDigitsOfDigits(n);
    FromDigitsBounds(Digits(n));
  }

  /** Dropping k low digits is dividing by 10^k. */
  lemma {:induction false} DigitsDropLow(n: int, k: nat)
    requires n >= 0 && k <= |Digits(n)|
    ensures Digits(n / Pow10(k)) == Digits(n)[..|Digits(n)| - k]
  {
    if k > 0 {
      var d := Digits(n);
      assert d[..|d| - 1] == Digits(n / 10);
      DigitsDropLow(n / 10, k - 1);
      DivDiv(n, 10, Pow10(k - 1));
      assert Digits(n / 10)[..|Digits(n / 10)| - (k - 1)] == d[..|d| - k];
    }
  }

  lemma DivDiv(n: int, a: int, b: int)
    requires n >= 0 && a > 0 && b > 0
    ensures n / a / b == n / (a * b)
  {
    var q := n / a / b;
    var r := n / a % b;
    var s := n % a;
    assert n == (q * b + r) * a + s;
    assert n == q * (a * b) + (r * a + s);
    assert r * a + s <= (b - 1) * a + (a - 1);
    ModUnique(n, q, r * a + s, a * b);
  }

  /** `get_digits`: once the loop leaves n, `digits` holds the digits
      least significant first and is reversed. */
  method GetDigits(n: int) returns (digits: seq<int>)
    ensures digits == Digits(n)
  {
    var rest := n;
    var low: seq<int> := [];
    while rest > 0
      invariant rest >= 0 || low == []
      invariant Digits(n) == Digits(rest) + Reverse(low)
      decreases rest
    {
      assert Reverse(low + [rest % 10]) == [rest % 10] + Reverse(low);
      low := low + [rest % 10];
      rest := rest / 10;
    }
    digits := Reverse(low);
  }

  // ---------------------------------------------------------------------
  // Reversal

  function Reverse<T>(s: seq<T>): (r: seq<T>)
    ensures |r| == |s|
    ensures forall i :: 0 <= i < |s| ==> r[i] == s[|s| - 1 - i]
  {
    if s == [] then [] else Reverse(s[1..]) + [s[0]]
  }

  lemma ReverseReverse<T>(s: seq<T>)
    ensures Reverse(Reverse(s)) == s
  {
  }

  /** The number whose digits are those of n in reverse order. */
  function Reversed(n: int): int
  {
    FromDigits(Reverse(Digits(n)))
  }

  /** `reverse_number`: the loop shifts the low digit of n onto the result. */
  method ReverseNumber(n: int) returns (reversed: int)
    ensures reversed == Reversed(n)
    ensures n <= 0 ==> reversed == 0
  {
    var rest := n;
    reversed := 0;
    while rest > 0
      invariant rest >= 0 || reversed == 0
      invariant Reversed(n) == reversed * Pow(10, |Digits(rest)|) + Reversed(rest)
      decreases rest
    {
      ReversedStep(rest);
      ghost var p := Pow(10, |Digits(rest / 10)|);
      assert Pow(10, |Digits(rest)|) == 10 * p;
      ShiftDigit(reversed, rest % 10, p);
      reversed := reversed * 10 + rest % 10;
      rest := rest / 10;
    }
  }

  lemma ShiftDigit(r: int, d: int, p: int)
    ensures r * (10 * p) + d * p == (r * 10 + d) * p
  {
  }

  /** Reversing n puts its low digit in front of the reversal of n / 10. */
  lemma ReversedStep(n: int)
    requires n > 0
    ensures |Digits(n)| == |Digits(n / 10)| + 1
    ensures Reversed(n) == (n % 10) * Pow(10, |Digits(n / 10)|) + Reversed(n / 10)
  {
    var d := n % 10;
    var high := Digits(n / 10);
    assert Digits(n) == high + [d];
    assert Reverse(high + [d]) == [d] + Reverse(high);
    FromDigitsConcat([d], Reverse(high));
    assert FromDigits([d]) == d by {
      assert [d][..0] == [];
    }
  }

  /** Reversal drops trailing zeros, so it is its own inverse exactly on the
      positive numbers that do not end in 0. */
  lemma ReversedInvolutive(n: int)
    requires n > 0 && n % 10 != 0
    ensures Reversed(Reversed(n)) == n
  {
    var d := Digits(n);
    assert d[|d| - 1] == n % 10;
    assert IsDigitList(Reverse(d));
    DigitsOfFromDigits(Reverse(d));
    ReverseReverse(d);
    FromDigitsOfDigits(n);
  }

  lemma ReversedDropsTrailingZero(n: int)
    requires n > 0
    ensures Reversed(10 * n) == Reversed(n)
  {
    DigitsTimesTen(n);
    ReverseSnoc(Digits(n), 0);
    FromDigitsLeadingZero(Reverse(Digits(n)));
  }

  /** Appending a zero digit multiplies by ten. */
  lemma DigitsTimesTen(n: int)
    requires n > 0
    ensures Digits(10 * n) == Digits(n) + [0]
  {
    ModUnique(10 * n, n, 0, 10);
  }

  lemma ReverseSnoc<T>(s: seq<T>, x: T)
    ensures Reverse(s + [x]) == [x] + Reverse(s)
  {
    var a, b := Reverse(s + [x]), [x] + Reverse(s);
    assert |a| == |b|;
    forall i | 0 <= i < |a| ensures a[i] == b[i] {
      if i > 0 {
        assert a[i] == (s + [x])[|s| - i];
      }
    }
  }

  /** A leading zero does not change the number spelled. */
  lemma FromDigitsLeadingZero(s: seq<int>)
    ensures FromDigits([0] + s) == FromDigits(s)
  {
    FromDigitsConcat([0], s);
    assert [0][..0] == [];
  }

  // ---------------------------------------------------------------------
  // Palindromes

  /** `is_palindrome`: the digit list reads the same both ways. */
  predicate IsPalindrome(n: int)
  {
    Digits(n) == Reverse(Digits(n))
  }

  /** For a positive number, being a palindrome is being fixed by reversal. */
  lemma PalindromeIffReverseFixed(n: int)
    requires n > 0
    ensures IsPalindrome(n) <==> Reversed(n) == n
  {
    var d := Digits(n);
    FromDigitsOfDigits(n);
    if n % 10 == 0 {
      ReversedSmaller(n);
    } else {
      assert Reverse(d)[0] == n % 10;
      DigitsOfFromDigits(Reverse(d));
    }
  }

  /** A number ending in 0 loses a digit when reversed. */
  lemma ReversedSmaller(n: int)
    requires n > 0 && n % 10 == 0
    ensures Reversed(n) < n
  {
    var r := Reverse(Digits(n));
    assert Digits(n)[|Digits(n)| - 1] == n % 10;
    var t := ZeroThenTail(r);
    FromDigitsLeadingZero(t);
    FromDigitsBounds(t);
    DigitsLength(n);
  }

  /** A digit list starting with 0 is that 0 before a shorter digit list. */
  lemma ZeroThenTail(r: seq<int>) returns (t: seq<int>)
    requires r != [] && r[0] == 0 && forall i :: 0 <= i < |r| ==> 0 <= r[i] <= 9
    ensures r == [0] + t && |t| == |r| - 1
    ensures forall i :: 0 <= i < |t| ==> 0 <= t[i] <= 9
  {
    t := r[1..];
    assert r == [0] + t;
    forall i | 0 <= i < |t| ensures 0 <= t[i] <= 9 {
      assert t[i] == r[i + 1];
    }
  }

  // ---------------------------------------------------------------------
  // Digit counting and concatenation

  function Abs(x: int): nat
  {
    if x < 0 then -x else x
  }

  /** `number_len`, counted exactly rather than through `log10`. */
  function NumberLen(n: int): (r: nat)
    ensures r >= 1
    ensures n != 0 ==> Pow(10, r - 1) <= Abs(n) < Pow(10, r)
  {
    if n == 0 then 1
    else
      DigitsLength(Abs(n));
      |Digits(Abs(n))|
  }

  /** `num_concatenate`: for positive numbers the digits of the result are
      the digits of `first` followed by those of `second`; a zero `second`
      contributes one digit 0. */
  function NumConcatenate(first: int, second: int): (r: int)
    ensures first > 0 && second > 0 ==> Digits(r) == Digits(first) + Digits(second)
    ensures first > 0 && second == 0 ==> Digits(r) == Digits(first) + [0]
  {
    var r := first * Pow(10, NumberLen(second)) + second;
    if first > 0 && second > 0 then
      ConcatDigits(first, second);
      r
    else if first > 0 && second == 0 then
      assert Pow(10, 1) == 10;
      assert Digits(first * 10) == Digits(first) + [0];
      r
    else r
  }

  lemma ConcatDigits(first: int, second: int)
    requires first > 0 && second > 0
    ensures Digits(first * Pow(10, NumberLen(second)) + second) == Digits(first) + Digits(second)
  {
    var a, b := Digits(first), Digits(second);
    FromDigitsOfDigits(first);
    FromDigitsOfDigits(second);
    FromDigitsConcat(a, b);
    assert (a + b)[0] == a[0];
    assert IsDigitList(a + b);
    DigitsOfFromDigits(a + b);
  }

  /** The digits of a list of numbers, written one after the other. */
  function JoinDigits(xs: seq<int>): seq<int>
  {
    if xs == [] then [] else JoinDigits(xs[..|xs| - 1]) + Digits(xs[|xs| - 1])
  }

  /** `massive_concatenate`: `reduce(num_concatenate, xs)`, which raises on
      an empty list; on positive numbers the digits are joined. */
  function MassiveConcatenate(xs: seq<int>): (r: Option<int>)
    ensures r.Some? <==> xs != []
    ensures r.Some? && (forall i :: 0 <= i < |xs| ==> xs[i] > 0) ==>
              r.value > 0 && Digits(r.value) == JoinDigits(xs)
  {
    if xs == [] then None
    else if |xs| == 1 then
      assert JoinDigits(xs) == JoinDigits([]) + Digits(xs[0]);
      Some(xs[0])
    else
      var init := xs[..|xs| - 1];
      var acc := MassiveConcatenate(init).value;
      assert forall i :: 0 <= i < |init| ==> init[i] == xs[i];
      Some(NumConcatenate(acc, xs[|xs| - 1]))
  }

  /** `get_digit_by_position`: the digit at position i, counted from the
      left from 0; the source computes a float for positions outside the
      number. */
  function GetDigitByPosition(n: int, position: int): (r: int)
    requires 0 <= position < NumberLen(n)
    ensures 0 <= r <= 9
    ensures n > 0 ==> r == Digits(n)[position]
    ensures n == 0 ==> r == 0
  {
    var k := NumberLen(n) - position - 1;
    var r := (n / Pow10(k)) % 10;
    if n > 0 then
      DigitAt(n, position);
      r
    else r
  }

  lemma DigitAt(n: int, position: int)
    requires n > 0 && 0 <= position < |Digits(n)|
    ensures (n / Pow10(|Digits(n)| - position - 1)) % 10 == Digits(n)[position]
  {
    var d := Digits(n);
    var k := |d| - position - 1;
    DigitsDropLow(n, k);
    var m := n / Pow10(k);
    assert Digits(m) == d[..position + 1];
    assert m > 0;
    assert Digits(m) == Digits(m / 10) + [m % 10];
  }

  // ---------------------------------------------------------------------
  // Binary search and modular exponentiation

  /** `binary_search`: a found index holds `num`; on a sorted list `None`
      means `num` is absent. */
  method BinarySearch(mass: seq<int>, num: int) returns (r: Option<nat>)
    ensures r.Some? ==> r.value < |mass| && mass[r.value] == num
    ensures Sorted(mass) && r.None? ==> num !in mass
  {
    var start, end := 0, |mass|;
    while start < end
      invariant 0 <= start <= end <= |mass|
      invariant Sorted(mass) ==> forall i :: 0 <= i < |mass| && (i < start || end <= i) ==> mass[i] != num
      decreases end - start
    {
      var middle := (start + end) / 2;
      if num == mass[middle] {
        return Some(middle);
      } else if num > mass[middle] {
        start := middle + 1;
      } else {
        end := middle;
      }
    }
    return None;
  }

  /** `mod_exp`: square-and-multiply. The result is `base^exp mod m`,
      except that a zero (or negative) exponent gives 1 without reduction. */
  method ModExp(base: int, exp: int, m: int) returns (result: int)
    requires m >= 1
    ensures exp > 0 ==> result == Pow(base, exp) % m
    ensures exp <= 0 ==> result == 1
  {
    result := 1;
    var b := base % m;
    var e := exp;
    ghost var e0: nat := if exp > 0 then exp else 0;
    ghost var target := Pow(base % m, e0) % m;
    PowMod(base, e0, m);
    while e > 0
      invariant 0 <= b < m
      invariant exp > 0 ==> e >= 0 && (result * Pow(b, e)) % m == target
      invariant exp > 0 && e == 0 ==> 0 <= result < m
      invariant exp <= 0 ==> result == 1
      decreases e
    {
      SquareStep(result, b, e, m);
      if e % 2 == 1 {
        result := (result * b) % m;
      }
      e := e / 2;
      b := (b * b) % m;
    }
    if exp > 0 {
      ModUnique(result, 0, result, m);
    }
  }

  /** One round of `mod_exp` keeps `result * base^exp` fixed modulo m. */
  lemma SquareStep(result: int, b: int, e: nat, m: int)
    requires m >= 1
    ensures ((if e % 2 == 1 then (result * b) % m else result) * Pow((b * b) % m, e / 2)) % m
            == (result * Pow(b, e)) % m
  {
    PowMod(b * b, e / 2, m);
    PowSplit(b, e);
    if e % 2 == 1 {
      OddStep(result, b, Pow(b * b, e / 2), Pow((b * b) % m, e / 2), m);
    } else {
      MulCongruent(result, result, Pow((b * b) % m, e / 2), Pow(b * b, e / 2), m);
    }
  }

  lemma OddStep(result: int, b: int, p: int, q: int, m: int)
    requires m >= 1 && q % m == p % m
    ensures (((result * b) % m) * q) % m == (result * (b * p)) % m
  {
    var c := result * b;
    ModOfMod(c, m);
    MulCongruent(c % m, c, q, p, m);
    MulAssoc(result, b, p);
  }

  lemma ModOfMod(c: int, m: int)
    requires m >= 1
    ensures (c % m) % m == c % m
  {
  }

  lemma MulAssoc(x: int, y: int, z: int)
    ensures (x * y) * z == x * (y * z)
  {
  }

  lemma PowSplit(b: int, e: nat)
    ensures Pow(b, e) == (if e % 2 == 1 then b else 1) * Pow(b * b, e / 2)
  {
    PowOfPow(b, 2, e / 2);
    assert Pow(b, 2) == b * Pow(b, 1);
    if e % 2 == 1 {
      PowAdd(b, 1, 2 * (e / 2));
      assert e == 1 + 2 * (e / 2);
    } else {
      assert e == 2 * (e / 2);
    }
  }
}
