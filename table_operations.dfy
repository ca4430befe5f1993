/** The text tables of `Features/TableOperations.py`: `table` reads a block
    of whitespace-separated integers together with the width of its first
    line, and `triangle` finds the best top-to-bottom path through a number
    triangle by dynamic programming from the bottom row up.

    Strings are sequences of code points. Whitespace and line boundaries
    are the code points Python's `str.split()` and `str.splitlines()` use;
    `int()` is modelled for a token made of an optional sign and ASCII
    digits. */
module TableOperations {
  import opened Wrappers
  import opened Arith
  import opened MyUtils

  // ---------------------------------------------------------------------
  // Characters

  /** The code points `str.split()` without an argument treats as
      whitespace. */
  predicate IsSpace(c: char)
  {
    var k := c as int;
    9 <= k <= 13 || 28 <= k <= 32 || k == 0x85 || k == 0xA0 || k == 0x1680
    || 0x2000 <= k <= 0x200A || k == 0x2028 || k == 0x2029 || k == 0x202F
    || k == 0x205F || k == 0x3000
  }

  /** The code points at which `str.splitlines()` ends a line. */
  predicate IsLineBreak(c: char)
  {
    var k := c as int;
    10 <= k <= 13 || 28 <= k <= 30 || k == 0x85 || k == 0x2028 || k == 0x2029
  }

  /** Every line boundary is whitespace. */
  lemma LineBreakIsSpace(c: char)
    requires IsLineBreak(c)
    ensures IsSpace(c)
  {
  }

  predicate NoSpace(t: string)
  {
    forall i :: 0 <= i < |t| ==> !IsSpace(t[i])
  }

  predicate AllSpace(t: string)
  {
    forall i :: 0 <= i < |t| ==> IsSpace(t[i])
  }

  predicate NoLineBreak(t: string)
  {
    forall i :: 0 <= i < |t| ==> !IsLineBreak(t[i])
  }

  /** The strings of ts with sep between each two neighbours. */
  function JoinWith(ts: seq<string>, sep: char): string
  {
    if ts == [] then []
    else if |ts| == 1 then ts[0]
    else ts[0] + [sep] + JoinWith(ts[1..], sep)
  }

  // ---------------------------------------------------------------------
  // str.split() without an argument

  /** The length of the run of non-whitespace characters s starts with. */
  function WordLength(s: string): (n: nat)
    ensures n <= |s| && NoSpace(s[..n])
    ensures n < |s| ==> IsSpace(s[n])
  {
    if s == [] || IsSpace(s[0]) then 0
    else
      var m := WordLength(s[1..]);
      assert s[..m + 1] == [s[0]] + s[1..][..m];
      1 + m
  }

  /** `s.split()`: the maximal runs of non-whitespace characters, in order. */
  function Split(s: string): (r: seq<string>)
    ensures forall k :: 0 <= k < |r| ==> r[k] != [] && NoSpace(r[k])
    decreases |s|
  {
    if s == [] then []
    else if IsSpace(s[0]) then Split(s[1..])
    else
      var n := WordLength(s);
      [s[..n]] + Split(s[n..])
  }

  lemma {:induction false} WordLengthConcat(a: string, c: char, b: string)
    requires IsSpace(c)
    ensures WordLength(a + [c] + b) == WordLength(a)
    decreases |a|
  {
    if a != [] && !IsSpace(a[0]) {
      assert (a + [c] + b)[1..] == a[1..] + [c] + b;
      WordLengthConcat(a[1..], c, b);
    }
  }

  /** A whitespace character between two strings keeps their words apart:
      the words of the whole are those of the left part, then those of the
      right. */
  lemma {:induction false} SplitConcat(a: string, c: char, b: string)
    requires IsSpace(c)
    ensures Split(a + [c] + b) == Split(a) + Split(b)
    decreases |a|
  {
    var s := a + [c] + b;
    if a == [] {
      assert s[1..] == b;
    } else if IsSpace(a[0]) {
      assert s[1..] == a[1..] + [c] + b;
      SplitConcat(a[1..], c, b);
    } else {
      var n := WordLength(a);
      WordLengthConcat(a, c, b);
      assert s[..n] == a[..n];
      assert s[n..] == a[n..] + [c] + b;
      SplitConcat(a[n..], c, b);
    }
  }

  /** A single word splits into itself. */
  lemma SplitWord(t: string)
    requires t != [] && NoSpace(t)
    ensures Split(t) == [t]
  {
    var n := WordLength(t);
    assert n == |t|;
    assert t[..n] == t && t[n..] == [];
  }

  /** Splitting words joined by whitespace gives the words back. */
  lemma {:induction false} SplitJoin(ts: seq<string>, sep: char)
    requires IsSpace(sep)
    requires forall k :: 0 <= k < |ts| ==> ts[k] != [] && NoSpace(ts[k])
    ensures Split(JoinWith(ts, sep)) == ts
  {
    if |ts| == 1 {
      SplitWord(ts[0]);
    } else if |ts| > 1 {
      SplitConcat(ts[0], sep, JoinWith(ts[1..], sep));
      SplitWord(ts[0]);
      SplitJoin(ts[1..], sep);
    }
  }

  // ---------------------------------------------------------------------
  // int() and str() on tokens

  predicate IsDigitChar(c: char)
  {
    '0' <= c <= '9'
  }

  predicate AllDigits(t: string)
  {
    forall i :: 0 <= i < |t| ==> IsDigitChar(t[i])
  }

  /** A digit is neither whitespace nor a line boundary. */
  lemma DigitClass(t: string)
    requires AllDigits(t)
    ensures NoSpace(t) && NoLineBreak(t)
  {
  }

  function DigitChar(d: int): (c: char)
    requires 0 <= d <= 9
    ensures IsDigitChar(c) && c as int - '0' as int == d
  {
    ('0' as int + d) as char
  }

  /** The characters of a list of decimal digits. */
  function Numeral(ds: seq<int>): (r: string)
    requires forall i :: 0 <= i < |ds| ==> 0 <= ds[i] <= 9
    ensures |r| == |ds| && AllDigits(r)
  {
    if ds == [] then [] else Numeral(ds[..|ds| - 1]) + [DigitChar(ds[|ds| - 1])]
  }

  /** The digit values of a string of digit characters. */
  function DigitValues(t: string): seq<int>
  {
    if t == [] then [] else DigitValues(t[..|t| - 1]) + [t[|t| - 1] as int - '0' as int]
  }

  lemma {:induction false} DigitValuesOfNumeral(ds: seq<int>)
    requires forall i :: 0 <= i < |ds| ==> 0 <= ds[i] <= 9
    ensures DigitValues(Numeral(ds)) == ds
  {
    if ds != [] {
      var t := Numeral(ds);
      assert t[..|t| - 1] == Numeral(ds[..|ds| - 1]);
      DigitValuesOfNumeral(ds[..|ds| - 1]);
    }
  }

  /** `str(m)` for m >= 0: its decimal digits, or "0". */
  function ShowNat(m: nat): (r: string)
    ensures r != [] && AllDigits(r)
  {
    Numeral(if m == 0 then [0] else Digits(m))
  }

  /** `str(n)`: the decimal numeral of n, after a minus sign when n is
      negative. */
  function Show(n: int): (r: string)
    ensures r != [] && NoSpace(r) && NoLineBreak(r)
  {
    var numeral := ShowNat(Abs(n));
    DigitClass(numeral);
    if n < 0 then "-" + numeral else numeral
  }

  /** Digits in groups: ASCII digits, where a single `_` may stand between
      two digits, as in "1_000". */
  predicate GroupedDigits(t: string)
  {
    t != [] && IsDigitChar(t[0]) && IsDigitChar(t[|t| - 1]) &&
    forall i :: 0 <= i < |t| ==>
      IsDigitChar(t[i]) || (t[i] == '_' && 0 < i < |t| - 1 && IsDigitChar(t[i - 1]) && IsDigitChar(t[i + 1]))
  }

  /** The token with its group separators removed. */
  function Ungrouped(t: string): (r: string)
    ensures |r| <= |t|
  {
    if t == [] then []
    else Ungrouped(t[..|t| - 1]) + (if t[|t| - 1] == '_' then [] else [t[|t| - 1]])
  }

  /** `int(t)` for an unsigned token: one or more ASCII digits, possibly
      grouped by single underscores. */
  function ParseNat(t: string): (r: Option<int>)
    ensures r.Some? <==> GroupedDigits(t)
    ensures AllDigits(t) && t != [] ==> r == Some(FromDigits(DigitValues(t)))
  {
    if GroupedDigits(t) then
      UngroupedDigits(t);
      Some(FromDigits(DigitValues(Ungrouped(t))))
    else None
  }

  /** Removing no separators changes nothing. */
  lemma {:induction false} UngroupedDigits(t: string)
    ensures AllDigits(t) ==> Ungrouped(t) == t
  {
    if t != [] && AllDigits(t) {
      var front := t[..|t| - 1];
      assert AllDigits(front);
      UngroupedDigits(front);
      assert front + [t[|t| - 1]] == t;
    }
  }

  /** "1_0" reads as 10. */
  lemma GroupedTen()
    ensures ParseNat("1_0") == Some(10)
  {
    var t := "1_0";
    assert GroupedDigits(t);
    assert t[..2] == "1_" && t[..2][..1] == "1" && "1"[..0] == [];
    assert Ungrouped(t) == "10";
    assert "10"[..1] == "1";
    assert DigitValues("10") == [1, 0];
    FromDigitsTwo(1, 0);
  }

  /** Python reads "1_0" as 10 and "-1_0" as -10. */
  lemma GroupedExamples()
    ensures ParseInt("1_0") == Some(10) && ParseInt("-1_0") == Some(-10)
  {
    GroupedTen();
    var t := "-1_0";
    assert t[0] == '-' && t[1..] == "1_0";
  }

  /** The comprehension over the tokens of "1_0 2" reads [10, 2]. */
  lemma ParseAllGrouped()
    ensures ParseAll(["1_0", "2"]) == Some([10, 2])
  {
    GroupedExamples();
    ReadsTwo();
    ReadPair("1_0", "2", 10, 2, ParseInt);
  }

  /** Two items that read as x and y read together as [x, y]. */
  lemma ReadPair<T>(a: string, b: string, x: T, y: T, read: string -> Option<T>)
    requires read(a) == Some(x) && read(b) == Some(y)
    ensures ReadEach([a, b], read) == Some([x, y])
  {
    var items := [a, b];
    var front := items[..|items| - 1];
    assert front == [a] && front[..|front| - 1] == [] && front[|front| - 1] == a;
    assert ReadEach(front[..|front| - 1], read) == Some([]);
    assert ReadEach(front, read) == Some([] + [x]);
    assert items[|items| - 1] == b && [] + [x] + [y] == [x, y];
  }

  lemma ReadsTwo()
    ensures ParseInt("2") == Some(2)
  {
    var t := "2";
    assert t[0] == '2' && AllDigits(t) && t[..0] == [];
    assert DigitValues(t) == [2];
    assert FromDigits([2]) == 2 by { assert [2][..0] == []; }
  }

  /** A leading, a trailing or a doubled underscore raises ValueError. */
  lemma GroupedRejects()
    ensures ParseInt("_1") == None && ParseInt("1_") == None && ParseInt("1__0") == None
  {
    RejectedAt("_1", 0);
    RejectedAt("1_", 1);
    RejectedAt("1__0", 1);
  }

  /** An underscore at the edge or beside another one spoils the token. */
  lemma RejectedAt(t: string, i: int)
    requires 0 <= i < |t| && t[0] != '-' && t[0] != '+' && t[i] == '_'
    requires i == 0 || i == |t| - 1 || t[i + 1] == '_'
    ensures ParseInt(t) == None
  {
    if i != 0 && i != |t| - 1 {
      assert !IsDigitChar(t[i]) && !IsDigitChar(t[i + 1]);
      assert !(IsDigitChar(t[i]) || (t[i] == '_' && 0 < i < |t| - 1 && IsDigitChar(t[i - 1]) && IsDigitChar(t[i + 1])));
    }
  }

  /** `int(t)`: an optional sign, then ASCII digits possibly grouped by
      single underscores; any other token raises ValueError, here None. */
  function ParseInt(t: string): Option<int>
  {
    if t != [] && (t[0] == '-' || t[0] == '+') then
      match ParseNat(t[1..])
      case None => None
      case Some(v) => Some(if t[0] == '-' then -v else v)
    else ParseNat(t)
  }

  lemma ParseShowNat(m: nat)
    ensures ParseNat(ShowNat(m)) == Some(m)
  {
    var ds := if m == 0 then [0] else Digits(m);
    DigitValuesOfNumeral(ds);
    if m == 0 {
      assert ds[..0] == [];
      assert FromDigits(ds) == 0;
    } else {
      FromDigitsOfDigits(m);
    }
  }

  /** `int(str(n)) == n`. */
  lemma ParseShow(n: int)
    ensures ParseInt(Show(n)) == Some(n)
  {
    var numeral := ShowNat(Abs(n));
    ParseShowNat(Abs(n));
    if n < 0 {
      assert Show(n)[1..] == numeral;
    } else {
      assert IsDigitChar(numeral[0]);
    }
  }

  /** Reads every item with `read`, failing (None) as soon as one item
      fails: a list comprehension over a conversion that may raise. */
  function ReadEach<T>(items: seq<string>, read: string -> Option<T>): (r: Option<seq<T>>)
    ensures r.Some? ==> |r.value| == |items|
  {
    if items == [] then Some([])
    else
      match ReadEach(items[..|items| - 1], read)
      case None => None
      case Some(xs) =>
        match read(items[|items| - 1])
        case None => None
        case Some(x) => Some(xs + [x])
  }

  /** The list is read exactly when every item is, and then holds each
      item's value in order. */
  lemma {:induction false} ReadEachMeaning<T>(items: seq<string>, read: string -> Option<T>)
    ensures ReadEach(items, read).Some? <==> forall k :: 0 <= k < |items| ==> read(items[k]).Some?
    ensures ReadEach(items, read).Some? ==>
      forall k :: 0 <= k < |items| ==> read(items[k]) == Some(ReadEach(items, read).value[k])
  {
    if items != [] {
      var front := items[..|items| - 1];
      ReadEachMeaning(front, read);
      assert forall k :: 0 <= k < |front| ==> front[k] == items[k];
    }
  }

  /** Items whose values are known read as those values. */
  lemma {:induction false} ReadEachValues<T>(items: seq<string>, xs: seq<T>, read: string -> Option<T>)
    requires |items| == |xs|
    requires forall k :: 0 <= k < |items| ==> read(items[k]) == Some(xs[k])
    ensures ReadEach(items, read) == Some(xs)
  {
    if items != [] {
      var n := |items| - 1;
      ReadEachValues(items[..n], xs[..n], read);
      assert xs[..n] + [xs[n]] == xs;
    }
  }

  /** Two lists of items read together. */
  lemma {:induction false} ReadEachConcat<T>(a: seq<string>, b: seq<string>, read: string -> Option<T>)
    ensures ReadEach(a + b, read) ==
      match (ReadEach(a, read), ReadEach(b, read))
      case (Some(xs), Some(ys)) => Some(xs + ys)
      case _ => None
  {
    if b == [] {
      assert a + b == a;
      if ReadEach(a, read).Some? {
        assert ReadEach(a, read).value + [] == ReadEach(a, read).value;
      }
    } else {
      var front := b[..|b| - 1];
      assert (a + b)[..|a + b| - 1] == a + front;
      assert (a + b)[|a + b| - 1] == b[|b| - 1];
      ReadEachConcat(a, front, read);
      if ReadEach(a, read).Some? && ReadEach(front, read).Some? && read(b[|b| - 1]).Some? {
        var xs, ys, y := ReadEach(a, read).value, ReadEach(front, read).value, read(b[|b| - 1]).value;
        assert xs + ys + [y] == xs + (ys + [y]);
      }
    }
  }

  /** `[int(x) for x in tokens]`. */
  function ParseAll(tokens: seq<string>): Option<seq<int>>
  {
    ReadEach(tokens, ParseInt)
  }

  /** The numerals of a list of integers. */
  function Shows(xs: seq<int>): (r: seq<string>)
    ensures |r| == |xs|
    ensures forall k :: 0 <= k < |xs| ==> r[k] == Show(xs[k])
  {
    seq(|xs|, k requires 0 <= k < |xs| => Show(xs[k]))
  }

  lemma ParseAllShows(xs: seq<int>)
    ensures ParseAll(Shows(xs)) == Some(xs)
  {
    forall k | 0 <= k < |xs|
      ensures ParseInt(Shows(xs)[k]) == Some(xs[k])
    {
      ParseShow(xs[k]);
    }
    ReadEachValues(Shows(xs), xs, ParseInt);
  }

  // ---------------------------------------------------------------------
  // table

  /** The length of the first line of s, up to its first line boundary. */
  function LineLength(s: string): (n: nat)
    ensures n <= |s| && NoLineBreak(s[..n])
    ensures n < |s| ==> IsLineBreak(s[n])
  {
    if s == [] || IsLineBreak(s[0]) then 0
    else
      var m := LineLength(s[1..]);
      assert s[..m + 1] == [s[0]] + s[1..][..m];
      1 + m
  }

  /** `table(tab)`: every whitespace-separated token read as an integer,
      and the number of tokens on the first line (0 for empty text, whose
      `splitlines()` is empty); None when a token is not a numeral. */
  function Table(tab: string): Option<(seq<int>, nat)>
  {
    var length := if tab == [] then 0 else |Split(tab[..LineLength(tab)])|;
    match ParseAll(Split(tab))
    case None => None
    case Some(numbers) => Some((numbers, length))
  }

  /** A line of numerals separated by single spaces, as `" ".join(map(str, xs))`. */
  function Row(xs: seq<int>): string
  {
    JoinWith(Shows(xs), ' ')
  }

  lemma {:induction false} JoinNoLineBreak(ts: seq<string>, sep: char)
    requires !IsLineBreak(sep)
    requires forall k :: 0 <= k < |ts| ==> NoLineBreak(ts[k])
    ensures NoLineBreak(JoinWith(ts, sep))
  {
    if |ts| > 1 {
      JoinNoLineBreak(ts[1..], sep);
      var rest := JoinWith(ts[1..], sep);
      var s := ts[0] + [sep] + rest;
      forall i | 0 <= i < |s|
        ensures !IsLineBreak(s[i])
      {
        if i > |ts[0]| {
          assert s[i] == rest[i - |ts[0]| - 1];
        }
      }
    }
  }

  lemma SplitRow(xs: seq<int>)
    ensures Split(Row(xs)) == Shows(xs)
    ensures NoLineBreak(Row(xs))
  {
    SplitJoin(Shows(xs), ' ');
    JoinNoLineBreak(Shows(xs), ' ');
  }

  lemma LineLengthAt(a: string, c: char, b: string)
    requires NoLineBreak(a) && IsLineBreak(c)
    ensures LineLength(a + [c] + b) == |a|
  {
    var s := a + [c] + b;
    assert s[|a|] == c;
  }

  /** A first line of numerals, a line boundary and any further text: the
      numbers are those of the first line followed by those of the rest,
      and the width is that of the first line. */
  lemma TableRows(first: seq<int>, c: char, rest: string)
    requires IsLineBreak(c)
    ensures Table(Row(first) + [c] + rest) ==
      match ParseAll(Split(rest))
      case None => None
      case Some(ys) => Some((first + ys, |first|))
  {
    var tab := Row(first) + [c] + rest;
    SplitRow(first);
    LineBreakIsSpace(c);
    SplitConcat(Row(first), c, rest);
    LineLengthAt(Row(first), c, rest);
    assert tab[..LineLength(tab)] == Row(first);
    ParseAllShows(first);
    ReadEachConcat(Shows(first), Split(rest), ParseInt);
  }

  /** A single line of numerals reads back as its numbers and their count. */
  lemma TableRow(xs: seq<int>)
    ensures Table(Row(xs)) == Some((xs, |xs|))
  {
    var tab := Row(xs);
    SplitRow(xs);
    ParseAllShows(xs);
    if tab != [] {
      var n := LineLength(tab);
      assert n == |tab|;
      assert tab[..n] == tab;
    }
  }

  /** The numeral of a one-digit number is its digit character. */
  lemma ShowDigit(d: int)
    requires 0 <= d <= 9
    ensures Show(d) == [DigitChar(d)]
  {
    if d > 0 {
      assert Digits(d) == Digits(d / 10) + [d % 10];
    }
  }

  lemma RowOfDigits(a: int, b: int, c: int)
    requires 0 <= a <= 9 && 0 <= b <= 9 && 0 <= c <= 9
    ensures Row([a, b, c]) == [DigitChar(a), ' ', DigitChar(b), ' ', DigitChar(c)]
  {
    ShowDigit(a);
    ShowDigit(b);
    ShowDigit(c);
    var ts := Shows([a, b, c]);
    assert ts == [[DigitChar(a)], [DigitChar(b)], [DigitChar(c)]];
    assert ts[1..][1..] == [[DigitChar(c)]];
    assert JoinWith(ts[1..][1..], ' ') == [DigitChar(c)];
    assert JoinWith(ts[1..], ' ') == [DigitChar(b), ' ', DigitChar(c)];
  }

  /** Two lines of numbers: all of them, and the width of the first. */
  lemma TableTwoRows(first: seq<int>, second: seq<int>)
    ensures Table(Row(first) + ['\n'] + Row(second)) == Some((first + second, |first|))
  {
    TableRows(first, '\n', Row(second));
    SplitRow(second);
    ParseAllShows(second);
  }

  lemma ExampleText(first: seq<int>, second: seq<int>)
    requires first == [1, 2, 3] && second == [4, 5, 6]
    ensures Row(first) + ['\n'] + Row(second) == "1 2 3\n4 5 6"
  {
    RowOfDigits(1, 2, 3);
    RowOfDigits(4, 5, 6);
    assert DigitChar(1) == '1' && DigitChar(2) == '2' && DigitChar(3) == '3';
    assert DigitChar(4) == '4' && DigitChar(5) == '5' && DigitChar(6) == '6';
  }

  /** The documented example: `table("1 2 3\n4 5 6") == ([1, 2, 3, 4, 5, 6], 3)`. */
  lemma TableExample()
    ensures Table("1 2 3\n4 5 6") == Some(([1, 2, 3, 4, 5, 6], 3))
  {
    var first, second := [1, 2, 3], [4, 5, 6];
    TableTwoRows(first, second);
    ExampleText(first, second);
    ExampleNumbers(first, second);
  }

  /** The text "1 2\n3 4" reads as the list [1, 2, 3, 4] with rows of 2. */
  lemma TableSquareExample()
    ensures Table("1 2\n3 4") == Some(([1, 2, 3, 4], 2))
  {
    var first, second := [1, 2], [3, 4];
    TableTwoRows(first, second);
    SquareExampleText(first, second);
    assert first + second == [1, 2, 3, 4];
  }

  lemma SquareExampleText(first: seq<int>, second: seq<int>)
    requires first == [1, 2] && second == [3, 4]
    ensures Row(first) + ['\n'] + Row(second) == "1 2\n3 4"
  {
    TwoDigitRowText(first, 1, 2, "1 2");
    TwoDigitRowText(second, 3, 4, "3 4");
    SquareExampleLines("1 2", "3 4");
  }

  lemma TwoDigitRowText(xs: seq<int>, a: int, b: int, text: string)
    requires 0 <= a <= 9 && 0 <= b <= 9 && xs == [a, b]
    requires text == [DigitChar(a), ' ', DigitChar(b)]
    ensures Row(xs) == text
  {
    RowOfTwoDigits(a, b);
  }

  lemma SquareExampleLines(s0: string, s1: string)
    requires s0 == "1 2" && s1 == "3 4"
    ensures s0 + ['\n'] + s1 == "1 2\n3 4"
  {
  }

  lemma ExampleNumbers(first: seq<int>, second: seq<int>)
    requires first == [1, 2, 3] && second == [4, 5, 6]
    ensures first + second == [1, 2, 3, 4, 5, 6] && |first| == 3
  {
  }

  // ---------------------------------------------------------------------
  // triangle: reading the rows

  /** The number of whitespace characters s starts with. */
  function LeadingSpaces(s: string): (n: nat)
    ensures n <= |s| && AllSpace(s[..n])
    ensures n < |s| ==> !IsSpace(s[n])
  {
    if s != [] && IsSpace(s[0]) then
      var m := LeadingSpaces(s[1..]);
      assert s[..m + 1] == [s[0]] + s[1..][..m];
      m + 1
    else 0
  }

  /** The number of whitespace characters s ends with. */
  function TrailingSpaces(s: string): (n: nat)
    ensures n <= |s| && AllSpace(s[|s| - n..])
    ensures n < |s| ==> !IsSpace(s[|s| - 1 - n])
  {
    if s != [] && IsSpace(s[|s| - 1]) then
      var m := TrailingSpaces(s[..|s| - 1]);
      TrailingStep(s, m);
      m + 1
    else 0
  }

  /** One more whitespace character at the end of s. */
  lemma TrailingStep(s: string, m: nat)
    requires s != [] && IsSpace(s[|s| - 1])
    requires m <= |s| - 1 && AllSpace(s[..|s| - 1][|s| - 1 - m..])
    requires m < |s| - 1 ==> !IsSpace(s[..|s| - 1][|s| - 2 - m])
    ensures m + 1 <= |s| && AllSpace(s[|s| - (m + 1)..])
    ensures m + 1 < |s| ==> !IsSpace(s[|s| - 1 - (m + 1)])
  {
    var init := s[..|s| - 1];
    assert s[|s| - (m + 1)..] == init[|s| - 1 - m..] + [s[|s| - 1]];
    AllSpaceSnoc(init[|s| - 1 - m..], s[|s| - 1]);
    if m + 1 < |s| {
      assert init[|s| - 2 - m] == s[|s| - 2 - m];
    }
  }

  lemma AllSpaceSnoc(a: string, c: char)
    requires AllSpace(a) && IsSpace(c)
    ensures AllSpace(a + [c])
  {
    forall i | 0 <= i < |a + [c]| ensures IsSpace((a + [c])[i]) {
      if i < |a| {
        assert (a + [c])[i] == a[i];
      }
    }
  }

  /** `s.strip()`. */
  function Strip(s: string): string
  {
    var i := LeadingSpaces(s);
    s[i..|s| - TrailingSpaces(s[i..])]
  }

  /** `s.strip()` is the part of s between the whitespace it starts with
      and the whitespace it ends with. */
  lemma StripMeaning(s: string)
    ensures Strip(s) == [] || (!IsSpace(Strip(s)[0]) && !IsSpace(Strip(s)[|Strip(s)| - 1]))
    ensures exists i :: (0 <= i <= |s| - |Strip(s)| && Strip(s) == s[i..i + |Strip(s)|]
      && AllSpace(s[..i]) && AllSpace(s[i + |Strip(s)|..]))
  {
    StripEnds(s);
    StripSurrounded(s);
  }

  lemma StripSurrounded(s: string)
    ensures exists i :: (0 <= i <= |s| - |Strip(s)| && Strip(s) == s[i..i + |Strip(s)|]
      && AllSpace(s[..i]) && AllSpace(s[i + |Strip(s)|..]))
  {
    var i, j := StripBounds(s);
    SliceWitness(s, Strip(s), i, j);
  }

  /** A slice of s with whitespace on either side, located by its start. */
  lemma SliceWitness(s: string, t: string, i: nat, j: nat)
    requires i <= j <= |s| && t == s[i..j]
    requires AllSpace(s[..i]) && AllSpace(s[j..])
    ensures exists k :: (0 <= k <= |s| - |t| && t == s[k..k + |t|]
      && AllSpace(s[..k]) && AllSpace(s[k + |t|..]))
  {
    assert i + |t| == j;
  }

  /** The cut points of `s.strip()`: whitespace before i and from j on. */
  lemma StripBounds(s: string) returns (i: nat, j: nat)
    ensures i <= j <= |s| && Strip(s) == s[i..j]
    ensures AllSpace(s[..i]) && AllSpace(s[j..])
    ensures i < j ==> !IsSpace(s[i]) && !IsSpace(s[j - 1])
  {
    i := LeadingSpaces(s);
    var rest := s[i..];
    var t := TrailingSpaces(rest);
    j := |s| - t;
    assert s[j..] == rest[|rest| - t..];
    if i < j {
      assert s[j - 1] == rest[|rest| - 1 - t];
    }
  }

  lemma StripEnds(s: string)
    ensures Strip(s) == [] || (!IsSpace(Strip(s)[0]) && !IsSpace(Strip(s)[|Strip(s)| - 1]))
  {
    var i, j := StripBounds(s);
    var t := Strip(s);
    if i < j {
      assert t[0] == s[i];
      assert t[|t| - 1] == s[j - 1];
    }
  }

  /** Text that neither starts nor ends with whitespace is its own strip. */
  lemma StripUnpadded(s: string, first: char, last: char)
    requires s != [] && s[0] == first && s[|s| - 1] == last
    requires !IsSpace(first) && !IsSpace(last)
    ensures Strip(s) == s
  {
    assert LeadingSpaces(s) == 0;
    assert s[0..] == s;
    assert TrailingSpaces(s) == 0;
  }

  /** The position of the first c in s, or |s| when there is none. */
  function IndexOf(s: string, c: char): (i: nat)
    ensures i <= |s| && c !in s[..i]
    ensures i < |s| ==> s[i] == c
  {
    if s == [] || s[0] == c then 0
    else
      var i := IndexOf(s[1..], c);
      assert s[..i + 1] == [s[0]] + s[1..][..i];
      i + 1
  }

  lemma {:induction false} IndexOfAtMost(s: string, c: char, j: nat)
    requires j < |s| && s[j] == c
    ensures IndexOf(s, c) <= j
  {
    if s[0] != c {
      IndexOfAtMost(s[1..], c, j - 1);
    }
  }

  lemma {:induction false} IndexOfAtLeast(s: string, c: char, j: nat)
    requires j <= |s| && c !in s[..j]
    ensures IndexOf(s, c) >= j
  {
    if j > 0 {
      assert s[..j][0] == s[0];
      assert s[1..][..j - 1] == s[..j][1..];
      IndexOfAtLeast(s[1..], c, j - 1);
    }
  }

  /** `s.split(sep)`: the pieces between the occurrences of sep, at least
      one. */
  function SplitAt(s: string, sep: char): (r: seq<string>)
    ensures r != [] && forall k :: 0 <= k < |r| ==> sep !in r[k]
    decreases |s|
  {
    var i := IndexOf(s, sep);
    if i == |s| then
      assert s[..i] == s;
      [s]
    else [s[..i]] + SplitAt(s[i + 1..], sep)
  }

  /** Joining the pieces with the separator gives the text back. */
  lemma {:induction false} JoinSplitAt(s: string, sep: char)
    ensures JoinWith(SplitAt(s, sep), sep) == s
    decreases |s|
  {
    var i := IndexOf(s, sep);
    if i == |s| {
      assert s[..i] == s;
    } else {
      JoinSplitAt(s[i + 1..], sep);
      assert s == s[..i] + [sep] + s[i + 1..];
    }
  }

  /** Pieces free of the separator, joined with it, split back into
      themselves. */
  lemma {:induction false} SplitAtJoin(ts: seq<string>, sep: char)
    requires ts != [] && forall k :: 0 <= k < |ts| ==> sep !in ts[k]
    ensures SplitAt(JoinWith(ts, sep), sep) == ts
  {
    var s := JoinWith(ts, sep);
    if |ts| == 1 {
      assert IndexOf(s, sep) == |s|;
      assert s[..|s|] == s;
    } else {
      var t := ts[0];
      var rest := JoinWith(ts[1..], sep);
      assert s == t + [sep] + rest;
      var i := IndexOf(s, sep);
      assert s[..|t|] == t;
      assert s[|t|] == sep;
      IndexOfAtMost(s, sep, |t|);
      IndexOfAtLeast(s, sep, |t|);
      assert s[i + 1..] == rest;
      SplitAtJoin(ts[1..], sep);
    }
  }

  /** `list(map(int, line.split()))`. */
  function ParseLine(line: string): Option<seq<int>>
  {
    ParseAll(Split(line))
  }

  /** `[list(map(int, line.split())) for line in lines]`. */
  function ParseRows(lines: seq<string>): Option<seq<seq<int>>>
  {
    ReadEach(lines, ParseLine)
  }

  /** The reading half of `triangle`: strip the text, cut it at each
      newline and read the integers of every line. There is always at least
      one row. */
  function ParseTriangle(input: string): (r: Option<seq<seq<int>>>)
    ensures r.Some? ==> r.value != []
  {
    ParseRows(SplitAt(Strip(input), '\n'))
  }

  /** The line of each row. */
  function Lines(rows: seq<seq<int>>): (r: seq<string>)
    ensures |r| == |rows|
    ensures forall k :: 0 <= k < |rows| ==> r[k] == Row(rows[k])
  {
    seq(|rows|, k requires 0 <= k < |rows| => Row(rows[k]))
  }

  /** Rows of numbers written one per line, as `"\n".join(map(Row, rows))`. */
  function Render(rows: seq<seq<int>>): string
  {
    JoinWith(Lines(rows), '\n')
  }

  lemma ParseRowsLines(rows: seq<seq<int>>)
    ensures ParseRows(Lines(rows)) == Some(rows)
  {
    forall k | 0 <= k < |rows|
      ensures ParseLine(Lines(rows)[k]) == Some(rows[k])
    {
      SplitRow(rows[k]);
      ParseAllShows(rows[k]);
    }
    ReadEachValues(Lines(rows), rows, ParseLine);
  }

  lemma NoNewline(t: string)
    requires NoLineBreak(t)
    ensures '\n' !in t
  {
    forall i | 0 <= i < |t|
      ensures t[i] != '\n'
    {
      assert !IsLineBreak(t[i]);
    }
  }

  lemma JoinFirst(ts: seq<string>, sep: char)
    requires ts != [] && ts[0] != []
    ensures JoinWith(ts, sep) != [] && JoinWith(ts, sep)[0] == ts[0][0]
  {
  }

  lemma {:induction false} JoinLast(ts: seq<string>, sep: char)
    requires ts != [] && ts[|ts| - 1] != []
    ensures JoinWith(ts, sep) != []
    ensures JoinWith(ts, sep)[|JoinWith(ts, sep)| - 1] == ts[|ts| - 1][|ts[|ts| - 1]| - 1]
  {
    if |ts| > 1 {
      JoinLast(ts[1..], sep);
    }
  }

  lemma JoinEndsWith(ts: seq<string>, sep: char, t: string, c: char)
    requires ts != [] && ts[|ts| - 1] == t && t != [] && t[|t| - 1] == c
    ensures JoinWith(ts, sep) != [] && JoinWith(ts, sep)[|JoinWith(ts, sep)| - 1] == c
  {
    JoinLast(ts, sep);
  }

  lemma NotSpaceAt(t: string, i: nat)
    requires NoSpace(t) && i < |t|
    ensures !IsSpace(t[i])
  {
  }

  /** A row of numbers starts with a character of its first numeral. */
  lemma RowFirstChar(xs: seq<int>) returns (c: char)
    requires xs != []
    ensures Row(xs) != [] && Row(xs)[0] == c && !IsSpace(c)
  {
    var t := Show(xs[0]);
    JoinFirst(Shows(xs), ' ');
    c := t[0];
    NotSpaceAt(t, 0);
  }

  /** A row of numbers ends with a character of its last numeral. */
  lemma RowLastChar(xs: seq<int>) returns (c: char)
    requires xs != []
    ensures Row(xs) != [] && Row(xs)[|Row(xs)| - 1] == c && !IsSpace(c)
  {
    var t := Show(xs[|xs| - 1]);
    JoinLast(Shows(xs), ' ');
    c := t[|t| - 1];
    NotSpaceAt(t, |t| - 1);
  }

  /** The text of rows whose top row is not empty starts with a digit or
      a minus sign. */
  lemma RenderFirst(rows: seq<seq<int>>) returns (c: char)
    requires rows != [] && rows[0] != []
    ensures Render(rows) != [] && Render(rows)[0] == c && !IsSpace(c)
  {
    var lines := Lines(rows);
    c := RowFirstChar(rows[0]);
    JoinFirst(lines, '\n');
  }

  /** The text of rows whose bottom row is not empty ends with a digit. */
  lemma RenderLast(rows: seq<seq<int>>) returns (c: char)
    requires rows != [] && rows[|rows| - 1] != []
    ensures Render(rows) != [] && Render(rows)[|Render(rows)| - 1] == c && !IsSpace(c)
  {
    var xs := rows[|rows| - 1];
    c := RowLastChar(xs);
    var lines := Lines(rows);
    assert lines[|lines| - 1] == Row(xs);
    JoinEndsWith(lines, '\n', Row(xs), c);
  }

  lemma RenderUnpadded(rows: seq<seq<int>>)
    requires rows != [] && rows[0] != [] && rows[|rows| - 1] != []
    ensures Strip(Render(rows)) == Render(rows)
  {
    var first := RenderFirst(rows);
    var last := RenderLast(rows);
    StripUnpadded(Render(rows), first, last);
  }

  lemma RenderPieces(rows: seq<seq<int>>)
    requires rows != []
    ensures SplitAt(Render(rows), '\n') == Lines(rows)
  {
    var lines := Lines(rows);
    forall k | 0 <= k < |lines|
      ensures '\n' !in lines[k]
    {
      SplitRow(rows[k]);
      NoNewline(lines[k]);
    }
    SplitAtJoin(lines, '\n');
  }

  /** Rows written one per line read back as themselves, provided the top
      and bottom rows are not empty (otherwise `strip` removes lines). */
  lemma ParseRendered(rows: seq<seq<int>>)
    requires rows != [] && rows[0] != [] && rows[|rows| - 1] != []
    ensures ParseTriangle(Render(rows)) == Some(rows)
  {
    RenderUnpadded(rows);
    RenderPieces(rows);
    ParseRowsLines(rows);
  }

  // ---------------------------------------------------------------------
  // triangle: the best path

  /** From row r down, each row is at least one longer than the row above
      it, so every entry has the two neighbours below it that `triangle`
      reads. */
  predicate Widening(rows: seq<seq<int>>, r: nat)
  {
    forall q :: r <= q < |rows| - 1 ==> |rows[q + 1]| >= |rows[q]| + 1
  }

  /** The best sum from entry j of row r down to the bottom row, moving at
      each step to the entry below or the one below and to the right. */
  function MaxPath(rows: seq<seq<int>>, r: nat, j: nat): int
    requires r < |rows| && j < |rows[r]| && Widening(rows, r)
    decreases |rows| - r
  {
    if r == |rows| - 1 then rows[r][j]
    else rows[r][j] + Max(MaxPath(rows, r + 1, j), MaxPath(rows, r + 1, j + 1))
  }

  /** p is a path from entry j of row r to the bottom row: one column per
      row, each equal to the one above or one more. */
  predicate IsPath(rows: seq<seq<int>>, r: nat, j: nat, p: seq<int>)
  {
    r < |rows| && |p| == |rows| - r && p[0] == j
    && (forall k :: 0 <= k < |p| ==> 0 <= p[k] < |rows[r + k]|)
    && (forall k :: 0 <= k < |p| - 1 ==> p[k + 1] == p[k] || p[k + 1] == p[k] + 1)
  }

  /** The sum of the entries a path passes through. */
  function PathSum(rows: seq<seq<int>>, r: nat, p: seq<int>): int
    requires r + |p| <= |rows|
    requires forall k :: 0 <= k < |p| ==> 0 <= p[k] < |rows[r + k]|
    decreases |p|
  {
    if p == [] then 0
    else
      assert forall k :: 0 <= k < |p| - 1 ==> p[1..][k] == p[k + 1];
      rows[r][p[0]] + PathSum(rows, r + 1, p[1..])
  }

  /** No path does better than MaxPath. */
  lemma {:induction false} PathAtMostMax(rows: seq<seq<int>>, r: nat, j: nat, p: seq<int>)
    requires IsPath(rows, r, j, p) && Widening(rows, r)
    ensures PathSum(rows, r, p) <= MaxPath(rows, r, j)
    decreases |rows| - r
  {
    if r < |rows| - 1 {
      var tail := p[1..];
      assert forall k :: 0 <= k < |tail| ==> tail[k] == p[k + 1];
      assert IsPath(rows, r + 1, p[1], tail);
      PathAtMostMax(rows, r + 1, p[1], tail);
    }
  }

  /** Some path achieves MaxPath. */
  lemma {:induction false} BestPath(rows: seq<seq<int>>, r: nat, j: nat) returns (p: seq<int>)
    requires r < |rows| && j < |rows[r]| && Widening(rows, r)
    ensures IsPath(rows, r, j, p) && PathSum(rows, r, p) == MaxPath(rows, r, j)
    decreases |rows| - r
  {
    if r == |rows| - 1 {
      p := [j];
    } else {
      WideningNext(rows, r);
      var next := if MaxPath(rows, r + 1, j) >= MaxPath(rows, r + 1, j + 1) then j else j + 1;
      var tail := BestPath(rows, r + 1, next);
      ConsPath(rows, r, j, tail);
      p := [j] + tail;
    }
  }

  lemma WideningNext(rows: seq<seq<int>>, r: nat)
    requires r < |rows| - 1 && Widening(rows, r)
    ensures Widening(rows, r + 1) && |rows[r + 1]| >= |rows[r]| + 1
  {
  }

  /** A step down to column j or j + 1 followed by a path from there is a
      path, and its sum is the entry plus the sum of the rest. */
  lemma ConsPath(rows: seq<seq<int>>, r: nat, j: nat, tail: seq<int>)
    requires r + 1 < |rows| && j < |rows[r]|
    requires tail != [] && (tail[0] == j || tail[0] == j + 1) && IsPath(rows, r + 1, tail[0], tail)
    ensures IsPath(rows, r, j, [j] + tail)
    ensures PathSum(rows, r, [j] + tail) == rows[r][j] + PathSum(rows, r + 1, tail)
  {
    var p := [j] + tail;
    assert p[1..] == tail;
    assert forall k :: 1 <= k < |p| ==> p[k] == tail[k - 1];
  }

  /** row holds, for every entry of row r, the best sum from it down. */
  predicate BestSums(rows: seq<seq<int>>, r: nat, row: seq<int>)
  {
    r < |rows| && |row| == |rows[r]|
    && (row != [] ==> Widening(rows, r))
    && forall j :: 0 <= j < |row| ==> Widening(rows, r) && row[j] == MaxPath(rows, r, j)
  }

  /** One step of the recurrence: if `below` holds the best sums of row
      q + 1, adding to each entry of row q the larger of its two neighbours
      in `below` gives the best sums of row q. */
  lemma NextBestSums(rows: seq<seq<int>>, q: nat, below: seq<int>, row: seq<int>)
    requires BestSums(rows, q + 1, below)
    requires |row| == |rows[q]| && (row != [] ==> |below| >= |row| + 1)
    requires forall k :: 0 <= k < |row| ==> row[k] == rows[q][k] + Max(below[k], below[k + 1])
    ensures BestSums(rows, q, row)
  {
    if row != [] {
      assert Widening(rows, q);
    }
  }

  /** The inner loop of `triangle`: entry j of the row gains the larger of
      entries j and j + 1 of the row below. */
  method AddBest(row: seq<int>, below: seq<int>) returns (res: seq<int>)
    requires row != [] ==> |below| >= |row| + 1
    ensures |res| == |row|
    ensures forall k :: 0 <= k < |row| ==> res[k] == row[k] + Max(below[k], below[k + 1])
  {
    res := row;
    var j := 0;
    while j < |row|
      invariant 0 <= j <= |row| == |res|
      invariant forall k :: 0 <= k < j ==> res[k] == row[k] + Max(below[k], below[k + 1])
      invariant forall k :: j <= k < |row| ==> res[k] == row[k]
    {
      res := res[j := res[j] + Max(below[j], below[j + 1])];
      j := j + 1;
    }
  }

  /** `triangle` once the rows are read: reverses them and adds to every
      entry of each row the larger of its two neighbours in the row handled
      before it; the answer is the first entry of the last row handled,
      which is the top. None stands for the IndexError of a row that is not
      longer than the row above it, or of an empty top row. */
  method BestFromRows(rows: seq<seq<int>>) returns (r: Option<int>)
    requires rows != []
    ensures r.Some? <==> rows[0] != [] && Widening(rows, 0)
    ensures r.Some? ==> rows[0] != [] && Widening(rows, 0) && r.value == MaxPath(rows, 0, 0)
  {
    var t := Reverse(rows);
    var n := |t|;
    var i := 1;
    while i < n
      invariant 1 <= i <= n && |t| == n
      invariant forall k :: i <= k < n ==> t[k] == rows[n - 1 - k]
      invariant BestSums(rows, n - i, t[i - 1])
    {
      ghost var q := n - 1 - i;
      assert t[i] == rows[q];
      if |t[i]| > 0 && |t[i - 1]| < |t[i]| + 1 {
        assert |rows[q + 1]| < |rows[q]| + 1;
        return None;
      }
      var row := AddBest(t[i], t[i - 1]);
      NextBestSums(rows, q, t[i - 1], row);
      t := t[i := row];
      i := i + 1;
    }
    if t[n - 1] == [] {
      return None;
    }
    return Some(t[n - 1][0]);
  }

  /** `triangle(input)`: None also stands for the ValueError of a token that
      is not a numeral. */
  method Triangle(input: string) returns (r: Option<int>)
    ensures ParseTriangle(input).None? ==> r.None?
    ensures ParseTriangle(input).Some? ==>
      var rows := ParseTriangle(input).value;
      (r.Some? <==> rows[0] != [] && Widening(rows, 0))
      && (r.Some? ==> rows[0] != [] && Widening(rows, 0) && r.value == MaxPath(rows, 0, 0))
  {
    var parsed := ParseTriangle(input);
    if parsed.None? {
      return None;
    }
    r := BestFromRows(parsed.value);
  }

  /** The documented triangle and its best path 3 + 7 + 4 + 9. */
  lemma TriangleExampleRows(rows: seq<seq<int>>)
    requires rows == [[3], [7, 4], [2, 4, 6], [8, 5, 9, 3]]
    ensures Widening(rows, 0) && MaxPath(rows, 0, 0) == 23
  {
    assert MaxPath(rows, 3, 0) == 8 && MaxPath(rows, 3, 1) == 5;
    assert MaxPath(rows, 3, 2) == 9 && MaxPath(rows, 3, 3) == 3;
    assert MaxPath(rows, 2, 0) == 10;
    assert MaxPath(rows, 2, 1) == 13;
    assert MaxPath(rows, 2, 2) == 15;
    assert MaxPath(rows, 1, 0) == 20;
    assert MaxPath(rows, 1, 1) == 19;
  }

  lemma RowOfDigit(a: int)
    requires 0 <= a <= 9
    ensures Row([a]) == [DigitChar(a)]
  {
    ShowDigit(a);
    assert Shows([a]) == [[DigitChar(a)]];
  }

  lemma RowOfTwoDigits(a: int, b: int)
    requires 0 <= a <= 9 && 0 <= b <= 9
    ensures Row([a, b]) == [DigitChar(a), ' ', DigitChar(b)]
  {
    ShowDigit(a);
    ShowDigit(b);
    var ts := Shows([a, b]);
    assert ts == [[DigitChar(a)], [DigitChar(b)]];
    assert ts[1..] == [[DigitChar(b)]];
    assert JoinWith(ts[1..], ' ') == [DigitChar(b)];
  }

  /** A row of several numbers is the first numeral, a space, and the rest. */
  lemma RowCons(x: int, ys: seq<int>)
    requires ys != []
    ensures Row([x] + ys) == Show(x) + [' '] + Row(ys)
  {
    var ts := Shows([x] + ys);
    assert ts[1..] == Shows(ys);
  }

  lemma RowOfFourDigits(a: int, b: int, c: int, d: int)
    requires 0 <= a <= 9 && 0 <= b <= 9 && 0 <= c <= 9 && 0 <= d <= 9
    ensures Row([a, b, c, d]) == [DigitChar(a), ' '] + [DigitChar(b), ' ', DigitChar(c), ' ', DigitChar(d)]
  {
    assert [a, b, c, d] == [a] + [b, c, d];
    RowCons(a, [b, c, d]);
    ShowDigit(a);
    RowOfDigits(b, c, d);
  }

  lemma JoinFour(ls: seq<string>, sep: char)
    requires |ls| == 4
    ensures JoinWith(ls, sep) == ls[0] + [sep] + (ls[1] + [sep] + (ls[2] + [sep] + ls[3]))
  {
    assert ls[1..][1..][1..] == [ls[3]];
    assert JoinWith(ls[1..][1..], sep) == ls[2] + [sep] + ls[3];
  }

  /** Four lines joined by newlines. */
  lemma RenderFour(rows: seq<seq<int>>)
    requires |rows| == 4
    ensures Render(rows) == Lines(rows)[0] + ['\n'] + (Lines(rows)[1] + ['\n'] + (Lines(rows)[2] + ['\n'] + Lines(rows)[3]))
  {
    JoinFour(Lines(rows), '\n');
  }

  lemma TriangleExampleLines(s0: string, s1: string, s2: string, s3: string)
    requires s0 == "3" && s1 == "7 4" && s2 == "2 4 6" && s3 == "8 5 9 3"
    ensures s0 + ['\n'] + (s1 + ['\n'] + (s2 + ['\n'] + s3)) == "3\n7 4\n2 4 6\n8 5 9 3"
  {
  }

  lemma TopRowText(xs: seq<int>)
    requires xs == [3]
    ensures Row(xs) == "3"
  {
    RowOfDigit(3);
    assert DigitChar(3) == '3';
  }

  lemma SecondRowText(xs: seq<int>)
    requires xs == [7, 4]
    ensures Row(xs) == "7 4"
  {
    RowOfTwoDigits(7, 4);
    assert DigitChar(7) == '7' && DigitChar(4) == '4';
  }

  lemma ThirdRowText(xs: seq<int>)
    requires xs == [2, 4, 6]
    ensures Row(xs) == "2 4 6"
  {
    RowOfDigits(2, 4, 6);
    assert DigitChar(2) == '2' && DigitChar(4) == '4' && DigitChar(6) == '6';
  }

  lemma BottomRowText(xs: seq<int>)
    requires xs == [8, 5, 9, 3]
    ensures Row(xs) == "8 5 9 3"
  {
    RowOfFourDigits(8, 5, 9, 3);
    assert DigitChar(8) == '8' && DigitChar(5) == '5' && DigitChar(9) == '9' && DigitChar(3) == '3';
  }

  lemma TriangleExampleText(rows: seq<seq<int>>)
    requires rows == [[3], [7, 4], [2, 4, 6], [8, 5, 9, 3]]
    ensures Render(rows) == "3\n7 4\n2 4 6\n8 5 9 3"
  {
    RenderFour(rows);
    TopRowText(rows[0]);
    SecondRowText(rows[1]);
    ThirdRowText(rows[2]);
    BottomRowText(rows[3]);
    TriangleExampleLines(Row(rows[0]), Row(rows[1]), Row(rows[2]), Row(rows[3]));
  }

  /** The documented example: `triangle("3\n7 4\n2 4 6\n8 5 9 3") == 23`. */
  method TriangleExample() returns (r: Option<int>)
    ensures r == Some(23)
  {
    var rows := [[3], [7, 4], [2, 4, 6], [8, 5, 9, 3]];
    TriangleExampleText(rows);
    ParseRendered(rows);
    TriangleExampleRows(rows);
    r := Triangle("3\n7 4\n2 4 6\n8 5 9 3");
  }
}
