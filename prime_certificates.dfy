/** Primality certificates for the constants that the truncatable-prime
    search depends on: 739397 and all of its truncations. Each is odd, and
    no odd number up to its square root divides it. */
module PrimeCertificates {
  import opened NumberTheory

  lemma CapTruncationsPrime()
    ensures IsPrime(739397) && IsPrime(73939) && IsPrime(7393) && IsPrime(739) && IsPrime(73)
    ensures IsPrime(39397) && IsPrime(9397) && IsPrime(397) && IsPrime(97) && IsPrime(7)
  {
    NoOddDivisor739397To859();
    PrimeByOddTrial(739397, 859);
    NoOddDivisor73939To271();
    PrimeByOddTrial(73939, 271);
    NoOddDivisor39397To197();
    PrimeByOddTrial(39397, 197);
    NoOddDivisor9397To95();
    PrimeByOddTrial(9397, 95);
    NoOddDivisor7393To85();
    PrimeByOddTrial(7393, 85);
    assert IsPrime(739) by {
      assert NoOddDivisorUpTo(739, 19);
      assert NoOddDivisorUpTo(739, 27);
      PrimeByOddTrial(739, 27);
    }
    assert IsPrime(397) by {
      assert NoOddDivisorUpTo(397, 19);
      PrimeByOddTrial(397, 19);
    }
    PrimeByOddTrial(97, 9);
    PrimeByOddTrial(73, 7);
    PrimeByOddTrial(7, 1);
  }

  lemma NoOddDivisor739397To99()
    ensures NoOddDivisorUpTo(739397, 99)
  {
    assert NoOddDivisorUpTo(739397, 19);
    assert NoOddDivisorUpTo(739397, 39);
    assert NoOddDivisorUpTo(739397, 59);
    assert NoOddDivisorUpTo(739397, 79);
  }

  lemma NoOddDivisor739397To199()
    ensures NoOddDivisorUpTo(739397, 199)
  {
    NoOddDivisor739397To99();
    assert NoOddDivisorUpTo(739397, 119);
    assert NoOddDivisorUpTo(739397, 139);
    assert NoOddDivisorUpTo(739397, 159);
    assert NoOddDivisorUpTo(739397, 179);
  }

  lemma NoOddDivisor739397To299()
    ensures NoOddDivisorUpTo(739397, 299)
  {
    NoOddDivisor739397To199();
    assert NoOddDivisorUpTo(739397, 219);
    assert NoOddDivisorUpTo(739397, 239);
    assert NoOddDivisorUpTo(739397, 259);
    assert NoOddDivisorUpTo(739397, 279);
  }

  lemma NoOddDivisor739397To399()
    ensures NoOddDivisorUpTo(739397, 399)
  {
    NoOddDivisor739397To299();
    assert NoOddDivisorUpTo(739397, 319);
    assert NoOddDivisorUpTo(739397, 339);
    assert NoOddDivisorUpTo(739397, 359);
    assert NoOddDivisorUpTo(739397, 379);
  }

  lemma NoOddDivisor739397To499()
    ensures NoOddDivisorUpTo(739397, 499)
  {
    NoOddDivisor739397To399();
    assert NoOddDivisorUpTo(739397, 419);
    assert NoOddDivisorUpTo(739397, 439);
    assert NoOddDivisorUpTo(739397, 459);
    assert NoOddDivisorUpTo(739397, 479);
  }

  lemma NoOddDivisor739397To599()
    ensures NoOddDivisorUpTo(739397, 599)
  {
    NoOddDivisor739397To499();
    assert NoOddDivisorUpTo(739397, 519);
    assert NoOddDivisorUpTo(739397, 539);
    assert NoOddDivisorUpTo(739397, 559);
    assert NoOddDivisorUpTo(739397, 579);
  }

  lemma NoOddDivisor739397To699()
    ensures NoOddDivisorUpTo(739397, 699)
  {
    NoOddDivisor739397To599();
    assert NoOddDivisorUpTo(739397, 619);
    assert NoOddDivisorUpTo(739397, 639);
    assert NoOddDivisorUpTo(739397, 659);
    assert NoOddDivisorUpTo(739397, 679);
  }

  lemma NoOddDivisor739397To799()
    ensures NoOddDivisorUpTo(739397, 799)
  {
    NoOddDivisor739397To699();
    assert NoOddDivisorUpTo(739397, 719);
    assert NoOddDivisorUpTo(739397, 739);
    assert NoOddDivisorUpTo(739397, 759);
    assert NoOddDivisorUpTo(739397, 779);
  }

  lemma NoOddDivisor739397To859()
    ensures NoOddDivisorUpTo(739397, 859)
  {
    NoOddDivisor739397To799();
    assert NoOddDivisorUpTo(739397, 819);
    assert NoOddDivisorUpTo(739397, 839);
  }

  lemma NoOddDivisor73939To99()
    ensures NoOddDivisorUpTo(73939, 99)
  {
    assert NoOddDivisorUpTo(73939, 19);
    assert NoOddDivisorUpTo(73939, 39);
    assert NoOddDivisorUpTo(73939, 59);
    assert NoOddDivisorUpTo(73939, 79);
  }

  lemma NoOddDivisor73939To199()
    ensures NoOddDivisorUpTo(73939, 199)
  {
    NoOddDivisor73939To99();
    assert NoOddDivisorUpTo(73939, 119);
    assert NoOddDivisorUpTo(73939, 139);
    assert NoOddDivisorUpTo(73939, 159);
    assert NoOddDivisorUpTo(73939, 179);
  }

  lemma NoOddDivisor73939To271()
    ensures NoOddDivisorUpTo(73939, 271)
  {
    NoOddDivisor73939To199();
    assert NoOddDivisorUpTo(73939, 219);
    assert NoOddDivisorUpTo(73939, 239);
    assert NoOddDivisorUpTo(73939, 259);
  }

  lemma NoOddDivisor39397To99()
    ensures NoOddDivisorUpTo(39397, 99)
  {
    assert NoOddDivisorUpTo(39397, 19);
    assert NoOddDivisorUpTo(39397, 39);
    assert NoOddDivisorUpTo(39397, 59);
    assert NoOddDivisorUpTo(39397, 79);
  }

  lemma NoOddDivisor39397To197()
    ensures NoOddDivisorUpTo(39397, 197)
  {
    NoOddDivisor39397To99();
    assert NoOddDivisorUpTo(39397, 119);
    assert NoOddDivisorUpTo(39397, 139);
    assert NoOddDivisorUpTo(39397, 159);
    assert NoOddDivisorUpTo(39397, 179);
  }

  lemma NoOddDivisor9397To95()
    ensures NoOddDivisorUpTo(9397, 95)
  {
    assert NoOddDivisorUpTo(9397, 19);
    assert NoOddDivisorUpTo(9397, 39);
    assert NoOddDivisorUpTo(9397, 59);
    assert NoOddDivisorUpTo(9397, 79);
  }

  lemma NoOddDivisor7393To85()
    ensures NoOddDivisorUpTo(7393, 85)
  {
    assert NoOddDivisorUpTo(7393, 19);
    assert NoOddDivisorUpTo(7393, 39);
    assert NoOddDivisorUpTo(7393, 59);
    assert NoOddDivisorUpTo(7393, 79);
  }
}
