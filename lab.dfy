/** `lab.py`: the earliest revision of the per-value arithmetic: trial
    division, the division family, and the arithmetic mean and mean absolute
    deviation of the prime factors. */
module Lab {
  import opened Arith
  import opened Seqs
  import opened Primes
  import opened Stats

  /** The list holds every prime that is at most half of `value`, as
      `pp.primes_below(math.floor(value / 2))` does. */
  ghost predicate CoversHalf(primes: seq<nat>, value: int) {
    forall p :: IsPrime(p) && p <= value / 2 ==> p in primes
  }

  /** The size of a remainder, which each division shrinks. */
  function Magnitude(x: int): nat {
    if x < 0 then -x else x
  }

  /** The trial-division loop of `get_prime_factors`, over any ascending list
      of primes: each prime in turn is divided out of the running remainder
      for as long as it divides it, stopping as soon as the remainder is 1.
      The factors come out sorted and drawn from the list, their product
      divides `value`, and what is left is divisible by no listed prime.
      A negative value works the same way: Python's `%` by a positive prime
      is never negative, as Dafny's is not, and the remainder never reaches
      1, so every prime is tried. */
  method TrialDivide(value: int, primes: seq<nat>) returns (factors: seq<nat>)
    requires value != 0 || primes == []
    requires AscendingPrimes(primes)
    ensures forall k :: 0 <= k < |factors| ==> factors[k] in primes
    ensures Sorted(factors)
    ensures Product(factors) >= 1
    ensures value != 0 ==> value % Product(factors) == 0
    ensures value != 0 ==> forall i :: 0 <= i < |primes| ==> (value / Product(factors)) % primes[i] != 0
    ensures primes == [] ==> factors == []
  {
    factors := [];
    var body: int := value;
    var i := 0;
    while i < |primes|
      invariant 0 <= i <= |primes|
      invariant body != 0 || primes == []
      invariant Product(factors) * body == value
      invariant forall k :: 0 <= k < |factors| ==> factors[k] in primes
      invariant i > 0 ==> forall k :: 0 <= k < |factors| ==> factors[k] <= primes[i - 1]
      invariant i == 0 ==> factors == []
      invariant Sorted(factors)
      invariant forall k :: 0 <= k < i ==> body % primes[k] != 0
    {
      if body == 1 {
        break;
      }
      if i > 0 {
        assert primes[i - 1] < primes[i];
      }
      factors, body := DivideOut(value, primes, i, factors, body);
      i := i + 1;
    }
    if value != 0 {
      LoopExit(value, factors, body, primes);
    }
  }

  /** The inner loop: divide `primes[i]` out of the remainder as often as it
      goes, appending it to the factors each time. */
  method DivideOut(ghost value: int, primes: seq<nat>, i: int, factors: seq<nat>, body: int)
    returns (factors': seq<nat>, body': int)
    requires AllPrime(primes) && 0 <= i < |primes|
    requires body != 0 && Product(factors) * body == value
    requires forall k :: 0 <= k < |factors| ==> factors[k] in primes && factors[k] <= primes[i]
    requires Sorted(factors)
    requires forall k :: 0 <= k < i ==> body % primes[k] != 0
    ensures body' != 0 && Product(factors') * body' == value
    ensures forall k :: 0 <= k < |factors'| ==> factors'[k] in primes && factors'[k] <= primes[i]
    ensures Sorted(factors')
    ensures forall k :: 0 <= k < i + 1 ==> body' % primes[k] != 0
  {
    factors', body' := factors, body;
    var prime := primes[i];
    while body' % prime == 0
      invariant body' != 0
      invariant Product(factors') * body' == value
      invariant forall k :: 0 <= k < |factors'| ==> factors'[k] in primes && factors'[k] <= prime
      invariant Sorted(factors')
      invariant forall k :: 0 <= k < i ==> body' % primes[k] != 0
      decreases Magnitude(body')
    {
      var next := body' / prime;
      DivideOutStep(body', prime, primes[..i]);
      DivideOutProduct(factors', body', prime);
      factors' := factors' + [prime];
      body' := next;
    }
  }

  /** What the trial-division loop leaves behind, read off the quotient. */
  lemma LoopExit(value: int, factors: seq<nat>, body: int, primes: seq<nat>)
    requires AllPrime(primes) && Product(factors) * body == value
    requires forall k :: 0 <= k < |factors| ==> factors[k] in primes
    requires body == 1 || forall k :: 0 <= k < |primes| ==> body % primes[k] != 0
    ensures Product(factors) >= 1 && value % Product(factors) == 0
    ensures forall i :: 0 <= i < |primes| ==> (value / Product(factors)) % primes[i] != 0
  {
    InListedPrimes(factors, primes);
    ProductOfPrimesPositive(factors);
    MulMod(Product(factors), body);
  }

  /** Moving one factor `prime` from the remainder to the list keeps the
      product of the two. */
  lemma DivideOutProduct(factors: seq<int>, body: int, prime: int)
    requires prime >= 2 && body % prime == 0
    ensures Product(factors + [prime]) * (body / prime) == Product(factors) * body
  {
    ProductAppend(factors, prime);
    DivisorWitness(body, prime);
    calc {
      Product(factors + [prime]) * (body / prime);
      (Product(factors) * prime) * (body / prime);
      Product(factors) * (prime * (body / prime));
      Product(factors) * body;
    }
  }

  /** Elements drawn from a list of primes are primes. */
  lemma InListedPrimes(factors: seq<nat>, primes: seq<nat>)
    requires AllPrime(primes)
    requires forall k :: 0 <= k < |factors| ==> factors[k] in primes
    ensures AllPrime(factors)
  {
    forall k | 0 <= k < |factors| ensures IsPrime(factors[k]) {
      var j :| 0 <= j < |primes| && primes[j] == factors[k];
    }
  }

  /** Dividing `prime` out of `body` keeps it non-zero, shrinks it, and
      keeps it free of every prime that did not divide it before. */
  lemma DivideOutStep(body: int, prime: int, earlier: seq<nat>)
    requires body != 0 && prime >= 2 && body % prime == 0
    requires forall k :: 0 <= k < |earlier| ==> earlier[k] >= 2 && body % earlier[k] != 0
    ensures body / prime != 0 && Magnitude(body / prime) < Magnitude(body)
    ensures forall k :: 0 <= k < |earlier| ==> (body / prime) % earlier[k] != 0
  {
    QuotientShrinks(body, prime);
    forall k | 0 <= k < |earlier| ensures (body / prime) % earlier[k] != 0 {
      QuotientKeepsNonDivisor(body, prime, earlier[k]);
    }
  }

  /** An exact quotient by at least 2 of a non-zero number is non-zero and
      smaller in size. */
  lemma QuotientShrinks(body: int, prime: int)
    requires body != 0 && prime >= 2 && body % prime == 0
    ensures body / prime != 0 && Magnitude(body / prime) < Magnitude(body)
  {
    var q := body / prime;
    DivisorWitness(body, prime);
    if q > 0 {
      MulMonotone(2, prime, q);
    } else if q < 0 {
      MulMonotone(2, prime, -q);
      assert prime * -q == -body;
    }
  }

  /** A prime that does not divide `body` does not divide an exact quotient
      of it either. */
  lemma QuotientKeepsNonDivisor(body: int, prime: int, e: int)
    requires prime >= 2 && body % prime == 0 && e >= 2 && body % e != 0
    ensures (body / prime) % e != 0
  {
    var q := body / prime;
    if q % e == 0 {
      DivisorWitness(body, prime);
      DivisorWitness(q, e);
      assert body == e * (prime * (q / e));
      MulMod(e, prime * (q / e));
    }
  }

  /** A prime divisor of a composite number is at most half of it. */
  lemma HalfBoundOfPrimeDivisor(value: int, q: int)
    requires value >= 2 && !IsPrime(value) && IsPrime(q) && value % q == 0
    ensures q <= value / 2
  {
    var m := value / q;
    QuotientIsDivisor(value, q);
    DivisorWitness(value, q);
    assert m != 1;
    ProperQuotientBound(value, m);
  }

  /** Any divisor above 1 of a composite `value` is divisible by some
      listed prime when the list covers `value / 2`. */
  lemma LeftoverHasListedDivisor(value: int, rest: int, primes: seq<nat>)
    requires value >= 2 && !IsPrime(value) && CoversHalf(primes, value)
    requires rest >= 2 && value % rest == 0
    ensures exists i :: 0 <= i < |primes| && IsPrime(primes[i]) && rest % primes[i] == 0
  {
    var q := SmallestDivisor(rest);
    SmallestDivisorIsPrime(rest);
    DivisorTransitive(q, rest, value);
    HalfBoundOfPrimeDivisor(value, q);
    assert q in primes;
    var i :| 0 <= i < |primes| && primes[i] == q;
  }

  /** For a composite `value`, once every prime up to `value / 2` has been
      tried, nothing is left over: a leftover above 1 would have a prime
      divisor, and that prime divides `value` and is at most `value / 2`. */
  lemma RemainderIsOne(value: int, rest: int, primes: seq<nat>)
    requires AscendingPrimes(primes)
    requires value >= 2 && !IsPrime(value) && CoversHalf(primes, value)
    requires rest >= 1 && value % rest == 0
    requires forall i :: 0 <= i < |primes| ==> rest % primes[i] != 0
    ensures rest == 1
  {
    if rest >= 2 {
      LeftoverHasListedDivisor(value, rest, primes);
      assert false;
    }
  }

  /** The first of a non-empty list of primes whose product divides `value`
      is a divisor of `value` from 2 up to `value / 2`. */
  lemma ListedFactorDivides(value: int, factors: seq<nat>, primes: seq<nat>)
    requires value >= 1 && factors != []
    requires forall i :: 0 <= i < |primes| ==> primes[i] <= value / 2
    requires forall k :: 0 <= k < |factors| ==> factors[k] in primes
    requires AllPrime(factors)
    requires Product(factors) >= 1 && value % Product(factors) == 0
    ensures 2 <= factors[0] < value && value % factors[0] == 0
  {
    MemberDividesProduct(factors, 0);
    DivisorTransitive(factors[0], Product(factors), value);
    var j :| 0 <= j < |primes| && primes[j] == factors[0];
  }

  /** A prime `value` has no listed divisor among primes up to half of it. */
  lemma NoFactorsOfPrime(value: int, factors: seq<nat>, primes: seq<nat>)
    requires IsPrime(value)
    requires forall i :: 0 <= i < |primes| ==> primes[i] <= value / 2
    requires forall k :: 0 <= k < |factors| ==> factors[k] in primes
    requires AllPrime(factors)
    requires Product(factors) >= 1 && value % Product(factors) == 0
    ensures factors == []
  {
    if factors != [] {
      ListedFactorDivides(value, factors, primes);
      assert false;
    }
  }

  /** `get_prime_factors(value)`: trial division by the primes up to
      `floor(value / 2)`. For a composite `value` the result is its prime
      factorisation; for 1, for a prime, and for anything below 1 it is empty
      (the callers handle those cases themselves). */
  method GetPrimeFactors(value: int) returns (factors: seq<nat>)
    ensures value >= 2 && !IsPrime(value) ==> factors == Factorization(value) && Product(factors) == value
    ensures value <= 1 || IsPrime(value) ==> factors == []
  {
    var primes := PrimesUpTo(value / 2);
    factors := TrialDivide(value, primes);
    if value >= 1 {
      InListedPrimes(factors, primes);
      if value >= 2 && !IsPrime(value) {
        var rest := value / Product(factors);
        QuotientIsDivisor(value, Product(factors));
        RemainderIsOne(value, rest, primes);
        DivisorWitness(value, Product(factors));
        FactorizationUnique(value, factors);
      } else if IsPrime(value) {
        NoFactorsOfPrime(value, factors, primes);
      }
    }
  }

  /** The search loop of `get_division_family` over any ascending list of
      primes, scanned from the largest down (the source sorts the list in
      reverse first): the result is `value / p` for the largest listed prime
      `p` dividing `value`, and 1 when no listed prime divides it. */
  method DivisionFamilyOver(value: int, primes: seq<nat>) returns (family: int)
    requires AscendingPrimes(primes)
    ensures (exists k :: 0 <= k < |primes| && value % primes[k] == 0) ==>
              exists k :: 0 <= k < |primes| && value % primes[k] == 0 && family * primes[k] == value &&
                forall j :: k < j < |primes| ==> value % primes[j] != 0
    ensures (forall k :: 0 <= k < |primes| ==> value % primes[k] != 0) ==> family == 1
  {
    family := 1;
    var i := |primes|;
    while i > 0
      invariant 0 <= i <= |primes|
      invariant forall j :: i <= j < |primes| ==> value % primes[j] != 0
    {
      var prime := primes[i - 1];
      if value % prime == 0 {
        family := value / prime;
        DivisorWitness(value, prime);
        assert family * primes[i - 1] == value;
        return;
      }
      i := i - 1;
    }
  }

  /** The division family of a value: a composite divided by its largest
      prime factor, which it is a whole multiple of; 1 for every other value. */
  function DivisionFamily(value: int): (family: int)
    ensures value >= 2 && !IsPrime(value) ==> family * Last(Factorization(value)) == value
    ensures value <= 1 || IsPrime(value) ==> family == 1
  {
    if value >= 2 && !IsPrime(value) then
      var f := Factorization(value);
      FactorizationCorrect(value);
      assert f == [SmallestDivisor(value)] + Factorization(value / SmallestDivisor(value));
      MemberDividesProduct(f, |f| - 1);
      DivisorWitness(value, Last(f));
      value / Last(f)
    else 1
  }

  /** When the search runs over the primes up to `floor(value / 2)`, the
      largest listed prime dividing a composite is its largest prime factor. */
  lemma LargestListedIsLargestFactor(value: int, primes: seq<nat>, family: int)
    requires value >= 2 && !IsPrime(value) && primes == PrimesUpTo(value / 2)
    requires (exists k :: 0 <= k < |primes| && value % primes[k] == 0) ==>
              exists k :: 0 <= k < |primes| && value % primes[k] == 0 && family * primes[k] == value &&
                forall j :: k < j < |primes| ==> value % primes[j] != 0
    ensures family * Last(Factorization(value)) == value && Last(Factorization(value)) >= 2
  {
    var kt := LargestFactorListed(value, primes);
    var k :| 0 <= k < |primes| && value % primes[k] == 0 && family * primes[k] == value &&
      forall j :: k < j < |primes| ==> value % primes[j] != 0;
    LastDividingIsLargest(value, primes, kt, k);
  }

  /** In an ascending list of primes holding the largest prime factor, the
      last listed divisor is that factor. */
  lemma LastDividingIsLargest(value: int, primes: seq<nat>, kt: nat, k: nat)
    requires value >= 2 && AscendingPrimes(primes) && kt < |primes| && k < |primes|
    requires primes[kt] == Last(Factorization(value)) && value % primes[kt] == 0 && value % primes[k] == 0
    requires forall j :: k < j < |primes| ==> value % primes[j] != 0
    ensures primes[k] == Last(Factorization(value)) && IsPrime(primes[k])
  {
    var top, p := primes[kt], primes[k];
    assert kt <= k;
    assert top <= p by {
      if kt < k {
        assert primes[kt] < primes[k];
      }
    }
    assert IsPrime(p);
    LargestPrimeDivisor(value, p);
  }

  /** The largest prime factor of a composite is among the primes up to
      half of it. */
  lemma LargestFactorListed(value: int, primes: seq<nat>) returns (kt: nat)
    requires value >= 2 && !IsPrime(value) && primes == PrimesUpTo(value / 2)
    ensures kt < |primes| && primes[kt] == Last(Factorization(value)) && value % primes[kt] == 0
    ensures AscendingPrimes(primes)
  {
    var q := SmallestDivisor(value);
    SmallestDivisorIsPrime(value);
    LargestPrimeDivisor(value, q);
    var f := Factorization(value);
    var top := Last(f);
    FactorizationCorrect(value);
    assert IsPrime(top) by {
      assert f[|f| - 1] == top;
    }
    HalfBoundOfPrimeDivisor(value, top);
    assert top in primes;
    kt :| 0 <= kt < |primes| && primes[kt] == top;
  }

  /** `get_division_family(value)`: with the primes up to `floor(value / 2)`,
      a composite `value` divided by its largest prime factor; 1 for every
      other value. */
  method GetDivisionFamily(value: int) returns (family: int)
    ensures value >= 2 && !IsPrime(value) ==> family * Last(Factorization(value)) == value
    ensures value <= 1 || IsPrime(value) ==> family == 1
    ensures family == DivisionFamily(value)
  {
    var primes := PrimesUpTo(value / 2);
    family := DivisionFamilyOver(value, primes);
    if value >= 2 && !IsPrime(value) {
      LargestListedIsLargestFactor(value, primes, family);
      var top := Last(Factorization(value));
      QuotientOfProduct(family, top);
    } else if value >= 2 {
      forall k | 0 <= k < |primes| ensures value % primes[k] != 0 {
        assert 2 <= primes[k] <= value / 2 < value;
      }
    }
  }

  /** `get_prime_mean`: the arithmetic mean of the factors, between the least
      and the greatest of them. An empty list divides by zero in the source. */
  method GetPrimeMean(primeFactors: seq<int>) returns (primeMean: real)
    requires |primeFactors| > 0
    ensures primeMean == Sum(primeFactors) as real / |primeFactors| as real
    ensures MinOf(primeFactors) as real <= primeMean <= MaxOf(primeFactors) as real
  {
    var primeSum := 0;
    for i := 0 to |primeFactors|
      invariant primeSum == Sum(primeFactors[..i])
    {
      assert primeFactors[..i + 1][..i] == primeFactors[..i];
      primeSum := primeSum + primeFactors[i];
    }
    assert primeFactors[..|primeFactors|] == primeFactors;
    primeMean := primeSum as real / |primeFactors| as real;
    SumBetweenExtremes(primeFactors);
    MeanBetween(Sum(primeFactors), |primeFactors|, MinOf(primeFactors), MaxOf(primeFactors));
  }

  lemma MeanBetween(sum: int, n: int, lo: int, hi: int)
    requires n > 0 && n * lo <= sum <= n * hi
    ensures lo as real <= sum as real / n as real <= hi as real
  {
    assert (n * lo) as real == n as real * lo as real;
    assert (n * hi) as real == n as real * hi as real;
  }

  /** `get_mean_deviation`: the mean of `|f - primeMean|` over the factors;
      never negative, and zero exactly when every factor equals the mean. An
      empty list divides by zero in the source. */
  method GetMeanDeviation(primeFactors: seq<int>, primeMean: real) returns (meanDeviation: real)
    requires |primeFactors| > 0
    ensures meanDeviation == AbsDevSum(primeFactors, primeMean) / |primeFactors| as real
    ensures meanDeviation >= 0.0
    ensures meanDeviation == 0.0 <==> forall i :: 0 <= i < |primeFactors| ==> primeFactors[i] as real == primeMean
  {
    var deviationsSum := 0.0;
    for i := 0 to |primeFactors|
      invariant deviationsSum == AbsDevSum(primeFactors[..i], primeMean)
    {
      assert primeFactors[..i + 1][..i] == primeFactors[..i];
      deviationsSum := deviationsSum + Abs(primeFactors[i] as real - primeMean);
    }
    assert primeFactors[..|primeFactors|] == primeFactors;
    meanDeviation := deviationsSum / |primeFactors| as real;
    AbsDevSumZero(primeFactors, primeMean);
  }

  // ---------------------------------------------------------------------
  // The record shape shared by the `Number` revisions

  /** The fields of a `Number` record agree with each other: the factors
      multiply back to the value and are primes in ascending order, the
      deviation is not negative and is zero exactly when every factor equals
      the mean, and the antislope text is `"0"` exactly when the deviation is
      not positive. */
  ghost predicate RecordAgrees(value: int, isPrime: bool, factors: seq<nat>, mean: real, deviation: real,
                               slope: real, text: AntislopeText)
  {
    && value >= 1
    && isPrime == IsPrime(value)
    && Product(factors) == value
    && AllPrime(factors)
    && Sorted(factors)
    && (value >= 2 <==> factors != [])
    && deviation >= 0.0
    && (deviation == 0.0 <==> forall i :: 0 <= i < |factors| ==> factors[i] as real == mean)
    && slope >= 0.0
    && (text == ZeroText <==> !(deviation > 0.0))
  }

  /** A record whose factors are the factorisation of its value, whose mean
      and deviation are computed from them as `get_prime_mean` and
      `get_mean_deviation` do (or are 0 for the value 1), and whose
      antislope follows the deviation, agrees with itself; a prime's record
      has the prime as mean and a zero deviation. */
  lemma DerivedRecordAgrees(value: int, factors: seq<nat>, mean: real, deviation: real, slope: (real, AntislopeText))
    requires value >= 1 && factors == Factorization(value)
    requires value == 1 ==> mean == 0.0 && deviation == 0.0
    requires value >= 2 ==> |factors| > 0 && mean == Sum(factors) as real / |factors| as real
    requires value >= 2 ==> |factors| > 0 && deviation == AbsDevSum(factors, mean) / |factors| as real
    requires slope == Antislope(value, deviation)
    ensures RecordAgrees(value, IsPrime(value), factors, mean, deviation, slope.0, slope.1)
    ensures IsPrime(value) ==> mean == value as real && deviation == 0.0
  {
    FactorizationCorrect(value);
    if value >= 2 {
      AbsDevSumZero(factors, mean);
      ZeroQuotient(AbsDevSum(factors, mean), |factors| as real);
      if IsPrime(value) {
        FactorizationOfPrime(value);
        assert factors[..0] == [];
      }
    }
  }
}
