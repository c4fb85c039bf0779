/** `number.py`: the first `Number` record, whose fields are derived from
    `value` with the helpers of `lab.py`. */
module NumberRevision {
  import opened Seqs
  import opened Primes
  import opened Stats
  import opened Lab

  /** The factors and the division family of a value other than 1: a prime
      is its own single factor and, when `calculateDivisionFamily` is set,
      its own family; a composite is factorised by trial division and, when
      the flag is set, its family is its quotient by its largest prime
      factor. Otherwise the family is the one passed in. Either way the
      factors are the factorisation of the value. */
  method FactorsAndFamily(value: int, divisionFamily: int, calculateDivisionFamily: bool)
    returns (primeFactors: seq<nat>, family: int)
    requires value >= 2
    ensures IsPrime(value) ==>
      primeFactors == [value] && family == (if calculateDivisionFamily then value else divisionFamily)
    ensures primeFactors == Factorization(value)
    ensures !IsPrime(value) && calculateDivisionFamily ==> family == DivisionFamily(value)
    ensures !IsPrime(value) && !calculateDivisionFamily ==> family == divisionFamily
  {
    primeFactors := [];
    family := divisionFamily;
    if IsPrime(value) {
      primeFactors := primeFactors + [value];
      FactorizationOfPrime(value);
      if calculateDivisionFamily {
        family := value;
      }
    } else {
      primeFactors := GetPrimeFactors(value);
      if calculateDivisionFamily {
        family := GetDivisionFamily(value);
      }
    }
  }

  class Number {
    var value: int
    var isPrime: bool
    var primeFactors: seq<nat>
    var divisionFamily: int
    var primeMean: real
    var meanDeviation: real
    var antislope: real
    var antislopeString: AntislopeText

    /** The fields agree with each other (`Lab.RecordAgrees`). */
    ghost predicate Valid()
      reads this
    {
      RecordAgrees(value, isPrime, primeFactors, primeMean, meanDeviation, antislope, antislopeString)
    }

    /** `Number.__init__`. Value 1 gets the all-zero record; a prime is its
        own single factor; a composite is factorised by trial division, so
        the factors are always the factorisation of the value. The division
        family is the argument (default 1) unless `calculateDivisionFamily`
        is set, when a prime takes itself and a composite its quotient by its
        largest prime factor. Values below 1 make the source divide by zero
        and are excluded. */
    constructor (value: int, divisionFamily: int := 1, calculateDivisionFamily: bool := false)
      requires value >= 1
      ensures Valid()
      ensures this.value == value && isPrime == IsPrime(value)
      ensures primeFactors == Factorization(value)
      ensures value == 1 ==> this.divisionFamily == 1 && primeMean == 0.0 && meanDeviation == 0.0
      ensures IsPrime(value) ==>
        primeMean == value as real && meanDeviation == 0.0 &&
        this.divisionFamily == (if calculateDivisionFamily then value else divisionFamily)
      ensures value >= 2 && !IsPrime(value) && calculateDivisionFamily ==>
        this.divisionFamily == DivisionFamily(value)
      ensures value >= 2 && !IsPrime(value) && !calculateDivisionFamily ==> this.divisionFamily == divisionFamily
      ensures value >= 2 ==> primeMean == Sum(primeFactors) as real / |primeFactors| as real
      ensures value >= 2 ==> meanDeviation == AbsDevSum(primeFactors, primeMean) / |primeFactors| as real
      ensures (antislope, antislopeString) == Antislope(value, meanDeviation)
    {
      var factors: seq<nat>, family: int, mean: real, deviation: real, slope: (real, AntislopeText);
      if value == 1 {
        factors := [];
        family := 1;
        mean := 0.0;
        deviation := 0.0;
        slope := (0.0, ZeroText);
      } else {
        factors, family := FactorsAndFamily(value, divisionFamily, calculateDivisionFamily);
        mean := GetPrimeMean(factors);
        deviation := GetMeanDeviation(factors, mean);
        slope := Antislope(value, deviation);
      }
      DerivedRecordAgrees(value, factors, mean, deviation, slope);
      this.value := value;
      isPrime := IsPrime(value);
      primeFactors := factors;
      this.divisionFamily := family;
      primeMean := mean;
      meanDeviation := deviation;
      antislope, antislopeString := slope.0, slope.1;
    }
  }
}
