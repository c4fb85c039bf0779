/** `toolbox/number.py`: the later `Number` record. Its static helpers are
    the same code as `lab.py` and are modelled once, in `Lab`; the `_get_*`
    instance wrappers only forward to them, so the constructor calls the
    `Lab` methods directly. */
module ToolboxNumber {
  import opened Seqs
  import opened Primes
  import opened Stats
  import opened Lab

  /** The factors and the division family of a value other than 1. With
      `calculateDivisionFamily` the family is computed first and the passed
      one is ignored; a prime then overrides whatever it got with itself, so
      a prime's family is always the prime, while a composite keeps the
      computed quotient or the passed family. */
  method FactorsAndFamily(value: int, divisionFamily: int, calculateDivisionFamily: bool)
    returns (primeFactors: seq<nat>, family: int)
    requires value >= 2
    ensures primeFactors == Factorization(value)
    ensures IsPrime(value) ==> primeFactors == [value] && family == value
    ensures !IsPrime(value) && calculateDivisionFamily ==> family == DivisionFamily(value)
    ensures !IsPrime(value) && !calculateDivisionFamily ==> family == divisionFamily
  {
    primeFactors := [];
    if calculateDivisionFamily {
      family := GetDivisionFamily(value);
    } else {
      family := divisionFamily;
    }
    if IsPrime(value) {
      primeFactors := primeFactors + [value];
      FactorizationOfPrime(value);
      family := value;
    } else {
      primeFactors := GetPrimeFactors(value);
    }
  }

  class Number {
    var value: int
    var isPrime: bool
    var primeFactors: seq<nat>
    var divisionFamily: int
    var primeMean: real
    var meanDeviation: real
    var antislope: real
    var antislopeString: AntislopeText

    /** The fields agree with each other (`Lab.RecordAgrees`). */
    ghost predicate Valid()
      reads this
    {
      RecordAgrees(value, isPrime, primeFactors, primeMean, meanDeviation, antislope, antislopeString)
    }

    /** `Number.__init__`. Value 1 gets the all-zero record with family 1;
        otherwise the factors are the factorisation of the value, a prime's
        family is the prime itself whatever was passed or computed, and a
        composite's family is its quotient by its largest prime factor when
        `calculateDivisionFamily` is set and the passed family otherwise.
        Values below 1 make the source divide by zero and are excluded. */
    constructor (value: int, divisionFamily: int, calculateDivisionFamily: bool := false)
      requires value >= 1
      ensures Valid()
      ensures this.value == value && isPrime == IsPrime(value)
      ensures primeFactors == Factorization(value)
      ensures value == 1 ==> this.divisionFamily == 1 && primeMean == 0.0 && meanDeviation == 0.0
      ensures IsPrime(value) ==> this.divisionFamily == value && primeMean == value as real && meanDeviation == 0.0
      ensures value >= 2 && !IsPrime(value) && calculateDivisionFamily ==>
        this.divisionFamily == DivisionFamily(value)
      ensures value >= 2 && !IsPrime(value) && !calculateDivisionFamily ==> this.divisionFamily == divisionFamily
      ensures value >= 2 ==> primeMean == Sum(primeFactors) as real / |primeFactors| as real
      ensures value >= 2 ==> meanDeviation == AbsDevSum(primeFactors, primeMean) / |primeFactors| as real
      ensures (antislope, antislopeString) == Antislope(value, meanDeviation)
    {
      var factors: seq<nat>, family: int, mean: real, deviation: real, slope: (real, AntislopeText);
      if value == 1 {
        factors := [];
        family := 1;
        mean := 0.0;
        deviation := 0.0;
        slope := (0.0, ZeroText);
      } else {
        factors, family := FactorsAndFamily(value, divisionFamily, calculateDivisionFamily);
        mean := GetPrimeMean(factors);
        deviation := GetMeanDeviation(factors, mean);
        slope := Antislope(value, deviation);
      }
      DerivedRecordAgrees(value, factors, mean, deviation, slope);
      this.value := value;
      isPrime := IsPrime(value);
      primeFactors := factors;
      this.divisionFamily := family;
      primeMean := mean;
      meanDeviation := deviation;
      antislope, antislopeString := slope.0, slope.1;
    }
  }
}
