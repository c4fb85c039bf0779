/** Number-theoretic vocabulary shared by every revision of the decomposer:
    primality, products, the ascending prime lists that stand in for the
    `pyprimes` routines, and a reference prime factorisation. */
module Primes {
  import opened Arith
  import opened Seqs

  /** `pyprimes.isprime`: an integer is prime when it is at least 2 and has no
      divisor strictly between 1 and itself. */
  predicate IsPrime(n: int) {
    n >= 2 && forall d :: 2 <= d < n ==> n % d != 0
  }

  /** The product of a list of integers (`math.prod` / `np.prod`); 1 for the empty list. */
  function Product(s: seq<int>): int {
    if s == [] then 1 else s[0] * Product(s[1..])
  }

  lemma {:induction false} ProductAppend(s: seq<int>, x: int)
    ensures Product(s + [x]) == Product(s) * x
  {
    if s == [] {
      assert [x][1..] == [];
    } else {
      assert (s + [x])[1..] == s[1..] + [x];
      ProductAppend(s[1..], x);
    }
  }

  lemma {:induction false} ProductConcat(a: seq<int>, b: seq<int>)
    ensures Product(a + b) == Product(a) * Product(b)
  {
    if a == [] {
      assert a + b == b;
    } else {
      assert (a + b)[1..] == a[1..] + b;
      ProductConcat(a[1..], b);
    }
  }

  /** Every element of the list is a prime. */
  predicate AllPrime(s: seq<int>) {
    forall i :: 0 <= i < |s| ==> IsPrime(s[i])
  }

  /** Strictly increasing. */
  predicate StrictlyAscending(s: seq<int>) {
    forall i, j :: 0 <= i < j < |s| ==> s[i] < s[j]
  }

  /** What `pyprimes.primes_below` yields: an ascending list of primes. */
  predicate AscendingPrimes(s: seq<int>) {
    AllPrime(s) && StrictlyAscending(s)
  }

  /** The primes `p` with `2 <= p <= n`, ascending: `list(pp.primes_below(n))`. */
  function PrimesUpTo(n: int): (r: seq<nat>)
    ensures AscendingPrimes(r)
    ensures forall i :: 0 <= i < |r| ==> r[i] <= n
    ensures forall p :: IsPrime(p) && p <= n ==> p in r
    decreases n
  {
    if n < 2 then [] else PrimesUpTo(n - 1) + (if IsPrime(n) then [n] else [])
  }

  /** `pyprimes.prime_count(n)`: the number of primes not above `n`. */
  function PrimeCount(n: int): nat {
    |PrimesUpTo(n)|
  }

  // ---------------------------------------------------------------------
  // Divisibility facts

  lemma DivisorTransitive(a: int, b: int, c: int)
    requires a > 0 && b > 0 && c > 0
    requires b % a == 0 && c % b == 0
    ensures c % a == 0
  {
    var k := b / a;
    var m := c / b;
    DivisorWitness(b, a);
    DivisorWitness(c, b);
    assert c == a * (k * m) by {
      calc {
        c;
        b * m;
        (a * k) * m;
        a * (k * m);
      }
    }
    MulMod(a, k * m);
  }

  lemma QuotientIsDivisor(n: int, d: int)
    requires n > 0 && d > 0 && n % d == 0
    ensures n / d > 0 && n % (n / d) == 0 && n / (n / d) == d
  {
    var q := n / d;
    DivisorWitness(n, d);
    if q <= 0 {
      MulNonNegative(d, -q);
    }
    assert n == q * d;
    MulMod(q, d);
  }

  /** A proper quotient is at most half of the dividend. */
  lemma ProperQuotientBound(n: int, d: int)
    requires n > 0 && d >= 2 && n % d == 0
    ensures n / d <= n / 2 && n / d < n
  {
    var q := n / d;
    QuotientIsDivisor(n, d);
    DivisorWitness(n, d);
    assert n == 2 * q + (d - 2) * q;
    MulNonNegative(d - 2, q);
  }

  // ---------------------------------------------------------------------
  // Smallest divisors and the reference factorisation (`pyprimes.factors`)

  function SmallestDivisorFrom(n: nat, d: nat): (r: nat)
    requires 2 <= d <= n
    requires forall e :: 2 <= e < d ==> n % e != 0
    ensures d <= r <= n && n % r == 0
    ensures forall e :: 2 <= e < r ==> n % e != 0
    decreases n - d
  {
    if n % d == 0 then d
    else
      MulMod(n, 1);
      assert d < n;
      SmallestDivisorFrom(n, d + 1)
  }

  /** The least divisor of `n` that is at least 2. */
  function SmallestDivisor(n: nat): (r: nat)
    requires n >= 2
    ensures 2 <= r <= n && n % r == 0
    ensures forall e :: 2 <= e < r ==> n % e != 0
  {
    SmallestDivisorFrom(n, 2)
  }

  lemma SmallestDivisorIsPrime(n: nat)
    requires n >= 2
    ensures IsPrime(SmallestDivisor(n))
  {
    var r := SmallestDivisor(n);
    forall e | 2 <= e < r ensures r % e != 0 {
      if r % e == 0 {
        DivisorTransitive(e, r, n);
      }
    }
  }

  /** A number that is not prime has its smallest divisor strictly below it. */
  lemma SmallestDivisorOfComposite(n: nat)
    requires n >= 2 && !IsPrime(n)
    ensures SmallestDivisor(n) < n
  {
    var r := SmallestDivisor(n);
    assert exists e :: 2 <= e < n && n % e == 0;
  }

  /** Every integer at least 2 has a prime divisor. */
  lemma PrimeDivisorExists(n: nat)
    requires n >= 2
    ensures exists q :: IsPrime(q) && n % q == 0
  {
    SmallestDivisorIsPrime(n);
    var q := SmallestDivisor(n);
    assert IsPrime(q) && n % q == 0;
  }

  /** The prime factorisation of `n`, built by repeatedly dividing out the
      smallest divisor; empty for `n < 2`. */
  function Factorization(n: nat): seq<nat>
    decreases n
  {
    if n < 2 then []
    else
      var d := SmallestDivisor(n);
      ProperQuotientBound(n, d);
      [d] + Factorization(n / d)
  }

  /** The factorisation multiplies back to `n`, consists of primes, is sorted,
      and never contains a factor below the least divisor of `n`. */
  lemma {:induction false} FactorizationCorrect(n: nat)
    requires n >= 1
    ensures Product(Factorization(n)) == n
    ensures AllPrime(Factorization(n))
    ensures Sorted(Factorization(n))
    ensures n >= 2 ==> forall i :: 0 <= i < |Factorization(n)| ==> SmallestDivisor(n) <= Factorization(n)[i]
    decreases n
  {
    if n >= 2 {
      var d := SmallestDivisor(n);
      var m := n / d;
      ProperQuotientBound(n, d);
      QuotientIsDivisor(n, d);
      SmallestDivisorIsPrime(n);
      FactorizationCorrect(m);
      var f := Factorization(n);
      assert f == [d] + Factorization(m);
      assert f[1..] == Factorization(m);
      DivisorWitness(n, d);
      assert Product(f) == d * m;
      if m >= 2 {
        var e := SmallestDivisor(m);
        assert d <= e by {
          if e < d {
            DivisorTransitive(e, m, n);
          }
        }
      }
    }
  }

  /** `n >= 2` is prime exactly when its factorisation is the single `[n]`. */
  lemma FactorizationOfPrime(n: nat)
    requires n >= 2
    ensures IsPrime(n) <==> Factorization(n) == [n]
  {
    var d := SmallestDivisor(n);
    if IsPrime(n) {
      assert d == n;
      assert Factorization(1) == [];
      assert Factorization(n) == [n] + Factorization(1);
    } else {
      SmallestDivisorOfComposite(n);
      assert Factorization(n)[0] == d;
    }
  }

  // ---------------------------------------------------------------------
  // Unique factorisation

  /** A prime dividing a product of two positive factors divides one of them. */
  lemma {:induction false} EuclidBelow(p: int, a: int, b: int)
    requires IsPrime(p) && 0 < a < p && b >= 0
    requires (a * b) % p == 0
    ensures b % p == 0
    decreases a
  {
    if a > 1 {
      var q := p / a;
      var r := p % a;
      assert p == a * q + r;
      assert r > 0;
      var t := (a * b) / p;
      DivisorWitness(a * b, p);
      assert r * b == p * (b - q * t) by {
        calc {
          r * b;
          (p - a * q) * b;
          p * b - q * (a * b);
          p * b - q * (p * t);
          p * (b - q * t);
        }
      }
      MulMod(p, b - q * t);
      EuclidBelow(p, r, b);
    }
  }

  lemma Euclid(p: int, a: int, b: int)
    requires IsPrime(p) && a >= 0 && b >= 0
    requires (a * b) % p == 0
    ensures a % p == 0 || b % p == 0
  {
    var r := a % p;
    if r != 0 {
      var k := a / p;
      var t := (a * b) / p;
      DivisorWitness(a * b, p);
      assert a == p * k + r;
      assert r * b == p * (t - k * b) by {
        calc {
          r * b;
          (a - p * k) * b;
          a * b - p * (k * b);
          p * t - p * (k * b);
          p * (t - k * b);
        }
      }
      MulMod(p, t - k * b);
      EuclidBelow(p, r, b);
    }
  }

  lemma {:induction false} ProductOfPrimesPositive(s: seq<int>)
    requires AllPrime(s)
    ensures Product(s) >= 1
    ensures s != [] ==> Product(s) >= 2
  {
    if s != [] {
      ProductOfPrimesPositive(s[1..]);
      MulAtLeast(s[0], Product(s[1..]));
    }
  }

  /** A prime that divides a product of primes is one of them. */
  lemma {:induction false} PrimeDividesProduct(p: int, s: seq<int>)
    requires IsPrime(p) && AllPrime(s)
    requires Product(s) % p == 0
    ensures p in s
  {
    if s != [] {
      ProductOfPrimesPositive(s[1..]);
      Euclid(p, s[0], Product(s[1..]));
      if s[0] % p != 0 {
        PrimeDividesProduct(p, s[1..]);
      }
    }
  }

  lemma MulCancel(a: int, x: int, y: int)
    requires a > 0 && a * x == a * y
    ensures x == y
  {
    MulMod(a, x);
    MulMod(a, y);
  }

  /** Fundamental theorem of arithmetic, uniqueness half: two sorted lists of
      primes with the same product are the same list. */
  lemma {:induction false} SortedPrimeListsUnique(s: seq<int>, t: seq<int>)
    requires AllPrime(s) && AllPrime(t) && Sorted(s) && Sorted(t)
    requires Product(s) == Product(t)
    ensures s == t
    decreases |s|
  {
    ProductOfPrimesPositive(s);
    ProductOfPrimesPositive(t);
    if s != [] && t != [] {
      assert Product(t) == t[0] * Product(t[1..]);
      assert Product(s) == s[0] * Product(s[1..]);
      MulMod(s[0], Product(s[1..]));
      MulMod(t[0], Product(t[1..]));
      PrimeDividesProduct(s[0], t);
      PrimeDividesProduct(t[0], s);
      assert s[0] == t[0];
      MulCancel(s[0], Product(s[1..]), Product(t[1..]));
      SortedPrimeListsUnique(s[1..], t[1..]);
      assert s == [s[0]] + s[1..];
      assert t == [t[0]] + t[1..];
    }
  }

  /** Any sorted list of primes multiplying to `n` is the factorisation of `n`. */
  lemma FactorizationUnique(n: nat, s: seq<int>)
    requires n >= 1 && AllPrime(s) && Sorted(s) && Product(s) == n
    ensures s == Factorization(n)
  {
    FactorizationCorrect(n);
    SortedPrimeListsUnique(s, Factorization(n));
  }

  /** Each member of a list of primes divides the product of the list. */
  lemma {:induction false} MemberDividesProduct(s: seq<int>, i: int)
    requires AllPrime(s) && 0 <= i < |s|
    ensures Product(s) % s[i] == 0
  {
    ProductOfPrimesPositive(s[1..]);
    if i == 0 {
      MulMod(s[0], Product(s[1..]));
    } else {
      MemberDividesProduct(s[1..], i - 1);
      var k := Product(s[1..]) / s[i];
      DivisorWitness(Product(s[1..]), s[i]);
      assert Product(s) == s[i] * (s[0] * k) by {
        calc {
          Product(s);
          s[0] * Product(s[1..]);
          s[0] * (s[i] * k);
          s[i] * (s[0] * k);
        }
      }
      MulMod(s[i], s[0] * k);
    }
  }

  /** Every prime dividing `n` occurs in its factorisation, so the last factor
      is the largest prime dividing `n`. */
  lemma LargestPrimeDivisor(n: nat, p: int)
    requires n >= 2 && IsPrime(p) && n % p == 0
    ensures p in Factorization(n)
    ensures p <= Last(Factorization(n))
    ensures n % Last(Factorization(n)) == 0
  {
    var f := Factorization(n);
    assert p in f && Sorted(f) by {
      FactorizationCorrect(n);
      PrimeDividesProduct(p, f);
    }
    SortedAtMostLast(f, p);
    assert n % Last(f) == 0 by {
      FactorizationCorrect(n);
      MemberDividesProduct(f, |f| - 1);
    }
  }

  /** Every element of a sorted list is at most its last one. */
  lemma SortedAtMostLast(s: seq<int>, x: int)
    requires Sorted(s) && x in s
    ensures x <= Last(s)
  {
    var i :| 0 <= i < |s| && s[i] == x;
    if i < |s| - 1 {
      assert s[i] <= s[|s| - 1];
    }
  }

  // ---------------------------------------------------------------------
  // The next prime above a bound (`pyprimes.primes_above`)

  function Factorial(n: nat): (r: nat)
    ensures r >= 1
  {
    if n == 0 then 1 else n * Factorial(n - 1)
  }

  lemma {:induction false} FactorialDivisible(n: nat, k: nat)
    requires 1 <= k <= n
    ensures Factorial(n) % k == 0
  {
    if k == n {
      assert Factorial(n) == k * Factorial(n - 1);
      MulMod(k, Factorial(n - 1));
    } else {
      FactorialDivisible(n - 1, k);
      var m := Factorial(n - 1) / k;
      DivisorWitness(Factorial(n - 1), k);
      assert Factorial(n) == k * (n * m) by {
        calc {
          Factorial(n);
          n * Factorial(n - 1);
          n * (k * m);
          k * (n * m);
        }
      }
      MulMod(k, n * m);
    }
  }

  /** Above every bound there is a prime, no larger than `n! + 1`. */
  lemma PrimeAbove(n: nat)
    ensures exists p :: n < p <= Factorial(n) + 1 && IsPrime(p)
  {
    var big := Factorial(n) + 1;
    if n == 0 {
      assert IsPrime(2);
    } else {
      SmallestDivisorIsPrime(big);
      var q := SmallestDivisor(big);
      if q <= n {
        FactorialDivisible(n, q);
        var a := Factorial(n) / q;
        var b := big / q;
        DivisorWitness(Factorial(n), q);
        DivisorWitness(big, q);
        assert q * (b - a) == 1 by {
          assert q * b - q * a == q * (b - a);
        }
        if b - a >= 1 {
          MulAtLeast(q, b - a);
        } else {
          MulNonNegative(q, a - b);
        }
      }
      assert n < q <= big && IsPrime(q);
    }
  }

  function NextPrimeFrom(c: nat, bound: nat): (r: nat)
    requires c <= bound
    requires exists p :: c <= p <= bound && IsPrime(p)
    ensures c <= r <= bound && IsPrime(r)
    ensures forall q :: c <= q < r ==> !IsPrime(q)
    decreases bound - c
  {
    if IsPrime(c) then c
    else
      assert exists p :: c + 1 <= p <= bound && IsPrime(p);
      NextPrimeFrom(c + 1, bound)
  }

  /** The first value `next(pp.primes_above(x))` yields: the least prime above `x`. */
  function NextPrime(x: int): (r: nat)
    ensures IsPrime(r) && r > x
    ensures forall q :: x < q < r ==> !IsPrime(q)
  {
    if x < 2 then
      assert IsPrime(2);
      NextPrimeFrom(2, 2)
    else
      PrimeAbove(x);
      NextPrimeFrom(x + 1, Factorial(x) + 1)
  }

  /** `count` successive primes above `x`, as `count` calls of `next` on
      `pp.primes_above(x)` return them. */
  function PrimesAbove(x: int, count: nat): seq<nat>
    decreases count
  {
    if count == 0 then [] else [NextPrime(x)] + PrimesAbove(NextPrime(x), count - 1)
  }

  /** The primes above `x` come out ascending, all above `x`, and no prime
      in between is skipped. */
  lemma PrimesAboveCorrect(x: int, count: nat)
    ensures |PrimesAbove(x, count)| == count
    ensures AscendingPrimes(PrimesAbove(x, count))
    ensures forall i :: 0 <= i < count ==> PrimesAbove(x, count)[i] > x
    ensures forall i, q :: 0 <= i < count && x < q < PrimesAbove(x, count)[i] && IsPrime(q) ==>
              q in PrimesAbove(x, count)[..i]
  {
    PrimesAboveShape(x, count);
    PrimesAboveNoGap(x, count);
  }

  /** `count` ascending primes, all above `x`. */
  lemma {:induction false} PrimesAboveShape(x: int, count: nat)
    ensures |PrimesAbove(x, count)| == count
    ensures AscendingPrimes(PrimesAbove(x, count))
    ensures forall i :: 0 <= i < count ==> PrimesAbove(x, count)[i] > x
    decreases count
  {
    if count > 0 {
      var p := NextPrime(x);
      var rest := PrimesAbove(p, count - 1);
      PrimesAboveShape(p, count - 1);
      var all := PrimesAbove(x, count);
      assert all == [p] + rest;
      forall i, j | 0 <= i < j < count ensures all[i] < all[j] {
        assert all[j] == rest[j - 1];
      }
      forall i | 0 <= i < count ensures IsPrime(all[i]) && all[i] > x {
        if i > 0 {
          assert all[i] == rest[i - 1];
        }
      }
    }
  }

  /** No prime between `x` and a listed prime is skipped. */
  lemma {:induction false} PrimesAboveNoGap(x: int, count: nat)
    ensures forall i, q :: 0 <= i < |PrimesAbove(x, count)| && x < q < PrimesAbove(x, count)[i] && IsPrime(q) ==>
              q in PrimesAbove(x, count)[..i]
    decreases count
  {
    PrimesAboveShape(x, count);
    if count > 0 {
      var p := NextPrime(x);
      var rest := PrimesAbove(p, count - 1);
      PrimesAboveNoGap(p, count - 1);
      var all := PrimesAbove(x, count);
      assert all == [p] + rest;
      forall i, q | 0 <= i < count && x < q < all[i] && IsPrime(q)
        ensures q in all[..i]
      {
        if i > 0 {
          if q == p {
            assert all[0] == p;
          } else {
            assert p < q;
            assert q in rest[..i - 1];
            assert all[..i] == [p] + rest[..i - 1];
          }
        }
      }
    }
  }

  // ---------------------------------------------------------------------
  // Ranges of values

  lemma RangeKeptStep(lowerbound: int, value: int, includePrimes: bool)
    requires lowerbound <= value
    ensures RangeKept(lowerbound, value, includePrimes) ==
            RangeKept(lowerbound, value - 1, includePrimes) + (if includePrimes || !IsPrime(value) then [value] else [])
  {
  }

  /** The values `lowerbound..upperbound` in order, primes only when
      included. */
  function RangeKept(lowerbound: int, upperbound: int, includePrimes: bool): seq<int>
    decreases upperbound - lowerbound
  {
    if upperbound < lowerbound then []
    else RangeKept(lowerbound, upperbound - 1, includePrimes) + (if includePrimes || !IsPrime(upperbound) then [upperbound] else [])
  }

  /** Exactly the values of the range that are kept, strictly ascending. */
  lemma {:induction false} RangeKeptCorrect(lowerbound: int, upperbound: int, includePrimes: bool)
    ensures forall x :: x in RangeKept(lowerbound, upperbound, includePrimes) <==>
              lowerbound <= x <= upperbound && (includePrimes || !IsPrime(x))
    ensures StrictlyAscending(RangeKept(lowerbound, upperbound, includePrimes))
    decreases upperbound - lowerbound
  {
    if upperbound >= lowerbound {
      var prev := RangeKept(lowerbound, upperbound - 1, includePrimes);
      RangeKeptCorrect(lowerbound, upperbound - 1, includePrimes);
      forall i | 0 <= i < |prev| ensures prev[i] < upperbound {
        assert prev[i] in prev;
      }
    }
  }
}
