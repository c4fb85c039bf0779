/** `toolbox/data_manager.py`: the value-list batching of `DataManager` and
    the `Composite` row built from a decomposed number. */
module DataManager {
  import opened Arith
  import opened Seqs
  import opened Strings

  // ---------------------------------------------------------------------
  // Python integer arithmetic on exact quotients

  /** `math.ceil(a / b)` for the exact quotient. */
  function CeilDiv(a: int, b: int): int
    requires b != 0
  {
    if b > 0 then -((-a) / b) else -(a / -b)
  }

  /** The ceiling is the least multiple count covering `a`. */
  lemma CeilDivBounds(a: int, b: int)
    requires b > 0
    ensures (CeilDiv(a, b) - 1) * b < a <= CeilDiv(a, b) * b
  {
    var q, r := (-a) / b, (-a) % b;
    assert -a == b * q + r && 0 <= r < b;
    var c := CeilDiv(a, b);
    assert c == -q;
    assert a == c * b - r;
    assert (c - 1) * b == c * b - b;
  }

  /** A ceiling rises by one when a whole divisor is added. */
  lemma CeilDivStep(a: int, b: int)
    requires b > 0
    ensures CeilDiv(a + b, b) == CeilDiv(a, b) + 1
  {
    var q, r := (-a) / b, (-a) % b;
    assert -a == b * q + r && 0 <= r < b;
    assert -(a + b) == b * (q - 1) + r;
    DivModUnique(-(a + b), b, q - 1, r);
  }

  /** When the ceiling of `n / b` is zero, so that the source divides by it. */
  lemma CeilDivZero(n: nat, b: int)
    requires b != 0
    ensures CeilDiv(n, b) == 0 <==> n == 0 || (b < 0 && n < -b)
  {
    if b > 0 {
      if n > 0 {
        var m: int := -(n as int);
        var q, r := m / b, m % b;
        assert m == b * q + r && 0 <= r < b;
        if q >= 0 {
          MulNonNegative(b, q);
        }
      }
    } else if n < -b {
      DivModUnique(n, -b, 0, n);
    } else {
      DivMonotone(-b, n, -b);
      MulMod(-b, 1);
    }
  }

  /** `int(a / b)`: the exact quotient truncated toward zero, for `a >= 0`. */
  function TruncDiv(a: nat, b: int): int
    requires b != 0
  {
    if b > 0 then a / b else -(a / -b)
  }

  /** Where a Python slice bound `c` cuts a list of length `n`: negative
      bounds count from the end, and both are clamped to the list. */
  function SliceBound(c: int, n: nat): (k: nat)
    ensures k <= n
  {
    if c < 0 then (if n + c < 0 then 0 else n + c) else if c > n then n else c
  }

  // ---------------------------------------------------------------------
  // Batching a value list

  /** `split_value_list`: two batches cut at `int(n / ceil(n / limit))`;
      `None` where the source divides by zero (no limit, an empty list, or a
      negative limit larger in size than the list). */
  function SplitValueList(valueList: seq<int>, limit: int): (r: Option<seq<seq<int>>>)
    ensures r.None? <==> limit == 0 || |valueList| == 0 || (limit < 0 && |valueList| < -limit)
    ensures r.Some? ==> |r.value| == 2 && r.value[0] + r.value[1] == valueList
  {
    var n := |valueList|;
    if limit == 0 then None
    else
      var cutoffDivisor := CeilDiv(n, limit);
      CeilDivZero(n, limit);
      if cutoffDivisor == 0 then None
      else
        var k := SliceBound(TruncDiv(n, cutoffDivisor), n);
        assert valueList[..k] + valueList[k..] == valueList;
        Some([valueList[..k], valueList[k..]])
  }

  /** With a positive limit the first batch has `floor(n / ceil(n / limit))`
      values, never more than the limit. */
  lemma FirstBatchWithinLimit(valueList: seq<int>, limit: int)
    requires limit > 0 && |valueList| > 0
    ensures SplitValueList(valueList, limit).Some?
    ensures |SplitValueList(valueList, limit).value[0]| == |valueList| / CeilDiv(|valueList|, limit)
    ensures |SplitValueList(valueList, limit).value[0]| <= limit
  {
    var n := |valueList|;
    FirstCutBound(n, limit);
    var c := CeilDiv(n, limit);
    var q := n / c;
    assert TruncDiv(n, c) == q;
    assert SliceBound(q, n) == q;
  }

  /** The arithmetic of the cut: at least one batch is called for, and
      `n / ceil(n / limit)` is within both the list and the limit. */
  lemma FirstCutBound(n: nat, limit: int)
    requires limit > 0 && n > 0
    ensures CeilDiv(n, limit) >= 1 && 0 <= n / CeilDiv(n, limit) <= limit && n / CeilDiv(n, limit) <= n
  {
    CeilDivPositive(n, limit);
    var c := CeilDiv(n, limit);
    ScaledQuotientBound(1, n, c);
    QuotientWithinLimit(n, limit, c);
  }

  lemma CeilDivPositive(n: nat, limit: int)
    requires limit > 0 && n > 0
    ensures CeilDiv(n, limit) >= 1 && n <= CeilDiv(n, limit) * limit
  {
    CeilDivBounds(n, limit);
    var c := CeilDiv(n, limit);
    if c <= 0 {
      MulMonotone(c, 0, limit);
    }
  }

  lemma QuotientWithinLimit(n: nat, limit: int, c: int)
    requires limit > 0 && c >= 1 && n <= c * limit
    ensures n / c <= limit
  {
    DivMonotone(n, c * limit, c);
    MulMod(c, limit);
  }

  /** The second batch is not bounded by the limit: three values with limit
      1 are cut into one value and two. */
  lemma SecondBatchOverLimit()
    ensures SplitValueList([0, 0, 0], 1) == Some([[0], [0, 0]])
  {
    assert CeilDiv(3, 1) == 3;
    assert TruncDiv(3, 3) == 1;
    assert [0, 0, 0][..1] == [0] && [0, 0, 0][1..] == [0, 0];
  }

  /** The batching the limit calls for: consecutive batches of `limit`
      values, the last one possibly shorter. */
  function Batches(valueList: seq<int>, limit: int): (r: seq<seq<int>>)
    requires limit > 0
    ensures forall i :: 0 <= i < |r| ==> 0 < |r[i]| <= limit
    decreases |valueList|
  {
    if valueList == [] then []
    else if |valueList| <= limit then [valueList]
    else [valueList[..limit]] + Batches(valueList[limit..], limit)
  }

  /** The batches give the list back in order. */
  lemma {:induction false} BatchesFlatten(valueList: seq<int>, limit: int)
    requires limit > 0
    ensures Flatten(Batches(valueList, limit)) == valueList
    decreases |valueList|
  {
    if valueList == [] {
    } else if |valueList| <= limit {
      FlattenCons(valueList, []);
    } else {
      var rest := valueList[limit..];
      BatchesFlatten(rest, limit);
      FlattenCons(valueList[..limit], Batches(rest, limit));
      assert valueList[..limit] + rest == valueList;
    }
  }

  /** There are exactly `ceil(n / limit)` batches. */
  lemma {:induction false} BatchesCount(valueList: seq<int>, limit: int)
    requires limit > 0
    ensures |Batches(valueList, limit)| == CeilDiv(|valueList|, limit)
    decreases |valueList|
  {
    var n := |valueList|;
    if valueList == [] {
    } else if n <= limit {
      DivModUnique(-(n as int), limit, -1, limit - n);
    } else {
      var rest := valueList[limit..];
      BatchesCount(rest, limit);
      assert |rest| == n - limit;
      CeilDivStep(n - limit, limit);
      assert n - limit + limit == n;
    }
  }

  // ---------------------------------------------------------------------
  // Composite rows

  /** `compile_prime_factor_string`: the decimal factors joined by commas,
      `""` for no factors. */
  function CompilePrimeFactorString(primeFactors: seq<int>): (pfString: string)
    ensures primeFactors == [] <==> pfString == ""
    ensures ' ' !in pfString
  {
    JoinedFactors(primeFactors);
    Join(IntStrings(primeFactors), ",")
  }

  lemma JoinedFactors(primeFactors: seq<int>)
    ensures primeFactors == [] <==> Join(IntStrings(primeFactors), ",") == ""
    ensures ' ' !in Join(IntStrings(primeFactors), ",")
  {
    var parts := IntStrings(primeFactors);
    forall i | 0 <= i < |parts| ensures ' ' !in parts[i] {
      IntStringChars(primeFactors[i], ' ');
    }
    NoSpaces(parts, ",");
    if parts != [] {
      NatToStringRoundTrip(if primeFactors[0] < 0 then -primeFactors[0] else primeFactors[0]);
      assert |parts[0]| > 0;
      JoinLength(parts, ",");
    }
  }

  lemma {:induction false} NoSpaces(parts: seq<string>, sep: string)
    requires ' ' !in sep
    requires forall i :: 0 <= i < |parts| ==> ' ' !in parts[i]
    ensures ' ' !in Join(parts, sep)
    decreases |parts|
  {
    if |parts| > 1 {
      NoSpaces(parts[1..], sep);
    }
  }

  lemma JoinLength(parts: seq<string>, sep: string)
    requires |parts| > 0
    ensures |Join(parts, sep)| >= |parts[0]|
  {
  }

  /** The string reads back as the factors: split at the commas, each piece
      parses as the factor at its position. */
  lemma PrimeFactorStringRoundTrip(primeFactors: seq<int>)
    requires primeFactors != []
    ensures ParseInts(Split(CompilePrimeFactorString(primeFactors), ',')) == Some(primeFactors)
  {
    var parts := IntStrings(primeFactors);
    forall i | 0 <= i < |parts| ensures ',' !in parts[i] {
      IntStringChars(primeFactors[i], ',');
    }
    SplitJoin(parts, ',');
    ParseIntStrings(primeFactors);
  }

  /** A decomposed number as the data frame hands it over. */
  datatype NumberRecord = NumberRecord(
    value: int, isPrime: bool, idealFactor: real, primeFactors: seq<int>,
    meanDeviation: real, antislope: real, divisionFamily: int)

  /** A row of the `composites` table. */
  class Composite {
    var value: int
    var isPrime: bool
    var idealFactor: real
    var primeFactors: string
    var meanDeviation: real
    var antislope: real
    var divisionFamily: int

    /** `__init__`: every field copied from the record, the factors in
        their string form. */
    constructor (record: NumberRecord)
      ensures value == record.value && isPrime == record.isPrime && idealFactor == record.idealFactor
      ensures primeFactors == CompilePrimeFactorString(record.primeFactors)
      ensures meanDeviation == record.meanDeviation && antislope == record.antislope
      ensures divisionFamily == record.divisionFamily
    {
      value := record.value;
      isPrime := record.isPrime;
      idealFactor := record.idealFactor;
      primeFactors := CompilePrimeFactorString(record.primeFactors);
      meanDeviation := record.meanDeviation;
      antislope := record.antislope;
      divisionFamily := record.divisionFamily;
    }
  }
}
