/** `toolbox/utils.py`: palette lookup, the geometric-sum searches that size
    colour buckets, small list and string helpers, and the filtered
    generation of `Number` records. */
module ToolboxUtils {
  import opened Arith
  import opened Seqs
  import opened Primes
  import opened Stats
  import opened Strings
  import opened Lab
  import ToolboxNumber

  // ---------------------------------------------------------------------
  // Palettes

  /** The bokeh palettes the program can be configured with. */
  datatype Palette = Magma | Inferno | Plasma | Viridis | Cividis | Turbo | Category10 | Dark2

  function PaletteName(p: Palette): string {
    match p
    case Magma => "Magma"
    case Inferno => "Inferno"
    case Plasma => "Plasma"
    case Viridis => "Viridis"
    case Cividis => "Cividis"
    case Turbo => "Turbo"
    case Category10 => "Category10"
    case Dark2 => "Dark2"
  }

  /** `get_palette`: the palette with the given name; any other name falls
      back to Turbo. */
  function GetPalette(paletteName: string): (p: Palette)
    ensures forall q :: PaletteName(q) == paletteName ==> p == q
    ensures PaletteName(p) == paletteName || p == Turbo
  {
    if paletteName == "Magma" then Magma
    else if paletteName == "Inferno" then Inferno
    else if paletteName == "Plasma" then Plasma
    else if paletteName == "Viridis" then Viridis
    else if paletteName == "Cividis" then Cividis
    else if paletteName == "Turbo" then Turbo
    else if paletteName == "Category10" then Category10
    else if paletteName == "Dark2" then Dark2
    else Turbo
  }

  /** The last element of a sorted permutation is the maximum. */
  lemma SortLastIsMax(s: seq<int>)
    requires |s| > 0
    ensures Last(Sort(s)) in s
    ensures forall i :: 0 <= i < |s| ==> s[i] <= Last(Sort(s))
  {
    SortedPermutationLast(Sort(s), s);
  }

  /** The last element of any sorted permutation of `s` is its maximum. */
  lemma SortedPermutationLast(t: seq<int>, s: seq<int>)
    requires Sorted(t) && multiset(t) == multiset(s) && |s| > 0
    ensures |t| > 0 && Last(t) in s
    ensures forall i :: 0 <= i < |s| ==> s[i] <= Last(t)
  {
    assert |t| == |multiset(s)| == |s|;
    assert t[|t| - 1] in multiset(t);
    forall i | 0 <= i < |s| ensures s[i] <= Last(t) {
      assert s[i] in multiset(t);
      var j :| 0 <= j < |t| && t[j] == s[i];
    }
  }

  /** `get_number_of_colors_in_palette`: the largest key of the palette
      dictionary, that is the largest colour count it offers. The keys are
      given in any order; an empty palette has no last key. */
  function GetNumberOfColorsInPalette(paletteKeys: seq<int>): (count: int)
    requires |paletteKeys| > 0
    ensures count in paletteKeys
    ensures forall i :: 0 <= i < |paletteKeys| ==> paletteKeys[i] <= count
  {
    SortLastIsMax(paletteKeys);
    Last(Sort(paletteKeys))
  }

  /** `split_prime_factors`: the sorted list without its last element, and
      that last element, the maximum. Together they are the sorted input. An
      empty list has no last element. */
  function SplitPrimeFactors(intList: seq<int>): (r: (seq<int>, int))
    requires |intList| > 0
    ensures r.0 + [r.1] == Sort(intList)
    ensures Sorted(r.0) && |r.0| == |intList| - 1
    ensures multiset(r.0) + multiset{r.1} == multiset(intList)
    ensures r.1 in intList && forall i :: 0 <= i < |intList| ==> intList[i] <= r.1
  {
    SortSplit(intList);
    var sorted := Sort(intList);
    (sorted[..|sorted| - 1], sorted[|sorted| - 1])
  }

  lemma SortSplit(s: seq<int>)
    requires |s| > 0
    ensures Sort(s)[..|s| - 1] + [Last(Sort(s))] == Sort(s)
    ensures Sorted(Sort(s)[..|s| - 1])
    ensures multiset(Sort(s)[..|s| - 1]) + multiset{Last(Sort(s))} == multiset(s)
    ensures Last(Sort(s)) in s && forall i :: 0 <= i < |s| ==> s[i] <= Last(Sort(s))
  {
    SortLastIsMax(s);
    InitAndLast(Sort(s));
  }

  /** A non-empty sorted list is its sorted front followed by its last element. */
  lemma InitAndLast(t: seq<int>)
    requires |t| > 0 && Sorted(t)
    ensures t[..|t| - 1] + [t[|t| - 1]] == t
    ensures Sorted(t[..|t| - 1])
    ensures multiset(t[..|t| - 1]) + multiset{t[|t| - 1]} == multiset(t)
  {
    var init := t[..|t| - 1];
    assert init + [t[|t| - 1]] == t;
    assert forall i :: 0 <= i < |init| ==> init[i] == t[i];
  }

  // ---------------------------------------------------------------------
  // Geometric sums and the bucket searches

  /** `base ** k` for a natural exponent. */
  function Pow(base: int, k: nat): int {
    if k == 0 then 1 else Pow(base, k - 1) * base
  }

  /** `base**0 + base**1 + ... + base**(k-1)`. */
  function GeomSum(base: int, k: nat): int {
    if k == 0 then 0 else GeomSum(base, k - 1) + Pow(base, k - 1)
  }

  /** The closed form of the geometric sum. */
  lemma {:induction false} GeomSumClosedForm(base: int, k: nat)
    ensures (base - 1) * GeomSum(base, k) == Pow(base, k) - 1
  {
    if k > 0 {
      GeomSumClosedForm(base, k - 1);
      var g, p := GeomSum(base, k - 1), Pow(base, k - 1);
      assert (base - 1) * (g + p) == (base - 1) * g + (base - 1) * p;
      assert (base - 1) * p == p * base - p;
    }
  }

  lemma {:induction false} PowPositive(base: int, k: nat)
    requires base >= 1
    ensures Pow(base, k) >= 1
  {
    if k > 0 {
      PowPositive(base, k - 1);
      MulAtLeast(Pow(base, k - 1), base);
    }
  }

  /** With a base of at least 1 every term is at least 1. */
  lemma {:induction false} GeomSumAtLeast(base: int, k: nat)
    requires base >= 1
    ensures GeomSum(base, k) >= k
    ensures k >= 2 ==> GeomSum(base, k) >= 1 + base
  {
    if k > 0 {
      GeomSumAtLeast(base, k - 1);
      PowPositive(base, k - 1);
      if k == 2 {
        assert GeomSum(base, 2) == 1 + base;
      }
    }
  }

  /** `get_max_sum(limit, base)`: the sum of the first `limit` powers of
      `base`, and 0 when `limit` is not positive. */
  method GetMaxSum(limit: int, base: int) returns (sum: int)
    ensures sum == GeomSum(base, NonNeg(limit))
    ensures limit <= 0 ==> sum == 0
    ensures limit == 1 ==> sum == 1
  {
    var counter := 0;
    sum := 0;
    while counter < limit
      invariant 0 <= counter <= NonNeg(limit)
      invariant sum == GeomSum(base, counter)
    {
      sum := sum + Pow(base, counter);
      counter := counter + 1;
    }
  }

  /** `get_bucket_base(limit, volume)`: the smallest base from 2 up whose
      first `limit` powers add up to at least `volume`, and 1 when `volume`
      is not positive. The search ends only when some base reaches the
      volume: with `limit >= 2` the sums grow with the base; a single power
      always sums to 1, and no powers sum to 0. */
  method GetBucketBase(limit: int, volume: int) returns (base: int)
    requires volume <= 0 || limit >= 2 || (limit == 1 && volume <= 1)
    ensures volume <= 0 ==> base == 1
    ensures volume > 0 ==> base >= 2 && GeomSum(base, NonNeg(limit)) >= volume
    ensures forall b :: 2 <= b < base ==> GeomSum(b, NonNeg(limit)) < volume
  {
    base := 1;
    var maxSum := 0;
    while maxSum < volume
      invariant base >= 1
      invariant base == 1 ==> maxSum == 0
      invariant volume <= 0 ==> base == 1
      invariant base >= 2 ==> maxSum == GeomSum(base, NonNeg(limit))
      invariant limit >= 2 && base >= 2 ==> maxSum >= 1 + base
      invariant limit == 1 && base >= 2 ==> maxSum == 1
      invariant forall b :: 2 <= b < base ==> GeomSum(b, NonNeg(limit)) < volume
      decreases volume - base
    {
      base := base + 1;
      maxSum := GetMaxSum(limit, base);
      if limit >= 2 {
        GeomSumAtLeast(base, limit);
      }
    }
  }

  /** An odd power of a base of at most -2 is negative. */
  lemma {:induction false} OddPowNegative(base: int, m: nat)
    requires base <= -2
    ensures Pow(base, 2 * m + 1) <= -1
  {
    if m > 0 {
      OddPowNegative(base, m - 1);
      var p := Pow(base, 2 * m - 1);
      var q := base * base;
      assert Pow(base, 2 * m + 1) == p * q;
      assert (p + 1) * q <= 0;
    }
  }

  /** With a base of at most -2 the geometric sums of odd length grow
      without bound: the two powers added between them are a negative odd
      power times `1 + base`, which is at least 1. */
  lemma {:induction false} OddGeomSumGrows(base: int, m: nat)
    requires base <= -2
    ensures GeomSum(base, 2 * m + 1) >= m + 1
  {
    if m == 0 {
      assert GeomSum(base, 1) == GeomSum(base, 0) + Pow(base, 0);
    } else {
      var k := 2 * m - 1;
      OddGeomSumGrows(base, m - 1);
      OddPowNegative(base, m - 1);
      var p := Pow(base, k);
      assert Pow(base, k + 1) == p * base;
      assert GeomSum(base, 2 * m + 1) == GeomSum(base, k) + p * (1 + base);
      assert (p + 1) * (1 + base) >= 0;
    }
  }

  /** `get_power_of_n(value, base)`: 1 for the value 1; otherwise the
      smallest count `k` of powers of `base` with `1 + base**0 + ... +
      base**(k-1) >= value` (0 for values below 1). The sums grow without
      bound for a base of at least 1, and along the odd counts for a base
      of at most -2; for a base of 0 or -1 they never pass 2. */
  method GetPowerOfN(value: int, base: int) returns (counter: int)
    requires base >= 1 || base <= -2 || value <= 2
    ensures value == 1 ==> counter == 1
    ensures value != 1 ==> counter >= 0 && 1 + GeomSum(base, counter) >= value
    ensures value != 1 ==> forall j :: 0 <= j < counter ==> 1 + GeomSum(base, j) < value
  {
    if value == 1 {
      return 1;
    }
    ghost var bound: nat := 2;
    if base <= -2 {
      var m: nat := if value >= 0 then value else 0;
      OddGeomSumGrows(base, m);
      bound := 2 * m + 1;
    }
    counter := 0;
    var intermediateProduct := 1;
    while intermediateProduct < value
      invariant counter >= 0
      invariant intermediateProduct == 1 + GeomSum(base, counter)
      invariant forall j :: 0 <= j < counter ==> 1 + GeomSum(base, j) < value
      invariant base >= 1 ==> intermediateProduct >= 1 + counter
      invariant -2 < base < 1 ==> counter <= 1 && (counter == 1 ==> intermediateProduct == 2)
      invariant base <= -2 ==> counter <= bound && 1 + GeomSum(base, bound) >= value
      decreases (if base >= 1 then value else bound) - counter
    {
      if base >= 1 {
        PowPositive(base, counter);
      }
      intermediateProduct := intermediateProduct + Pow(base, counter);
      counter := counter + 1;
    }
  }

  // ---------------------------------------------------------------------
  // Labels and strings

  /** `get_factors(n)`: the decimal labels `"0"`, ..., `str(n-1)`, each of
      which reads back as its own position; none for `n <= 0`. */
  method GetFactors(numberOfColors: int) returns (factorsList: seq<string>)
    ensures |factorsList| == NonNeg(numberOfColors)
    ensures forall i :: 0 <= i < |factorsList| ==> factorsList[i] == IntToString(i)
    ensures forall i :: 0 <= i < |factorsList| ==> ParseInt(factorsList[i]) == Some(i)
    ensures Distinct(factorsList)
  {
    factorsList := [];
    var index := 0;
    while index < numberOfColors
      invariant 0 <= index <= NonNeg(numberOfColors)
      invariant |factorsList| == index
      invariant forall i :: 0 <= i < index ==> factorsList[i] == IntToString(i)
    {
      factorsList := factorsList + [IntToString(index)];
      index := index + 1;
    }
    LabelsReadBack(factorsList);
  }

  /** Labels that are the decimal forms of their positions read back as
      those positions, so no two are equal. */
  lemma LabelsReadBack(labels: seq<string>)
    requires forall i :: 0 <= i < |labels| ==> labels[i] == IntToString(i)
    ensures forall i :: 0 <= i < |labels| ==> ParseInt(labels[i]) == Some(i)
    ensures Distinct(labels)
  {
    forall i | 0 <= i < |labels| ensures ParseInt(labels[i]) == Some(i) {
      IntToStringRoundTrip(i);
    }
    forall i, j | 0 <= i < j < |labels| ensures labels[i] != labels[j] {
      assert ParseInt(labels[i]) != ParseInt(labels[j]);
    }
  }

  /** The default arguments of `int_list_to_str`. */
  const DefaultSeparator: string := ", "
  const DefaultBookends: (string, string) := ("[ ", " ]")

  /** `int_list_to_str`: the decimal forms of the integers joined by
      `separator`, between the two bookends when `useBookends` is set. The
      bookend list of the source is a pair here. */
  method IntListToStr(numberList: seq<int>, separator: string := DefaultSeparator, useBookends: bool := true,
                      bookends: (string, string) := DefaultBookends)
    returns (s: string)
    ensures useBookends ==> s == bookends.0 + Join(IntStrings(numberList), separator) + bookends.1
    ensures !useBookends ==> s == Join(IntStrings(numberList), separator)
  {
    var stringifiedList: seq<string> := [];
    for i := 0 to |numberList|
      invariant |stringifiedList| == i
      invariant forall k :: 0 <= k < i ==> stringifiedList[k] == IntToString(numberList[k])
    {
      stringifiedList := stringifiedList + [IntToString(numberList[i])];
    }
    assert stringifiedList == IntStrings(numberList);
    var listString := Join(stringifiedList, separator);
    if useBookends {
      s := bookends.0 + listString + bookends.1;
    } else {
      s := listString;
    }
  }

  /** Strip `pad` from the front of every string; `None` if one lacks it. */
  function Unpadded(parts: seq<string>, pad: string): (r: Option<seq<string>>)
    ensures r.Some? ==> |r.value| == |parts|
  {
    if parts == [] then Some([])
    else if |parts[0]| >= |pad| && parts[0][..|pad|] == pad then
      match Unpadded(parts[1..], pad)
      case Some(rest) => Some([parts[0][|pad|..]] + rest)
      case None => None
    else None
  }

  lemma {:induction false} UnpaddedPadded(parts: seq<string>, pad: string)
    ensures Unpadded(Padded(parts, pad), pad) == Some(parts)
  {
    if parts != [] {
      var p := Padded(parts, pad);
      assert p[1..] == Padded(parts[1..], pad);
      UnpaddedPadded(parts[1..], pad);
      assert p[0][|pad|..] == parts[0];
      assert [parts[0]] + parts[1..] == parts;
    }
  }

  /** Read back a list rendered with the default separator and bookends. */
  function ParseIntListString(s: string): Option<seq<int>> {
    if |s| >= 4 && s[..2] == "[ " && s[|s| - 2..] == " ]" then
      var inner := s[2..|s| - 2];
      if inner == "" then Some([])
      else
        var pieces := Split(inner, ',');
        match Unpadded(pieces[1..], " ")
        case Some(rest) => ParseInts([pieces[0]] + rest)
        case None => None
    else None
  }

  /** The default rendering of `int_list_to_str` reads back as the list. */
  lemma IntListToStrRoundTrip(numberList: seq<int>)
    ensures ParseIntListString(DefaultBookends.0 + Join(IntStrings(numberList), DefaultSeparator) + DefaultBookends.1)
            == Some(numberList)
  {
    var parts := IntStrings(numberList);
    var inner := Join(parts, DefaultSeparator);
    var s := DefaultBookends.0 + inner + DefaultBookends.1;
    assert s[2..|s| - 2] == inner;
    assert s[..2] == "[ " && s[|s| - 2..] == " ]";
    if numberList != [] {
      NatToStringRoundTrip(if numberList[0] < 0 then -numberList[0] else numberList[0]);
      assert |inner| > 0 by {
        if |parts| > 1 {
          assert inner == parts[0] + DefaultSeparator + Join(parts[1..], DefaultSeparator);
        }
      }
      var padded := [parts[0]] + Padded(parts[1..], " ");
      assert DefaultSeparator == [','] + " ";
      JoinPadded(parts, ',', " ");
      forall i | 0 <= i < |padded| ensures ',' !in padded[i] {
        if i == 0 {
          IntStringChars(numberList[0], ',');
        } else {
          IntStringChars(numberList[i], ',');
          assert padded[i] == " " + parts[i];
        }
      }
      SplitJoin(padded, ',');
      assert padded[1..] == Padded(parts[1..], " ");
      UnpaddedPadded(parts[1..], " ");
      assert [parts[0]] + parts[1..] == parts;
      ParseIntStrings(numberList);
    }
  }

  /** The strftime pieces `generate_timestamp` draws from. */
  const FormatChunks: seq<string> := ["%d%m%Y", "_%H", "%M", "%S"]

  /** The format with the first `g + 1` pieces (none for `g < 0`). */
  function TimestampFormat(g: int): string
    requires g <= 3
  {
    Flatten(FormatChunks[..NonNeg(g + 1)])
  }

  /** `generate_timestamp(g)`: the first `g + 1` format pieces, concatenated;
      a granularity above 3 runs off the end of the piece list. */
  method GenerateTimestamp(timestampGranularity: int) returns (timestampFormat: string)
    requires timestampGranularity <= 3
    ensures timestampFormat == TimestampFormat(timestampGranularity)
  {
    timestampFormat := "";
    var chunkIndex := 0;
    while chunkIndex < timestampGranularity + 1
      invariant 0 <= chunkIndex <= NonNeg(timestampGranularity + 1)
      invariant timestampFormat == Flatten(FormatChunks[..chunkIndex])
    {
      assert FormatChunks[..chunkIndex + 1][..chunkIndex] == FormatChunks[..chunkIndex];
      timestampFormat := timestampFormat + FormatChunks[chunkIndex];
      chunkIndex := chunkIndex + 1;
    }
  }

  /** A finer granularity extends the format of a coarser one, so the four
      granularities give four different formats. */
  lemma TimestampFormatsNest(g: int, h: int)
    requires -1 <= g < h <= 3
    ensures |TimestampFormat(g)| < |TimestampFormat(h)|
    ensures TimestampFormat(h)[..|TimestampFormat(g)|] == TimestampFormat(g)
  {
    var a, mid := FormatChunks[..g + 1], FormatChunks[g + 1..h + 1];
    assert FormatChunks[..h + 1] == a + mid;
    FlattenConcat(a, mid);
    assert mid == mid[..|mid| - 1] + [mid[|mid| - 1]];
    assert |Flatten(mid)| >= |mid[|mid| - 1]| > 0;
  }

  /** The finest granularity gives the full day-month-year, hour, minute,
      second stamp. */
  lemma TimestampFinest()
    ensures TimestampFormat(3) == "%d%m%Y_%H%M%S"
  {
    var c0: seq<string>, c1, c2, c3 := [], ["%d%m%Y"], ["%d%m%Y", "_%H"], ["%d%m%Y", "_%H", "%M"];
    assert FormatChunks[..4] == FormatChunks;
    assert c1[..0] == c0 && c2[..1] == c1 && c3[..2] == c2 && FormatChunks[..3] == c3;
    assert Flatten(c1) == "%d%m%Y";
    assert Flatten(c2) == "%d%m%Y_%H";
    assert Flatten(c3) == "%d%m%Y_%H%M";
  }

  // ---------------------------------------------------------------------
  // Number generation with a division-family filter

  /** A value survives the loop's two `continue`s: it is not an excluded
      prime, and there is no filter or its division family is in it. */
  predicate Passes(value: int, includePrimes: bool, familiesFilter: seq<int>) {
    (includePrimes || !IsPrime(value)) && (familiesFilter == [] || DivisionFamily(value) in familiesFilter)
  }

  /** The values of `lowerbound..upperbound` that survive, ascending. */
  function KeptValues(lowerbound: int, upperbound: int, includePrimes: bool, familiesFilter: seq<int>): seq<int>
    decreases upperbound - lowerbound
  {
    if upperbound < lowerbound then []
    else
      KeptValues(lowerbound, upperbound - 1, includePrimes, familiesFilter) +
      (if Passes(upperbound, includePrimes, familiesFilter) then [upperbound] else [])
  }

  /** The kept values are strictly ascending and are exactly the surviving
      values of the range. */
  lemma {:induction false} KeptValuesCorrect(lowerbound: int, upperbound: int, includePrimes: bool, familiesFilter: seq<int>)
    ensures StrictlyAscending(KeptValues(lowerbound, upperbound, includePrimes, familiesFilter))
    ensures forall v :: v in KeptValues(lowerbound, upperbound, includePrimes, familiesFilter) <==>
              lowerbound <= v <= upperbound && Passes(v, includePrimes, familiesFilter)
    decreases upperbound - lowerbound
  {
    if upperbound >= lowerbound {
      KeptValuesCorrect(lowerbound, upperbound - 1, includePrimes, familiesFilter);
      var prev := KeptValues(lowerbound, upperbound - 1, includePrimes, familiesFilter);
      forall i | 0 <= i < |prev| ensures prev[i] < upperbound {
        assert prev[i] in prev;
      }
    }
  }

  /** The family a generated `Number` ends up with: a prime always takes
      itself, every other value its division family. */
  function StoredFamily(value: int): int {
    if IsPrime(value) then value else DivisionFamily(value)
  }

  /** `list.index`: the first position of an element. */
  function FirstIndex(s: seq<int>, x: int): (k: nat)
    requires x in s
    ensures k < |s| && s[k] == x
    ensures forall j :: 0 <= j < k ==> s[j] != x
  {
    if s[0] == x then 0 else 1 + FirstIndex(s[1..], x)
  }

  predicate AllInFilter(values: seq<int>, familiesFilter: seq<int>) {
    forall i :: 0 <= i < |values| ==> DivisionFamily(values[i]) in familiesFilter
  }

  /** The filter counters after the given values were kept: each value adds
      one at the first filter position holding its family. */
  function FilterCounts(values: seq<int>, familiesFilter: seq<int>): (counts: seq<int>)
    requires AllInFilter(values, familiesFilter)
    ensures |counts| == |familiesFilter|
  {
    if values == [] then seq(|familiesFilter|, _ => 0)
    else
      var counts := FilterCounts(values[..|values| - 1], familiesFilter);
      var k := FirstIndex(familiesFilter, DivisionFamily(values[|values| - 1]));
      counts[k := counts[k] + 1]
  }

  /** How many of the values have the given division family. */
  function CountFamily(values: seq<int>, family: int): nat {
    if values == [] then 0
    else CountFamily(values[..|values| - 1], family) + (if DivisionFamily(values[|values| - 1]) == family then 1 else 0)
  }

  lemma {:induction false} SumOfZeros(n: nat)
    ensures Sum(seq(n, _ => 0)) == 0
  {
    if n > 0 {
      assert seq(n, _ => 0)[..n - 1] == seq(n - 1, _ => 0);
      SumOfZeros(n - 1);
    }
  }

  lemma {:induction false} SumIncrement(s: seq<int>, k: int)
    requires 0 <= k < |s|
    ensures Sum(s[k := s[k] + 1]) == Sum(s) + 1
  {
    var t := s[k := s[k] + 1];
    if k < |s| - 1 {
      assert t[..|t| - 1] == s[..|s| - 1][k := s[k] + 1];
      SumIncrement(s[..|s| - 1], k);
    } else {
      assert t[..|t| - 1] == s[..|s| - 1];
    }
  }

  /** Every kept value is counted exactly once: the counters add up to the
      number of kept values. */
  lemma {:induction false} FilterCountsTotal(values: seq<int>, familiesFilter: seq<int>)
    requires AllInFilter(values, familiesFilter)
    ensures Sum(FilterCounts(values, familiesFilter)) == |values|
  {
    if values == [] {
      SumOfZeros(|familiesFilter|);
    } else {
      var init := values[..|values| - 1];
      FilterCountsTotal(init, familiesFilter);
      var k := FirstIndex(familiesFilter, DivisionFamily(values[|values| - 1]));
      SumIncrement(FilterCounts(init, familiesFilter), k);
    }
  }

  /** With a duplicate-free filter each counter is the number of kept values
      of that family. */
  lemma {:induction false} FilterCountsPerFamily(values: seq<int>, familiesFilter: seq<int>)
    requires AllInFilter(values, familiesFilter) && Distinct(familiesFilter)
    ensures forall i :: 0 <= i < |familiesFilter| ==>
              FilterCounts(values, familiesFilter)[i] == CountFamily(values, familiesFilter[i])
  {
    if values != [] {
      var init := values[..|values| - 1];
      FilterCountsPerFamily(init, familiesFilter);
      var f := DivisionFamily(values[|values| - 1]);
      var k := FirstIndex(familiesFilter, f);
      forall i | 0 <= i < |familiesFilter|
        ensures FilterCounts(values, familiesFilter)[i] == CountFamily(values, familiesFilter[i])
      {
        assert (i == k) == (f == familiesFilter[i]);
      }
    }
  }

  lemma KeptInFilter(lowerbound: int, upperbound: int, includePrimes: bool, familiesFilter: seq<int>)
    requires familiesFilter != []
    ensures AllInFilter(KeptValues(lowerbound, upperbound, includePrimes, familiesFilter), familiesFilter)
  {
    KeptValuesCorrect(lowerbound, upperbound, includePrimes, familiesFilter);
    var kept := KeptValues(lowerbound, upperbound, includePrimes, familiesFilter);
    forall i | 0 <= i < |kept| ensures DivisionFamily(kept[i]) in familiesFilter {
      assert kept[i] in kept;
    }
  }

  /** Keeping one more value bumps the counter at the first filter
      position of its family. */
  lemma CountStep(kept: seq<int>, value: int, familiesFilter: seq<int>)
    requires AllInFilter(kept, familiesFilter) && DivisionFamily(value) in familiesFilter
    ensures AllInFilter(kept + [value], familiesFilter)
    ensures var counts := FilterCounts(kept, familiesFilter);
            var k := FirstIndex(familiesFilter, DivisionFamily(value));
            FilterCounts(kept + [value], familiesFilter) == counts[k := counts[k] + 1]
  {
    assert (kept + [value])[..|kept|] == kept;
  }

  /** The two `continue` tests of the loop: whether the value is kept, and
      the family and flag its `Number` is built with. */
  method Admit(value: int, includePrimes: bool, familiesFilter: seq<int>)
    returns (admitted: bool, divisionFamily: int, calculateDivisionFamily: bool)
    ensures admitted == Passes(value, includePrimes, familiesFilter)
    ensures calculateDivisionFamily == (familiesFilter == [])
    ensures familiesFilter == [] ==> divisionFamily == 1
    ensures familiesFilter != [] && admitted ==> divisionFamily == DivisionFamily(value)
  {
    divisionFamily := 1;
    calculateDivisionFamily := |familiesFilter| == 0;
    if !includePrimes && IsPrime(value) {
      admitted := false;
      return;
    }
    if |familiesFilter| > 0 {
      divisionFamily := GetDivisionFamily(value);
      admitted := divisionFamily in familiesFilter;
    } else {
      admitted := true;
    }
  }

  /** Each number records its value, the family it was stored with, and
      consistent derived fields. */
  ghost predicate Generated(numberList: seq<ToolboxNumber.Number>, values: seq<int>)
    reads numberList
  {
    |numberList| == |values| &&
    forall i :: 0 <= i < |numberList| ==>
      numberList[i].value == values[i] && numberList[i].divisionFamily == StoredFamily(values[i]) &&
      numberList[i].Valid()
  }

  /** `generate_number_list`: one `Number` per surviving value of
      `lowerbound..upperbound`, ascending (`Generated`, with
      `KeptValuesCorrect`), and with a filter the counters the source logs
      (`FilterCountsTotal`, `FilterCountsPerFamily`). A value below 1 that
      reaches the `Number` constructor divides by zero there, so the range
      stays above 0 unless a non-empty filter without family 1 rejects those
      values first (their family is 1). */
  method GenerateNumberList(includePrimes: bool, lowerbound: int, upperbound: int, familiesFilter: seq<int>)
    returns (numberList: seq<ToolboxNumber.Number>, familiesFilterCounter: seq<int>)
    requires lowerbound >= 1 || upperbound < lowerbound || (familiesFilter != [] && 1 !in familiesFilter)
    ensures Generated(numberList, KeptValues(lowerbound, upperbound, includePrimes, familiesFilter))
    ensures familiesFilter == [] ==> familiesFilterCounter == []
    ensures familiesFilter != [] ==>
              AllInFilter(KeptValues(lowerbound, upperbound, includePrimes, familiesFilter), familiesFilter) &&
              familiesFilterCounter == FilterCounts(KeptValues(lowerbound, upperbound, includePrimes, familiesFilter), familiesFilter)
  {
    familiesFilterCounter := [];
    if |familiesFilter| > 0 {
      familiesFilterCounter := seq(|familiesFilter|, _ => 0);
    }
    numberList := [];
    var value := lowerbound;
    ghost var kept: seq<int> := [];
    while value <= upperbound
      invariant lowerbound <= value <= (if upperbound >= lowerbound then upperbound + 1 else lowerbound)
      invariant kept == KeptValues(lowerbound, value - 1, includePrimes, familiesFilter)
      invariant Generated(numberList, kept)
      invariant CountersAgree(familiesFilterCounter, kept, familiesFilter)
    {
      numberList, familiesFilterCounter, kept :=
        GenerateOne(value, includePrimes, familiesFilter, numberList, familiesFilterCounter, kept);
      value := value + 1;
    }
  }

  /** One pass of the loop body: build and append the value's `Number` when
      it survives, and count it under its family. */
  method GenerateOne(value: int, includePrimes: bool, familiesFilter: seq<int>,
                     numberList: seq<ToolboxNumber.Number>, familiesFilterCounter: seq<int>, ghost kept: seq<int>)
    returns (numberList': seq<ToolboxNumber.Number>, familiesFilterCounter': seq<int>, ghost kept': seq<int>)
    requires value >= 1 || (familiesFilter != [] && 1 !in familiesFilter)
    requires Generated(numberList, kept) && CountersAgree(familiesFilterCounter, kept, familiesFilter)
    ensures kept' == kept + (if Passes(value, includePrimes, familiesFilter) then [value] else [])
    ensures Generated(numberList', kept') && CountersAgree(familiesFilterCounter', kept', familiesFilter)
  {
    var admitted, divisionFamily, calculateDivisionFamily := Admit(value, includePrimes, familiesFilter);
    if !admitted {
      assert kept + [] == kept;
      return numberList, familiesFilterCounter, kept;
    }
    var number := NewNumber(value, divisionFamily, calculateDivisionFamily);
    GeneratedAppend(numberList, kept, number, value);
    numberList', kept' := numberList + [number], kept + [value];
    if |familiesFilter| > 0 {
      CountersStep(familiesFilterCounter, kept, value, familiesFilter);
      var filterIndex := FirstIndex(familiesFilter, divisionFamily);
      familiesFilterCounter' := familiesFilterCounter[filterIndex := familiesFilterCounter[filterIndex] + 1];
    } else {
      familiesFilterCounter' := familiesFilterCounter;
    }
  }

  /** The constructor call of the loop, seen through the family it stores. */
  method NewNumber(value: int, divisionFamily: int, calculateDivisionFamily: bool) returns (number: ToolboxNumber.Number)
    requires value >= 1 && (calculateDivisionFamily || divisionFamily == DivisionFamily(value))
    ensures fresh(number) && number.value == value && number.divisionFamily == StoredFamily(value) && number.Valid()
  {
    number := new ToolboxNumber.Number(value, divisionFamily, calculateDivisionFamily);
  }

  lemma GeneratedAppend(numberList: seq<ToolboxNumber.Number>, kept: seq<int>, number: ToolboxNumber.Number, value: int)
    requires Generated(numberList, kept)
    requires number.value == value && number.divisionFamily == StoredFamily(value) && number.Valid()
    ensures Generated(numberList + [number], kept + [value])
  {
  }

  /** Counting one more kept value under its family keeps the counters in
      agreement. */
  lemma CountersStep(familiesFilterCounter: seq<int>, kept: seq<int>, value: int, familiesFilter: seq<int>)
    requires familiesFilter != [] && DivisionFamily(value) in familiesFilter
    requires CountersAgree(familiesFilterCounter, kept, familiesFilter)
    ensures var k := FirstIndex(familiesFilter, DivisionFamily(value));
            CountersAgree(familiesFilterCounter[k := familiesFilterCounter[k] + 1], kept + [value], familiesFilter)
  {
    CountStep(kept, value, familiesFilter);
  }

  /** The counters are those of the kept values under the filter, and
      there are none without a filter. */
  ghost predicate CountersAgree(familiesFilterCounter: seq<int>, kept: seq<int>, familiesFilter: seq<int>) {
    (familiesFilter == [] ==> familiesFilterCounter == []) &&
    (familiesFilter != [] ==> AllInFilter(kept, familiesFilter) && familiesFilterCounter == FilterCounts(kept, familiesFilter))
  }
}
