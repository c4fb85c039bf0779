/** `main.py`, the earlier single-script revision: the same slope buckets,
    lookups and family columns as `processor.py` (modelled there), a binary
    bucketing that sizes its index range with `get_previous_power_of_two`,
    and a number-list generator over `number.py`'s `Number`. */
module MainScript {
  import opened Arith
  import opened Seqs
  import opened Primes
  import opened Strings
  import opened Lab
  import NumberRevision
  import opened Processor

  /** `get_previous_power_of_two(v)`: one less than the least `k` with
      `2^k >= v`, so -1 for `v <= 1`. */
  method GetPreviousPowerOfTwo(value: int) returns (r: int)
    ensures r == CeilLog2(value) - 1
    ensures r >= -1 && value <= Pow2(r + 1) && (r >= 0 ==> Pow2(r) < value)
    ensures value <= 1 <==> r == -1
  {
    var runningProduct := 1;
    var counter: nat := 0;
    while runningProduct < value
      invariant runningProduct == Pow2(counter)
      invariant counter > 0 ==> Pow2(counter - 1) < value
      decreases value - runningProduct
    {
      runningProduct := runningProduct * 2;
      counter := counter + 1;
    }
    CeilLog2Unique(value, counter);
    return counter - 1;
  }

  /** `get_binary_buckets` as `main.py` writes it: indices `0..m` for
      `m = get_previous_power_of_two(n)`, which is `CeilLog2(n)` indices.
      A key that no index holds makes line 318 index the result with
      `None`, a key error; that is `None` here, and it happens exactly when
      some slope key is unassigned. */
  method GetBinaryBuckets(sortedBucketsList: seq<int>, keys: seq<int>, groups: seq<seq<Entry>>)
    returns (r: Option<seq<seq<Entry>>>, ghost indexMap: seq<seq<int>>)
    requires |keys| == |groups|
    ensures |indexMap| == CeilLog2(|sortedBucketsList|)
    ensures forall j :: 0 <= j < |indexMap| ==> indexMap[j] == BucketKeys(sortedBucketsList, |indexMap|, j)
    ensures Flatten(indexMap) == sortedBucketsList[Cut(|sortedBucketsList|, |indexMap|, 0)..]
    ensures r.Some? <==> forall i :: 0 <= i < |keys| ==> InSome(keys[i], indexMap)
    ensures r.Some? ==> |r.value| == |indexMap| && multiset(Flatten(r.value)) == multiset(Flatten(groups))
    ensures r.Some? ==> FromGroups(r.value, keys, groups, indexMap)
  {
    var numberOfUnassignedBuckets := |sortedBucketsList|;
    var numberOfBinaryBuckets := GetPreviousPowerOfTwo(numberOfUnassignedBuckets);
    var map_ := BuildIndexMap(sortedBucketsList, numberOfBinaryBuckets);
    indexMap := map_;
    r := Distribute(keys, groups, map_);
  }

  /** With `CeilLog2(n)` buckets the halving leaves exactly one key
      unassigned when `n` is a power of two, and none otherwise. */
  lemma LeftBelow(n: nat)
    requires n >= 1
    ensures Cut(n, CeilLog2(n), 0) == if IsPowerOfTwo(n) then 1 else 0
  {
    var k := CeilLog2(n);
    CutClosedForm(n, k, 0);
    PowerOfTwoExactly(n);
    if Pow2(k) == n {
      DivModUnique(n, Pow2(k), 1, 0);
    } else {
      DivModUnique(n, Pow2(k), 0, n);
    }
  }

  /** With `CeilLog2(n)` indices the top bucket always gets one key, as the
      docstring of `get_binary_buckets` promises, but the smallest key is
      then left out when `n` is a power of two (`LeftBelow`). */
  lemma TopBucketSize(sorted: seq<int>)
    requires |sorted| >= 2
    ensures CeilLog2(|sorted|) >= 1 && |BucketKeys(sorted, CeilLog2(|sorted|), 0)| == 1
  {
    var n, m := |sorted|, CeilLog2(|sorted|);
    TopBucketCount(sorted, m);
    assert Pow2(m) == 2 * Pow2(m - 1);
    PowerOfTwoExactly(n);
    if n == Pow2(m) {
      DivModUnique(n, Pow2(m - 1), 2, 0);
      DivModUnique(n, Pow2(m), 1, 0);
    } else {
      DivModUnique(n, Pow2(m - 1), 1, n - Pow2(m - 1));
      DivModUnique(n, Pow2(m), 0, n);
    }
  }

  // ---------------------------------------------------------------------
  // The bucketing both docstrings describe

  /** The largest `k` with `2^k <= v` (0 for `v <= 1`): what the name
      `get_previous_power_of_two` describes. */
  function FloorLog2(v: int): (k: nat)
    ensures v >= 1 ==> Pow2(k) <= v < Pow2(k + 1)
    decreases v
  {
    if v <= 1 then 0 else 1 + FloorLog2(v / 2)
  }

  /** With `FloorLog2(n) + 1` indices both documented promises hold: no key
      is left below the lowest bucket, and the top bucket has exactly one
      key. */
  lemma IntendedBuckets(sorted: seq<int>)
    requires |sorted| >= 1
    ensures Cut(|sorted|, FloorLog2(|sorted|) + 1, 0) == 0
    ensures |BucketKeys(sorted, FloorLog2(|sorted|) + 1, 0)| == 1
  {
    var n, k := |sorted|, FloorLog2(|sorted|);
    CutBottom(n, k + 1);
    TopBucketCount(sorted, k + 1);
    CutClosedForm(n, k + 1, 0);
    DivModUnique(n, Pow2(k), 1, n - Pow2(k));
  }

  /** `get_binary_buckets` with `FloorLog2(n)` as the highest index: every
      lookup succeeds, the buckets partition the sorted keys, the top bucket
      holds one key, and no record is lost or duplicated. */
  method GetBinaryBucketsIntended(sortedBucketsList: seq<int>, keys: seq<int>, groups: seq<seq<Entry>>)
    returns (binarySlopeBuckets: seq<seq<Entry>>, ghost indexMap: seq<seq<int>>)
    requires StrictlyAscending(sortedBucketsList)
    requires |keys| == |groups|
    requires forall i :: 0 <= i < |keys| ==> keys[i] in sortedBucketsList
    ensures |indexMap| == FloorLog2(|sortedBucketsList|) + 1 && |binarySlopeBuckets| == |indexMap|
    ensures forall j :: 0 <= j < |indexMap| ==> indexMap[j] == BucketKeys(sortedBucketsList, |indexMap|, j)
    ensures Flatten(indexMap) == sortedBucketsList
    ensures |sortedBucketsList| >= 1 ==> |indexMap[0]| == 1
    ensures multiset(Flatten(binarySlopeBuckets)) == multiset(Flatten(groups))
    ensures FromGroups(binarySlopeBuckets, keys, groups, indexMap)
  {
    var n := |sortedBucketsList|;
    var map_ := BuildIndexMap(sortedBucketsList, FloorLog2(n));
    indexMap := map_;
    var count := FloorLog2(n) + 1;
    if n >= 1 {
      IntendedBuckets(sortedBucketsList);
    } else {
      assert Cut(n, count, 0) == 0;
    }
    assert sortedBucketsList[0..] == sortedBucketsList;
    forall i | 0 <= i < |keys| ensures InSome(keys[i], map_) {
      EveryKeyOneBucket(sortedBucketsList, count, keys[i]);
    }
    var r := Distribute(keys, groups, map_);
    binarySlopeBuckets := r.value;
  }

  /** The colouring step with the intended bucketing: it never fails, every
      included number is in exactly one bucket, keys ascend across buckets,
      and the top bucket holds the numbers of exactly one key. */
  method BinaryBucketsIntended(numberList: seq<Entry>, includePrimes: bool) returns (binaryBuckets: seq<seq<Entry>>)
    ensures |binaryBuckets| == FloorLog2(|Dedup(Keys(Included(numberList, includePrimes)))|) + 1
    ensures multiset(Flatten(binaryBuckets)) == multiset(Included(numberList, includePrimes))
    ensures forall j1, j2, e1, e2 :: 0 <= j1 < j2 < |binaryBuckets| && e1 in binaryBuckets[j1] && e2 in binaryBuckets[j2] ==>
              e1.slopeKey < e2.slopeKey
    ensures Included(numberList, includePrimes) != [] ==>
              binaryBuckets[0] != [] && forall e1, e2 :: e1 in binaryBuckets[0] && e2 in binaryBuckets[0] ==> e1.slopeKey == e2.slopeKey
  {
    var bucketsList, slopeBuckets := Processor.GetSlopeBuckets(numberList, includePrimes);
    var sorted := Sort(bucketsList);
    SortDistinct(bucketsList);
    forall i | 0 <= i < |bucketsList| ensures bucketsList[i] in sorted {
      assert bucketsList[i] in multiset(sorted);
    }
    ghost var indexMap;
    binaryBuckets, indexMap := GetBinaryBucketsIntended(sorted, bucketsList, slopeBuckets);
    KeysOrdered(binaryBuckets, bucketsList, slopeBuckets, indexMap, sorted, Included(numberList, includePrimes));
    if Included(numberList, includePrimes) != [] {
      TopBucketOneKey(binaryBuckets, bucketsList, slopeBuckets, indexMap, sorted, Included(numberList, includePrimes));
    }
  }

  /** A top bucket given one key holds exactly the numbers of that key, and
      there is at least one of them. */
  lemma TopBucketOneKey(binary: seq<seq<Entry>>, keys: seq<int>, groups: seq<seq<Entry>>, indexMap: seq<seq<int>>,
                        sorted: seq<int>, entries: seq<Entry>)
    requires |keys| == |groups| && |binary| == |indexMap| && |indexMap| >= 1 && |indexMap[0]| == 1
    requires StrictlyAscending(sorted)
    requires forall j :: 0 <= j < |indexMap| ==> indexMap[j] == BucketKeys(sorted, |indexMap|, j)
    requires keys == Dedup(Keys(entries)) && multiset(sorted) == multiset(keys)
    requires forall k :: 0 <= k < |keys| ==> groups[k] == Select(entries, keys[k])
    requires FromGroups(binary, keys, groups, indexMap)
    requires multiset(Flatten(binary)) == multiset(entries)
    ensures binary[0] != []
    ensures forall e1, e2 :: e1 in binary[0] && e2 in binary[0] ==> e1.slopeKey == e2.slopeKey
  {
    GroupsKeyed(keys, groups, entries);
    var x := indexMap[0][0];
    assert x in sorted;
    var e := NumberOfKey(binary, keys, sorted, entries, x);
    TopBucketNonEmpty(binary, keys, groups, indexMap, sorted, x, e);
    TopBucketSameKey(binary, keys, groups, indexMap, x);
  }

  /** A sorted key is the key of some number, and that number is in one of
      the binary buckets. */
  lemma NumberOfKey(binary: seq<seq<Entry>>, keys: seq<int>, sorted: seq<int>, entries: seq<Entry>, x: int)
    returns (e: Entry)
    requires keys == Dedup(Keys(entries)) && multiset(sorted) == multiset(keys)
    requires multiset(Flatten(binary)) == multiset(entries)
    requires x in sorted
    ensures e.slopeKey == x && e in Flatten(binary)
  {
    assert x in multiset(keys);
    e := EntryWithKey(entries, x);
    assert e in multiset(Flatten(binary));
  }

  /** Every number of a slope group carries the group's key. */
  lemma GroupsKeyed(keys: seq<int>, groups: seq<seq<Entry>>, entries: seq<Entry>)
    requires |keys| == |groups|
    requires forall k :: 0 <= k < |keys| ==> groups[k] == Select(entries, keys[k])
    ensures forall k :: 0 <= k < |keys| ==> forall e :: e in groups[k] ==> e.slopeKey == keys[k]
  {
  }

  /** A number whose key is the top bucket's key lands in the top bucket. */
  lemma TopBucketNonEmpty(binary: seq<seq<Entry>>, keys: seq<int>, groups: seq<seq<Entry>>, indexMap: seq<seq<int>>,
                          sorted: seq<int>, x: int, e: Entry)
    requires |keys| == |groups| && |binary| == |indexMap| && |indexMap| >= 1
    requires StrictlyAscending(sorted)
    requires forall j :: 0 <= j < |indexMap| ==> indexMap[j] == BucketKeys(sorted, |indexMap|, j)
    requires forall k :: 0 <= k < |keys| ==> forall e :: e in groups[k] ==> e.slopeKey == keys[k]
    requires FromGroups(binary, keys, groups, indexMap)
    requires x in indexMap[0] && e.slopeKey == x && e in Flatten(binary)
    ensures binary[0] != []
  {
    var j := ListHolding(binary, e);
    var k := GroupOf(binary, keys, groups, indexMap, j, e);
    BucketsDisjoint(sorted, |indexMap|, 0, j, x);
  }

  /** Every number in a top bucket with the single key `x` has key `x`. */
  lemma TopBucketSameKey(binary: seq<seq<Entry>>, keys: seq<int>, groups: seq<seq<Entry>>, indexMap: seq<seq<int>>, x: int)
    requires |keys| == |groups| && |binary| == |indexMap| && |indexMap| >= 1 && indexMap[0] == [x]
    requires forall k :: 0 <= k < |keys| ==> forall e :: e in groups[k] ==> e.slopeKey == keys[k]
    requires FromGroups(binary, keys, groups, indexMap)
    ensures forall e1 :: e1 in binary[0] ==> e1.slopeKey == x
  {
    forall e1 | e1 in binary[0] ensures e1.slopeKey == x {
      var k1 := GroupOf(binary, keys, groups, indexMap, 0, e1);
      assert keys[k1] in [x];
    }
  }

  /** A key of the entries is the key of one of them. */
  lemma EntryWithKey(entries: seq<Entry>, x: int) returns (e: Entry)
    requires x in Dedup(Keys(entries))
    ensures e in entries && e.slopeKey == x
  {
    assert x in Keys(entries);
    var i :| 0 <= i < |entries| && Keys(entries)[i] == x;
    e := entries[i];
  }

  /** The slope group an entry of a binary bucket came from: its key is in
      that bucket's keys and is the entry's own key. */
  lemma GroupOf(binary: seq<seq<Entry>>, keys: seq<int>, groups: seq<seq<Entry>>, indexMap: seq<seq<int>>,
                j: nat, e: Entry) returns (k: nat)
    requires |keys| == |groups| && |binary| == |indexMap| && j < |binary| && e in binary[j]
    requires FromGroups(binary, keys, groups, indexMap)
    requires forall k :: 0 <= k < |keys| ==> forall e :: e in groups[k] ==> e.slopeKey == keys[k]
    ensures k < |keys| && keys[k] in indexMap[j] && keys[k] == e.slopeKey
  {
    k :| 0 <= k < |keys| && e in groups[k] && keys[k] in indexMap[j];
  }

  /** An element of a flattened list is in one of its lists. */
  lemma {:induction false} ListHolding<T>(ss: seq<seq<T>>, x: T) returns (j: nat)
    requires x in Flatten(ss)
    ensures j < |ss| && x in ss[j]
  {
    var n := |ss| - 1;
    assert Flatten(ss) == Flatten(ss[..n]) + ss[n];
    if x in ss[n] {
      j := n;
    } else {
      j := ListHolding(ss[..n], x);
      assert ss[..n][j] == ss[j];
    }
  }

  /** The smallest key is then in no bucket. */
  lemma SmallestUnassigned(sorted: seq<int>, count: nat)
    requires StrictlyAscending(sorted) && |sorted| > 0 && Cut(|sorted|, count, 0) >= 1
    ensures forall j :: 0 <= j < count ==> sorted[0] !in BucketKeys(sorted, count, j)
  {
    forall j | 0 <= j < count ensures sorted[0] !in BucketKeys(sorted, count, j) {
      CutMonotone(|sorted|, count, 0, j);
    }
  }

  /** The colouring step of `main.py`'s `create_visualization`, over
      entries that carry a slope key (the `number.Number` that `main.py`
      imports names its field `antislope`, not `anti_slope`, so the code as
      written stops earlier, at the attribute read). It fails exactly when the number of distinct slope keys is a power of two
      (1, 2, 4, ...), because the smallest key is then in no bucket. When it
      succeeds, every included number is in exactly one bucket and lower
      buckets hold smaller keys, as in `processor.py`. */
  method BinaryBucketsOf(numberList: seq<Entry>, includePrimes: bool) returns (r: Option<seq<seq<Entry>>>)
    ensures var n := |Dedup(Keys(Included(numberList, includePrimes)))|;
            r.None? <==> n >= 1 && IsPowerOfTwo(n)
    ensures r.Some? ==> multiset(Flatten(r.value)) == multiset(Included(numberList, includePrimes))
    ensures r.Some? ==> forall j1, j2, e1, e2 :: 0 <= j1 < j2 < |r.value| && e1 in r.value[j1] && e2 in r.value[j2] ==>
                          e1.slopeKey < e2.slopeKey
  {
    var bucketsList, slopeBuckets := Processor.GetSlopeBuckets(numberList, includePrimes);
    var sorted := Sort(bucketsList);
    SortDistinct(bucketsList);
    ghost var indexMap;
    r, indexMap := GetBinaryBuckets(sorted, bucketsList, slopeBuckets);
    var n := |sorted|;
    Membership(bucketsList, sorted, slopeBuckets, indexMap);
    if r.Some? {
      KeysOrdered(r.value, bucketsList, slopeBuckets, indexMap, sorted, Included(numberList, includePrimes));
    }
  }

  /** Which keys are assigned, by the count of keys. */
  lemma Membership(bucketsList: seq<int>, sorted: seq<int>, groups: seq<seq<Entry>>, indexMap: seq<seq<int>>)
    requires StrictlyAscending(sorted) && multiset(sorted) == multiset(bucketsList) && |sorted| == |bucketsList|
    requires |indexMap| == CeilLog2(|sorted|)
    requires forall j :: 0 <= j < |indexMap| ==> indexMap[j] == BucketKeys(sorted, |indexMap|, j)
    ensures (forall i :: 0 <= i < |bucketsList| ==> InSome(bucketsList[i], indexMap)) <==>
            !(|sorted| >= 1 && IsPowerOfTwo(|sorted|))
  {
    var n := |sorted|;
    var count := |indexMap|;
    if n >= 1 {
      LeftBelow(n);
      if IsPowerOfTwo(n) {
        SmallestUnassigned(sorted, count);
        assert sorted[0] in multiset(bucketsList);
        var i :| 0 <= i < |bucketsList| && bucketsList[i] == sorted[0];
        assert !InSome(bucketsList[i], indexMap);
      } else {
        forall i | 0 <= i < |bucketsList| ensures InSome(bucketsList[i], indexMap) {
          assert bucketsList[i] in multiset(sorted);
          EveryKeyOneBucket(sorted, count, bucketsList[i]);
        }
      }
    }
  }

  /** Each `Number` of the list stands for the value at its position, with
      consistent fields, the value's factorisation and the default family. */
  ghost predicate MadeFrom(numberList: seq<NumberRevision.Number>, values: seq<int>)
    reads numberList
  {
    |numberList| == |values| &&
    forall i :: 0 <= i < |numberList| ==>
      numberList[i].value == values[i] && numberList[i].Valid() &&
      numberList[i].primeFactors == Factorization(values[i]) && numberList[i].divisionFamily == 1
  }

  /** `generate_number_list`: one `Number` (with the default family 1) per
      value of `lowerbound..upperbound`, ascending, skipping primes unless
      they are included (`RangeKept`). A value below 1 makes `Number` divide
      by zero. */
  method GenerateNumberList(includePrimes: bool, lowerbound: int, upperbound: int)
    returns (numberList: seq<NumberRevision.Number>)
    requires lowerbound >= 1 || upperbound < lowerbound
    ensures MadeFrom(numberList, RangeKept(lowerbound, upperbound, includePrimes))
  {
    numberList := [];
    var value := lowerbound;
    ghost var kept: seq<int> := [];
    while value <= upperbound
      invariant lowerbound <= value <= (if upperbound >= lowerbound then upperbound + 1 else lowerbound)
      invariant kept == RangeKept(lowerbound, value - 1, includePrimes)
      invariant MadeFrom(numberList, kept)
    {
      RangeKeptStep(lowerbound, value, includePrimes);
      numberList, kept := AppendNumber(value, includePrimes, numberList, kept);
      value := value + 1;
    }
    assert kept == RangeKept(lowerbound, upperbound, includePrimes) by {
      if upperbound >= lowerbound {
        assert value - 1 == upperbound;
      }
    }
  }

  /** The loop body: a `Number` for the value unless it is an excluded prime. */
  method AppendNumber(value: int, includePrimes: bool, numberList: seq<NumberRevision.Number>, ghost kept: seq<int>)
    returns (numberList': seq<NumberRevision.Number>, ghost kept': seq<int>)
    requires value >= 1 && MadeFrom(numberList, kept)
    ensures kept' == kept + (if includePrimes || !IsPrime(value) then [value] else [])
    ensures MadeFrom(numberList', kept')
  {
    if IsPrime(value) && !includePrimes {
      return numberList, kept;
    }
    var number := new NumberRevision.Number(value);
    numberList', kept' := numberList + [number], kept + [value];
  }
}
