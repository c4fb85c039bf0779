/** `processor.py`: grouping numbers by the integer their antislope rounds
    to, and the "binary bucket" colouring, where each bucket index from the
    highest down takes the upper half of the keys not yet assigned. */
module Processor {
  import opened Arith
  import opened Seqs
  import opened Primes
  import opened Strings
  import opened Lab
  import opened ToolboxUtils

  /** What the bucketing reads of a `Number`: its value, whether it is
      prime, and the integer its antislope rounds to. */
  datatype Entry = Entry(value: int, isPrime: bool, slopeKey: int)

  // ---------------------------------------------------------------------
  // Slope buckets

  /** The numbers the bucketing looks at, in order: primes are skipped
      unless they are included. */
  function Included(numberList: seq<Entry>, includePrimes: bool): seq<Entry> {
    if numberList == [] then []
    else
      var init, e := numberList[..|numberList| - 1], numberList[|numberList| - 1];
      Included(init, includePrimes) + (if includePrimes || !e.isPrime then [e] else [])
  }

  /** Exactly the numbers of the list that are not excluded primes. */
  lemma {:induction false} IncludedMembers(numberList: seq<Entry>, includePrimes: bool)
    ensures forall e :: e in Included(numberList, includePrimes) <==> e in numberList && (includePrimes || !e.isPrime)
    decreases |numberList|
  {
    if numberList != [] {
      var init, e := numberList[..|numberList| - 1], numberList[|numberList| - 1];
      IncludedMembers(init, includePrimes);
      assert numberList == init + [e];
    }
  }

  /** The slope keys of the entries, in order. */
  function Keys(entries: seq<Entry>): (r: seq<int>)
    ensures |r| == |entries|
    ensures forall i :: 0 <= i < |entries| ==> r[i] == entries[i].slopeKey
  {
    if entries == [] then [] else Keys(entries[..|entries| - 1]) + [entries[|entries| - 1].slopeKey]
  }

  /** The distinct elements in order of first appearance. */
  function Dedup(s: seq<int>): (r: seq<int>)
    ensures Distinct(r)
    ensures forall x :: x in r <==> x in s
  {
    if s == [] then []
    else
      var init, x := s[..|s| - 1], s[|s| - 1];
      assert s == init + [x];
      Dedup(init) + (if x in init then [] else [x])
  }

  /** The entries with the given key, in order. */
  function Select(entries: seq<Entry>, key: int): (r: seq<Entry>)
    ensures forall e :: e in r <==> e in entries && e.slopeKey == key
  {
    if entries == [] then []
    else
      var init, e := entries[..|entries| - 1], entries[|entries| - 1];
      assert entries == init + [e];
      Select(init, key) + (if e.slopeKey == key then [e] else [])
  }

  /** `bucketsList` and the dictionary `slopeBuckets` (its values, in key
      order) after the given entries were grouped. */
  ghost predicate GroupedBy(entries: seq<Entry>, bucketsList: seq<int>, slopeBuckets: seq<seq<Entry>>) {
    bucketsList == Dedup(Keys(entries)) &&
    |slopeBuckets| == |bucketsList| &&
    (forall k :: 0 <= k < |bucketsList| ==> slopeBuckets[k] == Select(entries, bucketsList[k])) &&
    multiset(Flatten(slopeBuckets)) == multiset(entries)
  }

  /** The position of an element of a duplicate-free list. */
  function IndexOf(s: seq<int>, x: int): (k: nat)
    requires x in s
    ensures k < |s| && s[k] == x
  {
    if s[|s| - 1] == x then |s| - 1 else IndexOf(s[..|s| - 1], x)
  }

  lemma IncludedStep(s: seq<Entry>, i: int, includePrimes: bool)
    requires 0 <= i < |s|
    ensures Included(s[..i + 1], includePrimes) ==
            Included(s[..i], includePrimes) + (if includePrimes || !s[i].isPrime then [s[i]] else [])
  {
    assert s[..i + 1][..i] == s[..i];
  }

  lemma SelectStep(entries: seq<Entry>, e: Entry, key: int)
    ensures Select(entries + [e], key) == Select(entries, key) + (if e.slopeKey == key then [e] else [])
  {
    assert (entries + [e])[..|entries|] == entries;
  }

  lemma KeysStep(entries: seq<Entry>, e: Entry)
    ensures Keys(entries + [e]) == Keys(entries) + [e.slopeKey]
  {
    assert (entries + [e])[..|entries|] == entries;
  }

  lemma DedupStep(s: seq<int>, x: int)
    ensures Dedup(s + [x]) == Dedup(s) + (if x in s then [] else [x])
  {
    assert (s + [x])[..|s|] == s;
  }

  /** No entry has a key that is not among the entries' keys. */
  lemma NewKeyHasNoEntries(entries: seq<Entry>, key: int)
    requires key !in Keys(entries)
    ensures Select(entries, key) == []
  {
    assert forall i :: 0 <= i < |entries| ==> entries[i].slopeKey != key by {
      forall i | 0 <= i < |entries| ensures entries[i].slopeKey != key {
        assert Keys(entries)[i] == entries[i].slopeKey;
      }
    }
  }

  /** Appending an entry to one group adds it to the flattened groups. */
  lemma GroupStepMultiset(entries: seq<Entry>, e: Entry, before: seq<seq<Entry>>, sb: seq<seq<Entry>>, p: int)
    requires multiset(Flatten(before)) == multiset(entries)
    requires sb == before || sb == before + [[]]
    requires 0 <= p < |sb|
    ensures multiset(Flatten(sb[p := sb[p] + [e]])) == multiset(entries + [e])
  {
    if sb != before {
      var newGroup: seq<seq<Entry>> := [[]];
      FlattenConcat(before, newGroup);
      assert Flatten(newGroup) == [] by {
        assert newGroup[..0] == [];
      }
    }
    FlattenExtendOne(sb, p, [e]);
  }

  /** Appending an entry to the group of its key keeps each group the
      selection of its key. */
  lemma GroupStepSelect(entries: seq<Entry>, e: Entry, bl: seq<int>, sb: seq<seq<Entry>>, p: int)
    requires |sb| == |bl| && 0 <= p < |bl| && bl[p] == e.slopeKey && Distinct(bl)
    requires forall k :: 0 <= k < |bl| ==> sb[k] == Select(entries, bl[k])
    ensures forall k :: 0 <= k < |bl| ==> sb[p := sb[p] + [e]][k] == Select(entries + [e], bl[k])
  {
    forall k | 0 <= k < |bl| ensures sb[p := sb[p] + [e]][k] == Select(entries + [e], bl[k]) {
      SelectStep(entries, e, bl[k]);
    }
  }

  /** The keys after one more entry. */
  lemma GroupStepKeys(entries: seq<Entry>, e: Entry, bucketsList: seq<int>, bl: seq<int>)
    requires bucketsList == Dedup(Keys(entries))
    requires bl == if e.slopeKey in bucketsList then bucketsList else bucketsList + [e.slopeKey]
    ensures bl == Dedup(Keys(entries + [e])) && e.slopeKey in bl
  {
    KeysStep(entries, e);
    DedupStep(Keys(entries), e.slopeKey);
  }

  /** Opening an empty group for a new key keeps each group the selection of
      its key. */
  lemma GroupStepOpen(entries: seq<Entry>, key: int, bucketsList: seq<int>, slopeBuckets: seq<seq<Entry>>,
                      bl: seq<int>, sb: seq<seq<Entry>>)
    requires bucketsList == Dedup(Keys(entries)) && |slopeBuckets| == |bucketsList|
    requires forall k :: 0 <= k < |bucketsList| ==> slopeBuckets[k] == Select(entries, bucketsList[k])
    requires bl == if key in bucketsList then bucketsList else bucketsList + [key]
    requires sb == if key in bucketsList then slopeBuckets else slopeBuckets + [[]]
    ensures |sb| == |bl|
    ensures forall k :: 0 <= k < |bl| ==> sb[k] == Select(entries, bl[k])
  {
    if key !in bucketsList {
      NewKeyHasNoEntries(entries, key);
      forall k | 0 <= k < |bl| ensures sb[k] == Select(entries, bl[k]) {
        if k < |bucketsList| {
          assert sb[k] == slopeBuckets[k] && bl[k] == bucketsList[k];
        }
      }
    }
  }

  /** One more entry: a new key opens an empty group at the end, and the
      entry is appended to the group of its key. */
  lemma GroupStep(entries: seq<Entry>, e: Entry, bucketsList: seq<int>, slopeBuckets: seq<seq<Entry>>,
                  bl: seq<int>, sb: seq<seq<Entry>>, p: int)
    requires GroupedBy(entries, bucketsList, slopeBuckets)
    requires bl == if e.slopeKey in bucketsList then bucketsList else bucketsList + [e.slopeKey]
    requires sb == if e.slopeKey in bucketsList then slopeBuckets else slopeBuckets + [[]]
    requires 0 <= p < |bl| && bl[p] == e.slopeKey
    ensures GroupedBy(entries + [e], bl, sb[p := sb[p] + [e]])
  {
    GroupStepKeys(entries, e, bucketsList, bl);
    GroupStepOpen(entries, e.slopeKey, bucketsList, slopeBuckets, bl, sb);
    GroupStepSelect(entries, e, bl, sb, p);
    GroupStepMultiset(entries, e, slopeBuckets, sb, p);
    GroupedByIntro(entries + [e], bl, sb[p := sb[p] + [e]]);
  }

  lemma GroupedByIntro(entries: seq<Entry>, bucketsList: seq<int>, slopeBuckets: seq<seq<Entry>>)
    requires bucketsList == Dedup(Keys(entries)) && |slopeBuckets| == |bucketsList|
    requires forall k :: 0 <= k < |bucketsList| ==> slopeBuckets[k] == Select(entries, bucketsList[k])
    requires multiset(Flatten(slopeBuckets)) == multiset(entries)
    ensures GroupedBy(entries, bucketsList, slopeBuckets)
  {
  }

  /** The body of the loop of `get_slope_buckets` for an included number. */
  method AddToGroup(ghost entries: seq<Entry>, number: Entry, bucketsList: seq<int>, slopeBuckets: seq<seq<Entry>>)
    returns (bl: seq<int>, sb: seq<seq<Entry>>)
    requires GroupedBy(entries, bucketsList, slopeBuckets)
    ensures GroupedBy(entries + [number], bl, sb)
  {
    bl, sb := bucketsList, slopeBuckets;
    var slopeInt := number.slopeKey;
    if slopeInt !in bl {
      bl := bl + [slopeInt];
      sb := sb + [[]];
    }
    var p := IndexOf(bl, slopeInt);
    GroupStep(entries, number, bucketsList, slopeBuckets, bl, sb, p);
    sb := sb[p := sb[p] + [number]];
  }

  /** `get_slope_buckets`: the distinct keys in order of first appearance,
      and for each the included numbers with that key, in input order;
      every included number lands in exactly one group. */
  method GetSlopeBuckets(numberList: seq<Entry>, includePrimes: bool)
    returns (bucketsList: seq<int>, slopeBuckets: seq<seq<Entry>>)
    ensures GroupedBy(Included(numberList, includePrimes), bucketsList, slopeBuckets)
    ensures bucketsList == Dedup(Keys(Included(numberList, includePrimes)))
    ensures forall k :: 0 <= k < |bucketsList| ==>
              slopeBuckets[k] == Select(Included(numberList, includePrimes), bucketsList[k])
    ensures multiset(Flatten(slopeBuckets)) == multiset(Included(numberList, includePrimes))
  {
    bucketsList := [];
    slopeBuckets := [];
    ghost var included: seq<Entry> := [];
    for i := 0 to |numberList|
      invariant included == Included(numberList[..i], includePrimes)
      invariant GroupedBy(included, bucketsList, slopeBuckets)
    {
      included, bucketsList, slopeBuckets := GroupNext(numberList, i, includePrimes, included, bucketsList, slopeBuckets);
    }
    assert numberList[..|numberList|] == numberList;
  }

  /** One round of the loop of `get_slope_buckets`: an excluded prime is
      skipped, any other number is grouped by its key. */
  method GroupNext(numberList: seq<Entry>, i: int, includePrimes: bool, ghost included: seq<Entry>,
                   bucketsList: seq<int>, slopeBuckets: seq<seq<Entry>>)
    returns (ghost included': seq<Entry>, bl: seq<int>, sb: seq<seq<Entry>>)
    requires 0 <= i < |numberList| && included == Included(numberList[..i], includePrimes)
    requires GroupedBy(included, bucketsList, slopeBuckets)
    ensures included' == Included(numberList[..i + 1], includePrimes)
    ensures GroupedBy(included', bl, sb)
  {
    var number := numberList[i];
    IncludedStep(numberList, i, includePrimes);
    if number.isPrime && !includePrimes {
      assert included + [] == included;
      return included, bucketsList, slopeBuckets;
    }
    bl, sb := AddToGroup(included, number, bucketsList, slopeBuckets);
    included' := included + [number];
  }

  // ---------------------------------------------------------------------
  // Powers of two

  function Pow2(k: nat): (r: nat)
    ensures r >= 1
  {
    if k == 0 then 1 else 2 * Pow2(k - 1)
  }

  lemma {:induction false} Pow2Monotone(j: nat, k: nat)
    requires j < k
    ensures Pow2(j) < Pow2(k)
    decreases k
  {
    if j < k - 1 {
      Pow2Monotone(j, k - 1);
    }
  }

  /** The least `k` with `2^k >= v`. */
  function CeilLog2(v: int): (k: nat)
    ensures v <= Pow2(k)
    ensures k > 0 ==> Pow2(k - 1) < v
    decreases v
  {
    if v <= 1 then 0 else 1 + CeilLog2((v + 1) / 2)
  }

  /** Only `CeilLog2(v)` has both properties. */
  lemma CeilLog2Unique(v: int, k: nat)
    requires v <= Pow2(k) && (k > 0 ==> Pow2(k - 1) < v)
    ensures k == CeilLog2(v)
  {
    var c := CeilLog2(v);
    if k < c {
      if k < c - 1 {
        Pow2Monotone(k, c - 1);
      }
      assert false;
    } else if c < k {
      if c < k - 1 {
        Pow2Monotone(c, k - 1);
      }
      assert false;
    }
  }

  ghost predicate IsPowerOfTwo(n: int) {
    exists k: nat :: Pow2(k) == n
  }

  lemma PowerOfTwoExactly(n: int)
    ensures IsPowerOfTwo(n) <==> n >= 1 && Pow2(CeilLog2(n)) == n
  {
    if IsPowerOfTwo(n) {
      var k: nat :| Pow2(k) == n;
      if k > 0 {
        Pow2Monotone(k - 1, k);
      }
      CeilLog2Unique(n, k);
    }
  }

  /** `get_next_power_of_two(v)`: the least `k >= 0` with `2^k >= v`, so 0
      for `v <= 1`. */
  method GetNextPowerOfTwo(value: int) returns (counter: nat)
    ensures value <= Pow2(counter)
    ensures counter > 0 ==> Pow2(counter - 1) < value
    ensures counter == CeilLog2(value)
  {
    var runningProduct := 1;
    counter := 0;
    while runningProduct < value
      invariant runningProduct == Pow2(counter)
      invariant counter > 0 ==> Pow2(counter - 1) < value
      decreases value - runningProduct
    {
      runningProduct := runningProduct * 2;
      counter := counter + 1;
    }
    CeilLog2Unique(value, counter);
  }

  // ---------------------------------------------------------------------
  // The bucket index map

  /** Where bucket `j` of `count` starts in a sorted list of `n` keys: the
      highest bucket ends at `n`, and each bucket ends where the next one up
      starts, at half of that start, rounded down. */
  function Cut(n: nat, count: nat, j: nat): (c: nat)
    requires j <= count
    ensures c <= n
    decreases count - j
  {
    if j == count then n else Cut(n, count, j + 1) / 2
  }

  lemma {:induction false} CutMonotone(n: nat, count: nat, j: nat, k: nat)
    requires j <= k <= count
    ensures Cut(n, count, j) <= Cut(n, count, k)
    decreases k - j
  {
    if j < k {
      CutMonotone(n, count, j + 1, k);
    }
  }

  /** `Cut` in closed form: `n` divided by `2` once per bucket above. */
  lemma {:induction false} CutClosedForm(n: nat, count: nat, j: nat)
    requires j <= count
    ensures Cut(n, count, j) == n / Pow2(count - j)
    decreases count - j
  {
    if j < count {
      CutClosedForm(n, count, j + 1);
      DivDiv(n, Pow2(count - j - 1), 2);
      assert Pow2(count - j) == Pow2(count - j - 1) * 2;
    }
  }

  /** The keys bucket `j` of `count` receives. */
  function BucketKeys(sorted: seq<int>, count: nat, j: nat): seq<int>
    requires j < count
  {
    sorted[Cut(|sorted|, count, j)..Cut(|sorted|, count, j + 1)]
  }

  /** Buckets `lo` to `count - 1` hold their keys, which run from
      `Cut(lo)` to the end. */
  ghost predicate AssignedFrom(s: seq<int>, count: nat, lo: nat, indexMap: seq<seq<int>>) {
    lo <= count && |indexMap| == count &&
    (forall j :: lo <= j < count ==> indexMap[j] == BucketKeys(s, count, j)) &&
    Flatten(indexMap[lo..]) == s[Cut(|s|, count, lo)..]
  }

  lemma AssignNext(s: seq<int>, count: nat, lo: nat, indexMap: seq<seq<int>>)
    requires 0 < lo && AssignedFrom(s, count, lo, indexMap)
    ensures AssignedFrom(s, count, lo - 1, indexMap[lo - 1 := BucketKeys(s, count, lo - 1)])
  {
    var b := lo - 1;
    var keys := BucketKeys(s, count, b);
    var im := indexMap[b := keys];
    var n := |s|;
    assert Flatten(im[b..]) == keys + Flatten(indexMap[lo..]) by {
      assert im[lo..] == indexMap[lo..];
      assert im[b..] == [keys] + im[lo..];
      FlattenCons(keys, im[lo..]);
    }
    assert keys + s[Cut(n, count, lo)..] == s[Cut(n, count, b)..];
  }

  /** The first loop of `get_binary_buckets`, for `m + 1` indices: index
      `m - counter` receives the upper half (rounded up) of the keys still
      unassigned, which then shrink to the lower half. Bucket `j` holds a
      contiguous run of the keys, the runs are in index order, the highest
      bucket holds `ceil(n/2)` keys, and what is never assigned is the
      first `n / 2^(m+1)` keys. */
  method BuildIndexMap(sortedBucketsList: seq<int>, numberOfBinaryBuckets: int) returns (indexMap: seq<seq<int>>)
    ensures |indexMap| == NonNeg(numberOfBinaryBuckets + 1)
    ensures forall j :: 0 <= j < |indexMap| ==> indexMap[j] == BucketKeys(sortedBucketsList, |indexMap|, j)
    ensures Flatten(indexMap) == sortedBucketsList[Cut(|sortedBucketsList|, |indexMap|, 0)..]
    ensures |indexMap| > 0 ==> |indexMap[|indexMap| - 1]| == |sortedBucketsList| - |sortedBucketsList| / 2
  {
    var count := NonNeg(numberOfBinaryBuckets + 1);
    var s := sortedBucketsList;
    var n := |s|;
    indexMap := seq(count, _ => []);
    var rest := s;
    var counter := 0;
    while counter < count
      invariant 0 <= counter <= count
      invariant rest == s[..Cut(n, count, count - counter)]
      invariant AssignedFrom(s, count, count - counter, indexMap)
    {
      var binaryBucketIndex := count - 1 - counter;
      var cutoff := |rest| / 2;
      BuildStep(s, count, binaryBucketIndex, rest, indexMap);
      indexMap := indexMap[binaryBucketIndex := rest[cutoff..]];
      rest := rest[..cutoff];
      counter := counter + 1;
    }
    assert indexMap[0..] == indexMap;
  }

  /** One round of the first loop of `get_binary_buckets`: the upper half
      of the unassigned keys is the next bucket's run. */
  lemma BuildStep(s: seq<int>, count: nat, b: nat, rest: seq<int>, indexMap: seq<seq<int>>)
    requires b < count && rest == s[..Cut(|s|, count, b + 1)] && AssignedFrom(s, count, b + 1, indexMap)
    ensures |rest| / 2 == Cut(|s|, count, b) && rest[..|rest| / 2] == s[..Cut(|s|, count, b)]
    ensures AssignedFrom(s, count, b, indexMap[b := rest[|rest| / 2..]])
  {
    var cutoff := |rest| / 2;
    assert cutoff == Cut(|s|, count, b);
    assert rest[cutoff..] == BucketKeys(s, count, b);
    AssignNext(s, count, b + 1, indexMap);
  }

  /** Keys of a lower bucket are no larger than keys of a higher one, and
      smaller when the keys are duplicate-free. */
  lemma BucketsOrdered(sorted: seq<int>, count: nat, j1: nat, j2: nat, x: int, y: int)
    requires Sorted(sorted) && j1 < j2 < count
    requires x in BucketKeys(sorted, count, j1) && y in BucketKeys(sorted, count, j2)
    ensures x <= y
    ensures StrictlyAscending(sorted) ==> x < y
  {
    var n := |sorted|;
    CutMonotone(n, count, j1 + 1, j2);
    var a := Cut(n, count, j1);
    var c := Cut(n, count, j2);
    var i :| 0 <= i < |BucketKeys(sorted, count, j1)| && BucketKeys(sorted, count, j1)[i] == x;
    var k :| 0 <= k < |BucketKeys(sorted, count, j2)| && BucketKeys(sorted, count, j2)[k] == y;
    assert sorted[a + i] == x && sorted[c + k] == y;
  }

  /** With duplicate-free keys each key is in at most one bucket. */
  lemma BucketsDisjoint(sorted: seq<int>, count: nat, j1: nat, j2: nat, x: int)
    requires StrictlyAscending(sorted) && j1 < count && j2 < count
    requires x in BucketKeys(sorted, count, j1) && x in BucketKeys(sorted, count, j2)
    ensures j1 == j2
  {
    if j1 < j2 {
      BucketsOrdered(sorted, count, j1, j2, x, x);
    } else if j2 < j1 {
      BucketsOrdered(sorted, count, j2, j1, x, x);
    }
  }

  /** The position `i` of a key at or above `Cut(lo)` falls in one bucket
      from `lo` up. */
  lemma {:induction false} FindBucket(n: nat, count: nat, lo: nat, i: int)
    requires lo <= count && Cut(n, count, lo) <= i < n
    ensures exists j :: lo <= j < count && Cut(n, count, j) <= i < Cut(n, count, j + 1)
    decreases count - lo
  {
    if i >= Cut(n, count, lo + 1) {
      FindBucket(n, count, lo + 1, i);
    }
  }

  /** When no key is left below the lowest bucket, every key of a
      duplicate-free sorted list is in exactly one bucket. */
  lemma EveryKeyOneBucket(sorted: seq<int>, count: nat, x: int)
    requires StrictlyAscending(sorted) && Cut(|sorted|, count, 0) == 0 && x in sorted
    ensures exists j :: 0 <= j < count && x in BucketKeys(sorted, count, j)
    ensures forall j1, j2 ::
              0 <= j1 < count && 0 <= j2 < count && x in BucketKeys(sorted, count, j1) && x in BucketKeys(sorted, count, j2) ==>
              j1 == j2
  {
    var j := KeyBucket(sorted, count, x);
    forall j1, j2 | 0 <= j1 < count && 0 <= j2 < count &&
                    x in BucketKeys(sorted, count, j1) && x in BucketKeys(sorted, count, j2)
      ensures j1 == j2
    {
      BucketsDisjoint(sorted, count, j1, j2, x);
    }
  }

  /** A bucket that holds a key, when no key is left below the lowest one. */
  lemma KeyBucket(sorted: seq<int>, count: nat, x: int) returns (j: nat)
    requires Cut(|sorted|, count, 0) == 0 && x in sorted
    ensures j < count && x in BucketKeys(sorted, count, j)
  {
    var n := |sorted|;
    var i :| 0 <= i < n && sorted[i] == x;
    FindBucket(n, count, 0, i);
    j :| 0 <= j < count && Cut(n, count, j) <= i < Cut(n, count, j + 1);
    var a := Cut(n, count, j);
    assert BucketKeys(sorted, count, j) == sorted[a..Cut(n, count, j + 1)];
    assert sorted[a..Cut(n, count, j + 1)][i - a] == x;
  }

  /** `get_binary_bucket_index`: the first index in dictionary order (the
      highest first) whose key list holds `slope`; `None` when no list does. */
  method GetBinaryBucketIndex(slope: int, binaryBucketIndexMap: seq<seq<int>>) returns (r: Option<nat>)
    ensures r.Some? ==> r.value < |binaryBucketIndexMap| && slope in binaryBucketIndexMap[r.value] &&
                        forall j :: r.value < j < |binaryBucketIndexMap| ==> slope !in binaryBucketIndexMap[j]
    ensures r.None? <==> forall j :: 0 <= j < |binaryBucketIndexMap| ==> slope !in binaryBucketIndexMap[j]
  {
    var bucketIndex := |binaryBucketIndexMap|;
    while bucketIndex > 0
      invariant 0 <= bucketIndex <= |binaryBucketIndexMap|
      invariant forall j :: bucketIndex <= j < |binaryBucketIndexMap| ==> slope !in binaryBucketIndexMap[j]
    {
      bucketIndex := bucketIndex - 1;
      if slope in binaryBucketIndexMap[bucketIndex] {
        return Some(bucketIndex);
      }
    }
    return None;
  }

  /** Some bucket of the index map holds the key. */
  predicate InSome(key: int, indexMap: seq<seq<int>>) {
    exists j :: 0 <= j < |indexMap| && key in indexMap[j]
  }

  /** Every entry of a binary bucket came from a slope group whose key the
      index map puts in that bucket. */
  ghost predicate FromGroups(binary: seq<seq<Entry>>, keys: seq<int>, groups: seq<seq<Entry>>,
                             indexMap: seq<seq<int>>)
    requires |keys| == |groups| && |binary| == |indexMap|
  {
    forall j, e :: 0 <= j < |binary| && e in binary[j] ==>
      exists i :: 0 <= i < |keys| && e in groups[i] && keys[i] in indexMap[j]
  }

  /** The state of the second loop of `get_binary_buckets` after the
      first `i` slope groups. */
  ghost predicate DistributedUpTo(binary: seq<seq<Entry>>, keys: seq<int>, groups: seq<seq<Entry>>,
                                  indexMap: seq<seq<int>>, i: int)
    requires |keys| == |groups|
  {
    0 <= i <= |keys| && |binary| == |indexMap| &&
    (forall k :: 0 <= k < i ==> InSome(keys[k], indexMap)) &&
    multiset(Flatten(binary)) == multiset(Flatten(groups[..i])) &&
    forall j, e :: 0 <= j < |binary| && e in binary[j] ==>
      exists k :: 0 <= k < i && e in groups[k] && keys[k] in indexMap[j]
  }

  lemma DistributeStep(binary: seq<seq<Entry>>, keys: seq<int>, groups: seq<seq<Entry>>,
                       indexMap: seq<seq<int>>, i: int, b: int)
    requires |keys| == |groups| && DistributedUpTo(binary, keys, groups, indexMap, i) && i < |keys|
    requires 0 <= b < |indexMap| && keys[i] in indexMap[b]
    ensures DistributedUpTo(binary[b := binary[b] + groups[i]], keys, groups, indexMap, i + 1)
  {
    var nb := binary[b := binary[b] + groups[i]];
    FlattenExtendOne(binary, b, groups[i]);
    assert groups[..i + 1] == groups[..i] + [groups[i]];
    FlattenConcat(groups[..i], [groups[i]]);
    assert Flatten([groups[i]]) == groups[i] by {
      assert [groups[i]][..0] == [];
    }
    forall j, e | 0 <= j < |nb| && e in nb[j]
      ensures exists k :: 0 <= k < i + 1 && e in groups[k] && keys[k] in indexMap[j]
    {
      if j == b && e !in binary[b] {
        assert e in groups[i];
      } else {
        assert e in binary[j];
      }
    }
  }

  lemma Unassigned(keys: seq<int>, indexMap: seq<seq<int>>, i: int)
    requires 0 <= i < |keys| && forall j :: 0 <= j < |indexMap| ==> keys[i] !in indexMap[j]
    ensures !(forall k :: 0 <= k < |keys| ==> InSome(keys[k], indexMap))
  {
    assert !InSome(keys[i], indexMap);
  }

  /** The second loop of `get_binary_buckets`: each slope group, in key
      order, is appended to the bucket of its key. A key that no bucket holds
      makes the source index the result with `None`, which fails; that is
      `None` here. Otherwise every entry lands in exactly the bucket of its
      group's key, and nothing is lost or duplicated. */
  method Distribute(keys: seq<int>, groups: seq<seq<Entry>>, binaryBucketIndexMap: seq<seq<int>>)
    returns (r: Option<seq<seq<Entry>>>)
    requires |keys| == |groups|
    ensures r.Some? <==> forall i :: 0 <= i < |keys| ==> InSome(keys[i], binaryBucketIndexMap)
    ensures r.Some? ==> |r.value| == |binaryBucketIndexMap|
    ensures r.Some? ==> multiset(Flatten(r.value)) == multiset(Flatten(groups))
    ensures r.Some? ==> FromGroups(r.value, keys, groups, binaryBucketIndexMap)
  {
    var binarySlopeBuckets: seq<seq<Entry>> := seq(|binaryBucketIndexMap|, _ => []);
    FlattenEmpties(binarySlopeBuckets);
    assert groups[..0] == [];
    for i := 0 to |keys|
      invariant DistributedUpTo(binarySlopeBuckets, keys, groups, binaryBucketIndexMap, i)
    {
      var binaryBucketIndex := GetBinaryBucketIndex(keys[i], binaryBucketIndexMap);
      if binaryBucketIndex.None? {
        Unassigned(keys, binaryBucketIndexMap, i);
        return None;
      }
      var b := binaryBucketIndex.value;
      DistributeStep(binarySlopeBuckets, keys, groups, binaryBucketIndexMap, i, b);
      binarySlopeBuckets := binarySlopeBuckets[b := binarySlopeBuckets[b] + groups[i]];
    }
    assert groups[..|keys|] == groups;
    r := Some(binarySlopeBuckets);
  }

  /** Empty lists flatten to the empty list. */
  lemma {:induction false} FlattenEmpties(ss: seq<seq<Entry>>)
    requires forall i :: 0 <= i < |ss| ==> ss[i] == []
    ensures Flatten(ss) == []
  {
    if ss != [] {
      FlattenEmpties(ss[..|ss| - 1]);
    }
  }

  /** `get_binary_buckets` in this revision: `get_next_power_of_two(n) + 1`
      buckets for `n` sorted keys, which is enough for every key to be
      assigned, so every slope group whose key is among the sorted keys is
      distributed. */
  method GetBinaryBuckets(sortedBucketsList: seq<int>, keys: seq<int>, groups: seq<seq<Entry>>)
    returns (binarySlopeBuckets: seq<seq<Entry>>, ghost indexMap: seq<seq<int>>)
    requires |keys| == |groups|
    requires forall i :: 0 <= i < |keys| ==> keys[i] in sortedBucketsList
    ensures |indexMap| == CeilLog2(|sortedBucketsList|) + 1 && |binarySlopeBuckets| == |indexMap|
    ensures Flatten(indexMap) == sortedBucketsList
    ensures forall j :: 0 <= j < |indexMap| ==> indexMap[j] == BucketKeys(sortedBucketsList, |indexMap|, j)
    ensures multiset(Flatten(binarySlopeBuckets)) == multiset(Flatten(groups))
    ensures FromGroups(binarySlopeBuckets, keys, groups, indexMap)
  {
    var numberOfUnassignedBuckets := |sortedBucketsList|;
    var numberOfBinaryBuckets := GetNextPowerOfTwo(numberOfUnassignedBuckets);
    var map_ := BuildIndexMap(sortedBucketsList, numberOfBinaryBuckets);
    indexMap := map_;
    var count := numberOfBinaryBuckets + 1;
    var n := |sortedBucketsList|;
    Pow2Monotone(numberOfBinaryBuckets, count);
    CutBottom(n, count);
    assert sortedBucketsList[0..] == sortedBucketsList;
    forall i | 0 <= i < |keys| ensures InSome(keys[i], map_) {
      AssignedSomewhere(map_, keys[i]);
    }
    var r := Distribute(keys, groups, map_);
    binarySlopeBuckets := r.value;
  }

  /** With fewer than `2^count` keys no key is left unassigned. */
  lemma CutBottom(n: nat, count: nat)
    requires n < Pow2(count)
    ensures Cut(n, count, 0) == 0
  {
    CutClosedForm(n, count, 0);
    DivModUnique(n, Pow2(count), 0, n);
  }

  /** Bucket 0, the top bucket, is what is left between the last two cuts. */
  lemma TopBucketCount(sorted: seq<int>, count: nat)
    requires count >= 1
    ensures |BucketKeys(sorted, count, 0)| == |sorted| / Pow2(count - 1) - |sorted| / Pow2(count)
  {
    CutClosedForm(|sorted|, count, 0);
    CutClosedForm(|sorted|, count, 1);
  }

  /** `get_binary_buckets` promises that the top bucket always has one
      key. With `get_next_power_of_two(n) + 1` indices it has one key only
      when `n` is a power of two, and none otherwise. */
  lemma TopBucketSize(sorted: seq<int>)
    requires |sorted| >= 1
    ensures |BucketKeys(sorted, CeilLog2(|sorted|) + 1, 0)| == if IsPowerOfTwo(|sorted|) then 1 else 0
  {
    var n, m := |sorted|, CeilLog2(|sorted|);
    TopBucketCount(sorted, m + 1);
    Pow2Monotone(m, m + 1);
    CutBottom(n, m + 1);
    CutClosedForm(n, m + 1, 0);
    PowerOfTwoExactly(n);
    if n == Pow2(m) {
      DivModUnique(n, Pow2(m), 1, 0);
    } else {
      DivModUnique(n, Pow2(m), 0, n);
    }
  }

  /** Three distinct keys go 2, 1 and 0 to buckets 2, 1 and 0: the top
      bucket is empty. */
  lemma TopBucketEmptyForThree()
    ensures CeilLog2(3) == 2 && |BucketKeys([0, 1, 2], 3, 0)| == 0
  {
    TopBucketSize([0, 1, 2]);
    PowerOfTwoExactly(3);
  }

  /** An element of a flattened list is in one of its lists. */
  lemma {:induction false} AssignedSomewhere(ss: seq<seq<int>>, x: int)
    requires x in Flatten(ss)
    ensures InSome(x, ss)
  {
    var n := |ss| - 1;
    if x !in ss[n] {
      AssignedSomewhere(ss[..n], x);
      var j :| 0 <= j < n && x in ss[..n][j];
      assert ss[j] == ss[..n][j];
    }
  }

  // ---------------------------------------------------------------------
  // Sorted duplicate-free keys

  lemma {:induction false} DistinctMultiplicity(s: seq<int>, x: int)
    requires Distinct(s)
    ensures multiset(s)[x] <= 1
  {
    if s != [] {
      var init := s[..|s| - 1];
      assert s == init + [s[|s| - 1]];
      assert Distinct(init);
      DistinctMultiplicity(init, x);
      assert s[|s| - 1] !in init;
    }
  }

  /** Sorting duplicate-free keys gives a strictly ascending list. */
  lemma SortDistinct(s: seq<int>)
    requires Distinct(s)
    ensures StrictlyAscending(Sort(s))
  {
    SortedDistinct(Sort(s), s);
  }

  /** A sorted permutation of a duplicate-free list is strictly ascending. */
  lemma SortedDistinct(t: seq<int>, s: seq<int>)
    requires Sorted(t) && multiset(t) == multiset(s) && Distinct(s)
    ensures StrictlyAscending(t)
  {
    forall i, j | 0 <= i < j < |t| ensures t[i] < t[j] {
      if t[i] == t[j] {
        var x := t[i];
        assert t == t[..j] + [t[j]] + t[j + 1..];
        assert x in t[..j];
        assert multiset(t)[x] >= 2 by {
          assert multiset(t) == multiset(t[..j]) + multiset{x} + multiset(t[j + 1..]);
        }
        DistinctMultiplicity(s, x);
        assert false;
      }
    }
  }

  /** The colouring step of `create_visualization`, over entries that carry
      a slope key: slope buckets, then binary buckets over the sorted keys. Every included number lands in
      exactly one bucket (as a multiset, nothing lost or duplicated), there
      are `get_next_power_of_two(n) + 1` buckets for `n` distinct keys, and
      the keys of a lower bucket are all smaller than the keys of a higher
      one, so numbers with the same key share a bucket. */
  method BinaryBucketsOf(numberList: seq<Entry>, includePrimes: bool) returns (binaryBuckets: seq<seq<Entry>>)
    ensures |binaryBuckets| == CeilLog2(|Dedup(Keys(Included(numberList, includePrimes)))|) + 1
    ensures multiset(Flatten(binaryBuckets)) == multiset(Included(numberList, includePrimes))
    ensures forall j1, j2, e1, e2 :: 0 <= j1 < j2 < |binaryBuckets| && e1 in binaryBuckets[j1] && e2 in binaryBuckets[j2] ==>
              e1.slopeKey < e2.slopeKey
  {
    var bucketsList, slopeBuckets := GetSlopeBuckets(numberList, includePrimes);
    var sorted := Sort(bucketsList);
    forall i | 0 <= i < |bucketsList| ensures bucketsList[i] in sorted {
      assert bucketsList[i] in multiset(sorted);
    }
    ghost var indexMap;
    binaryBuckets, indexMap := GetBinaryBuckets(sorted, bucketsList, slopeBuckets);
    SortDistinct(bucketsList);
    KeysOrdered(binaryBuckets, bucketsList, slopeBuckets, indexMap, sorted, Included(numberList, includePrimes));
  }

  lemma KeysOrdered(binary: seq<seq<Entry>>, keys: seq<int>, groups: seq<seq<Entry>>, indexMap: seq<seq<int>>,
                    sorted: seq<int>, entries: seq<Entry>)
    requires |keys| == |groups| && |binary| == |indexMap|
    requires StrictlyAscending(sorted)
    requires forall j :: 0 <= j < |indexMap| ==> indexMap[j] == BucketKeys(sorted, |indexMap|, j)
    requires forall k :: 0 <= k < |keys| ==> groups[k] == Select(entries, keys[k])
    requires FromGroups(binary, keys, groups, indexMap)
    ensures forall j1, j2, e1, e2 :: 0 <= j1 < j2 < |binary| && e1 in binary[j1] && e2 in binary[j2] ==>
              e1.slopeKey < e2.slopeKey
  {
    forall j1, j2, e1, e2 | 0 <= j1 < j2 < |binary| && e1 in binary[j1] && e2 in binary[j2]
      ensures e1.slopeKey < e2.slopeKey
    {
      var i1 :| 0 <= i1 < |keys| && e1 in groups[i1] && keys[i1] in indexMap[j1];
      var i2 :| 0 <= i2 < |keys| && e2 in groups[i2] && keys[i2] in indexMap[j2];
      BucketsOrdered(sorted, |indexMap|, j1, j2, keys[i1], keys[i2]);
    }
  }

  // ---------------------------------------------------------------------
  // Lookups and the family columns

  predicate HasValue(numbers: seq<Entry>, value: int) {
    exists e :: e in numbers && e.value == value
  }

  /** `get_bucket_index`: `str` of the first bucket in dictionary order (the
      highest index first) holding a number with the value; `None` when no
      bucket does. */
  method GetBucketIndex(binaryBuckets: seq<seq<Entry>>, value: int) returns (r: Option<string>)
    ensures r.Some? ==> exists j :: 0 <= j < |binaryBuckets| && r.value == IntToString(j) &&
                          HasValue(binaryBuckets[j], value) &&
                          forall k :: j < k < |binaryBuckets| ==> !HasValue(binaryBuckets[k], value)
    ensures r.None? <==> forall j :: 0 <= j < |binaryBuckets| ==> !HasValue(binaryBuckets[j], value)
  {
    var index := |binaryBuckets|;
    while index > 0
      invariant 0 <= index <= |binaryBuckets|
      invariant forall k :: index <= k < |binaryBuckets| ==> !HasValue(binaryBuckets[k], value)
    {
      index := index - 1;
      var numbers := binaryBuckets[index];
      for i := 0 to |numbers|
        invariant forall k :: 0 <= k < i ==> numbers[k].value != value
      {
        if value == numbers[i].value {
          return Some(IntToString(index));
        }
      }
    }
    return None;
  }

  /** A cell of the visualisation table. */
  datatype Cell = IntCell(i: int) | TextCell(s: string) | RealCell(r: real)

  /** The `family_factors`, `identity_factor` and `factor_family` cells of a
      number: zeros and 1 for the value 1; otherwise the rendered factors
      before the largest, the largest factor, and the value divided by it
      (a float in the source). For a factorised value the last cell is its
      division family. A value other than 1 with no factors, or with a
      largest factor of 0, fails in the source. */
  method GetFamilyColumns(value: int, primeFactors: seq<int>) returns (r: (Cell, Cell, Cell))
    requires value != 1 ==> |primeFactors| > 0 && SplitPrimeFactors(primeFactors).1 != 0
    ensures value == 1 ==> r == (IntCell(0), IntCell(0), IntCell(1))
    ensures value != 1 ==>
              var (before, largest) := SplitPrimeFactors(primeFactors);
              r == (TextCell(DefaultBookends.0 + Join(IntStrings(before), DefaultSeparator) + DefaultBookends.1),
                    IntCell(largest), RealCell(value as real / largest as real))
    ensures value >= 2 && primeFactors == Factorization(value) ==> r.2 == RealCell(DivisionFamily(value) as real)
  {
    if value == 1 {
      r := (IntCell(0), IntCell(0), IntCell(1));
    } else {
      var (primesBeforeLargest, largestPrimeFactor) := SplitPrimeFactors(primeFactors);
      var familyFactors := IntListToStr(primesBeforeLargest);
      r := (TextCell(familyFactors), IntCell(largestPrimeFactor), RealCell(value as real / largestPrimeFactor as real));
      if value >= 2 && primeFactors == Factorization(value) {
        FamilyIsQuotient(value);
      }
    }
  }

  /** The largest element of a factorisation divides the value into its
      division family. */
  lemma FamilyIsQuotient(value: int)
    requires value >= 2
    ensures SplitPrimeFactors(Factorization(value)).1 != 0
    ensures value as real / SplitPrimeFactors(Factorization(value)).1 as real == DivisionFamily(value) as real
  {
    var f := Factorization(value);
    FactorizationCorrect(value);
    assert f == [SmallestDivisor(value)] + Factorization(value / SmallestDivisor(value));
    var largest := SplitPrimeFactors(f).1;
    LargestIsLast(f, largest);
    assert IsPrime(f[|f| - 1]);
    var family := DivisionFamily(value);
    if IsPrime(value) {
      FactorizationOfPrime(value);
      RealQuotient(value, largest, 1);
    } else {
      RealQuotient(value, largest, family);
    }
  }

  /** In a sorted list, an element no smaller than all is the last one. */
  lemma LargestIsLast(f: seq<int>, largest: int)
    requires Sorted(f) && largest in f && forall i :: 0 <= i < |f| ==> f[i] <= largest
    ensures largest == Last(f)
  {
  }
}
