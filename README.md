# factorization, modelled in Dafny

This project models the arithmetic and list bookkeeping of the
`factorization` program. For every integer the program computes its prime
factors, their mean and mean deviation, an "antislope" (value over mean
deviation) and a "division family" (the value divided by its largest prime
factor). It then groups numbers into colour buckets for a plot. The code
exists in several revisions, and each revision is modelled as its own module:

| module | file | what it models |
|---|---|---|
| `Lab` | `lab.dfy` | `lab.py`: trial division, the division-family search, prime mean and mean deviation (the static helpers of `toolbox/number.py` are the same code) |
| `NumberRevision` | `number_revision.dfy` | `number.py`: the first `Number` record |
| `ToolboxNumber` | `toolbox_number.dfy` | `toolbox/number.py`: the later `Number` record, where a prime always takes its own value as family |
| `Generator` | `generator.dfy` | `toolbox/generator.py`: `Decomposer.run`, its records (a prime's family is `prod([]) = 1` here), chunking, and the collection of one batch per worker |
| `ToolboxUtils` | `toolbox_utils.dfy` | `toolbox/utils.py`: palettes, the geometric-sum searches, `split_prime_factors`, `get_factors`, `int_list_to_str`, `generate_timestamp`, and `generate_number_list` with its families filter and counters |
| `Processor` | `processor.dfy` | `processor.py`: slope buckets, the binary-bucket halving, the index lookups and the family columns |
| `MainScript` | `main_script.dfy` | `main.py`: the same bucketing built on `get_previous_power_of_two`, and its `generate_number_list` |
| `Utils` | `utils.dfy` | `utils.py`: the `SettingsParser.parse` classifier, attribute naming, the number-list generators and `get_mean_deviation` |
| `DataManager` | `data_manager.dfy` | `toolbox/data_manager.py`: `split_value_list`, `compile_prime_factor_string` and the `Composite` row |

Shared definitions live in `Primes` (primality, products, the
smallest-divisor factorisation standing in for `pyprimes.factors`, lists of
primes standing in for `primes_below` and `primes_above`), `Seqs` (sorting,
flattening), `Stats` (sums, extremes, absolute deviations and the antislope
over exact reals), `Strings` (`str` of integers, `join`, `split` and their
parsers) and `Arith` (integer division facts).

Where the revisions disagree, each module follows its own source file:

- A prime's division family differs by revision. `toolbox/generator.py:55`
  gives `math.prod([]) == 1`, `toolbox/number.py:29` gives `value`, and
  `number.py:24-25` gives `value` only when `calculate_division_family` is
  set.
- `division_family * largest_factor == value` holds for every value above 1
  in `toolbox/generator.py`, where a prime's family is 1, but for composites
  only in `toolbox/number.py`, where a prime's family is its own value.
- `get_bucket_base` loops forever when `limit == 1` and `volume >= 2`,
  because the sum is then always 1, and when `limit <= 0` and
  `volume >= 1`, because the sum is then always 0. The model's
  precondition excludes exactly these two sets of inputs.
- Both revisions of `get_binary_buckets` document two promises: every key
  lands in a bucket, and the top bucket always has one key
  (processor.py:238, main.py:295). Neither keeps both. `processor.py`
  assigns every key, but its top bucket is empty unless the key count is a
  power of two. `main.py` always gives the top bucket one key, but leaves the
  smallest key out when the key count is a power of two.
- The bucketing code reads `number.anti_slope` (processor.py:223,
  main.py:357), while the `number.Number` both files import sets
  `antislope` (number.py:17, 33, 36). The model's `Entry` carries the
  rounded slope as `slopeKey`, so it describes what the bucketing functions
  do when handed numbers that have that field.

Python's `/` on integers gives a float. The model uses exact integer division
where the quotient is exact (trial division, division family) and exact reals
for means and deviations. `math.pow`, used for the ideal factor, is a function
parameter `nthRoot` of the generator.

## Model

| member | source | states |
|---|---|---|
| Lab.TrialDivide | lab.py:9-15 | For any non-zero value (negative ones included) and any ascending list of primes, the factors are drawn from the list in ascending order. Their product divides the value, and no listed prime divides the quotient that is left. |
| Lab.DivideOut | lab.py:13-15 | The inner `while` keeps `product(factors) * body == value`, keeps the factors sorted and in the list, and leaves `body` indivisible by every prime processed so far. |
| Lab.LoopExit | lab.py:10-16 | When the loop exits (remainder 1, or every prime tried), the product of the factors divides the value and no listed prime divides what is left. |
| Lab.QuotientShrinks | lab.py:15 | An exact quotient of a non-zero body by a prime is non-zero and smaller in size, so the inner `while` ends. |
| Lab.DivideOutProduct | lab.py:14-15 | Moving one prime from the remainder to the list keeps `product * body` unchanged. |
| Lab.DivideOutStep | lab.py:13-15 | Dividing out a prime keeps the body non-zero and strictly smaller in size, and keeps it indivisible by the earlier primes. |
| Lab.RemainderIsOne | lab.py:8-12 | For a composite, once every prime up to `value / 2` is tried the remainder is 1. |
| Lab.NoFactorsOfPrime | lab.py:8-15 | A prime has no factor among the primes up to half of it, so its list is empty. |
| Lab.HalfBoundOfPrimeDivisor | lab.py:8 | Every prime factor of a composite is at most `floor(value / 2)`, so the prime list always suffices. |
| Lab.GetPrimeFactors | lab.py:6-16 | For a composite the result is its unique sorted prime factorisation, with product equal to the value. For 1, a prime or a value below 1 it is `[]`. Same code as toolbox/number.py:59-70. |
| Lab.DivisionFamilyOver | lab.py:22-27 | The descending search over any ascending prime list returns `value / p` for the largest listed `p` that divides, and 1 if none divides. |
| Lab.DivisionFamily | lab.py:19-27 | For a composite, `family * largestPrimeFactor == value`. For 1, a prime or a value below 2 the family is 1. |
| Lab.LargestListedIsLargestFactor | lab.py:21-26 | Over the primes up to `value / 2`, the first one the descending scan finds dividing a composite is its largest prime factor. |
| Lab.LargestFactorListed | lab.py:21 | The largest prime factor of a composite is among the primes up to `floor(value / 2)`. |
| Lab.LastDividingIsLargest | lab.py:23-26 | In an ascending prime list that holds the largest prime factor, the last listed prime dividing the value is that factor. |
| Lab.GetDivisionFamily | lab.py:19-27 | The method agrees with `DivisionFamily`: the quotient by the largest prime factor for a composite, and 1 otherwise. Same code as toolbox/number.py:91-100. |
| Lab.GetPrimeMean | lab.py:30-35 | For a non-empty list, `sum / len`, which lies between the smallest and the largest factor. Same code as toolbox/number.py:73-79. |
| Lab.MeanBetween | lab.py:34 | A mean of values bounded by `lo` and `hi` is itself between `lo` and `hi`. |
| Lab.GetMeanDeviation | lab.py:38-44 | The mean of absolute deviations: non-negative, and 0 exactly when every factor equals the mean. Same code as toolbox/number.py:82-88. |
| Lab.DerivedRecordAgrees | toolbox/number.py:10-39 | A record whose factors, mean, deviation and antislope are derived from its value keeps the record invariants. A prime has its own value as mean and deviation 0. |
| NumberRevision.FactorsAndFamily | number.py:20-29 | A prime has factors `[value]`, and its family is `value` only when the switch is set. A composite has its factorisation, and its family is `get_division_family` when the switch is set and the argument otherwise. |
| NumberRevision.Number.constructor | number.py:8-37 | Value 1 gives empty factors, family 1, zero mean and deviation, and antislope text `"0"`. Otherwise the fields are derived as above, and the antislope is `value / deviation`, or 0 with text `"0"` when the deviation is not positive. |
| ToolboxNumber.FactorsAndFamily | toolbox/number.py:22-31 | A prime has factors `[value]` and family `value` whatever was passed or computed. A composite's family is computed or passed according to the switch. |
| ToolboxNumber.Number.constructor | toolbox/number.py:10-39 | Value 1 gives the all-zero record with family 1. Otherwise the factors, family, mean, deviation and antislope follow the branches of `__init__`. |
| Stats.Antislope | number.py:32-37 | The text is `"0"` exactly when the deviation is not positive. Otherwise the antislope is `value / deviation`, and it is non-negative for a non-negative value. |
| Stats.ExtremesCorrect | lab.py:30-35 | The minimum and maximum of a non-empty list are members and bound every element. |
| Stats.SumBetweenExtremes | lab.py:31-34 | `n * min <= sum <= n * max`. |
| Stats.AbsDevSumZero | lab.py:39-42 | The summed absolute deviation is non-negative, and 0 exactly when every element equals the centre. |
| Primes.PrimesUpTo | lab.py:8 | An ascending list of exactly the primes up to the bound (the stand-in for `pp.primes_below`). |
| Primes.FactorizationCorrect | toolbox/generator.py:46 | The factorisation standing in for `pp.factors` has product `n`, contains only primes, and is sorted. |
| Primes.FactorizationUnique | toolbox/generator.py:46 | Any sorted list of primes with product `n` is the factorisation of `n`. |
| Primes.FactorizationOfPrime | toolbox/generator.py:43-46 | A value is prime exactly when its factorisation is `[value]`. |
| Primes.LargestPrimeDivisor | lab.py:22-26 | Every prime divisor of `n` is in its factorisation and at most its last element, and the last element divides `n`. |
| Primes.NextPrime | utils.py:103-104 | The least prime above `x` (one `next` of `pp.primes_above(x)`). |
| Primes.PrimesAboveCorrect | utils.py:116-118 | `count` ascending primes above `x`, with no prime skipped between `x` and any of them. |
| Primes.PrimesAboveShape | utils.py:116-118 | The drawn primes have the requested count, are ascending, and lie above `x`. |
| Primes.PrimesAboveNoGap | utils.py:116-118 | Every prime between `x` and a drawn prime was drawn before it. |
| Primes.RangeKeptCorrect | utils.py:86-89 | The values from a range that survive the prime filter: exactly the range members that are not excluded primes, strictly ascending. |
| Generator.DeviationFromIdeal | toolbox/generator.py:19-27 | The result is non-negative, and 0 exactly when all factors equal the first. |
| Generator.NotAllAtCentre | toolbox/generator.py:20-21 | Factors that are not all equal cannot all equal the ideal factor, so their deviation is positive. |
| Generator.GetMeanDeviation | toolbox/generator.py:19-27 | The loop computes `DeviationFromIdeal`: 0 for an all-equal list, otherwise the mean of `abs(f - ideal)`. |
| Generator.RecordInvariants | toolbox/generator.py:32-55 | Value 1 gives the all-zero record with family 1. A prime gives factors `[value]` and family 1. Any other value satisfies `family * last(factors) == value`. The deviation and the antislope are non-negative, the antislope is 0 when the deviation is not positive, and the deviation is 0 exactly when all factors are equal. |
| Generator.BuildRecord | toolbox/generator.py:32-56 | The loop body builds `RecordOf(value)`. |
| Generator.Batch | toolbox/generator.py:30-56 | The collection has one record per input value. |
| Generator.BatchAt | toolbox/generator.py:30-56 | Record `i` of the collection is the record of value `i`. |
| Generator.BatchConcat | toolbox/generator.py:30-56 | The collection of a concatenation is the concatenation of the collections. |
| Generator.ResultQueue.constructor | toolbox/generator.py:64 | A new queue holds no pending batches. |
| Generator.ResultQueue.Put | toolbox/generator.py:57 | `put` appends the batch to the pending batches. |
| Generator.ResultQueue.Get | toolbox/generator.py:84 | `get` removes one pending batch, chosen arbitrarily, and the remaining records plus the returned ones are the multiset there was before. |
| Generator.Decomposer.constructor | toolbox/generator.py:11-14 | The worker keeps its queue and its chunk. |
| Generator.Decomposer.Run | toolbox/generator.py:29-57 | `run` puts exactly one batch on the queue, holding one record per value of its chunk, in chunk order. |
| Generator.ChunkBounds | toolbox/generator.py:71-75 | For worker `k` the slice bounds are ordered and inside the list. Neighbouring chunks meet, the first starts at 0 and the last ends at `len`. With two or more workers the last chunk starts at `len`. |
| Generator.ChunksJoin | toolbox/generator.py:72-76 | The first `m` chunks joined are the list up to where chunk `m - 1` ends. |
| Generator.ChunksLength | toolbox/generator.py:72-76 | `m` workers get `m` chunks, the last being that worker's slice. |
| Generator.ChunksPartition | toolbox/generator.py:71-76 | There are exactly `process_count` chunks, they join back to the value list, and with two or more workers the last one is empty. |
| Generator.BatchesJoin | toolbox/generator.py:78-86 | Joining the batches of the chunks gives the collection of the joined chunks. |
| Generator.CreateDecomposers | toolbox/generator.py:72-76 | One worker per index, each holding its slice of the list and the shared queue. |
| Generator.StartAll | toolbox/generator.py:78-79 | After every worker has run, the queue holds one batch per chunk, in worker order. |
| Generator.Collect | toolbox/generator.py:81-86 | Taking `count` batches empties the queue, and the collection is the multiset of all their records, whatever the arrival order. |
| Generator.Decompose | toolbox/generator.py:60-91 | With at least one worker the collection holds exactly one record per input value, as a multiset. With no worker it is empty. |
| ToolboxUtils.GetPalette | toolbox/utils.py:19-42 | A known palette name gives that palette, and any other name gives `Turbo`. |
| ToolboxUtils.GetNumberOfColorsInPalette | toolbox/utils.py:118-124 | The largest key of the palette: a member that bounds all keys. |
| ToolboxUtils.SplitPrimeFactors | toolbox/utils.py:127-130 | The sorted front and the last element re-concatenate to the sorted list. The front is sorted and one shorter. Together they are a permutation of the input, and the last is its maximum. The copies at processor.py:383-385 and main.py:283-285 are the same code. |
| ToolboxUtils.SortSplit | toolbox/utils.py:127-130 | The same facts about `sorted(s)[:-1]` and `sorted(s)[-1]`. |
| ToolboxUtils.SortLastIsMax | toolbox/utils.py:128-130 | The last element of the sorted list is a member of the input and its maximum. |
| ToolboxUtils.GeomSumClosedForm | toolbox/utils.py:95-99 | `(base - 1) * Σ_{i<k} base^i == base^k - 1`. |
| ToolboxUtils.GeomSumAtLeast | toolbox/utils.py:111-113 | With base at least 1 the sum of `k` powers is at least `k`, and at least `1 + base` for `k >= 2`, so the base search rises. |
| ToolboxUtils.GetMaxSum | toolbox/utils.py:90-101 | The sum of the first `limit` powers of `base`: 0 for `limit <= 0` and 1 for `limit == 1`. |
| ToolboxUtils.GetBucketBase | toolbox/utils.py:104-115 | 1 for `volume <= 0`. Otherwise the smallest base from 2 up whose geometric sum reaches the volume. |
| ToolboxUtils.OddGeomSumGrows | toolbox/utils.py:143-145 | With a base of at most -2 the sum of `2m + 1` powers is at least `m + 1`, so the loop ends for such bases too. |
| ToolboxUtils.GetPowerOfN | toolbox/utils.py:133-147 | 1 for the value 1. Otherwise the least `k >= 0` with `1 + Σ_{i<k} base^i >= value`. |
| ToolboxUtils.GetFactors | toolbox/utils.py:167-176 | `["0", ..., str(n-1)]`. Each label parses back as its index, and the labels are distinct. The copies at processor.py:286-295 and main.py:383-392 are the same code. |
| ToolboxUtils.LabelsReadBack | toolbox/utils.py:172-176 | Labels that are the decimal forms of their positions parse back as those positions and are distinct. |
| ToolboxUtils.IntListToStr | toolbox/utils.py:179-191 | `bookends[0] + separator.join(map(str, xs)) + bookends[1]` with bookends, and the bare join without them. The copies at processor.py:340-352 and main.py:420-432 are the same code. |
| ToolboxUtils.IntListToStrRoundTrip | toolbox/utils.py:179-191 | The default rendering `"[ a, b, ... ]"` reads back as the list. |
| ToolboxUtils.GenerateTimestamp | toolbox/utils.py:193-202 | The first `g + 1` of the four strftime pieces concatenated, for `g <= 3`. The copy at processor.py:328-338 is the same code. |
| ToolboxUtils.TimestampFormatsNest | toolbox/utils.py:198-202 | A finer granularity strictly extends the format of a coarser one. |
| ToolboxUtils.TimestampFinest | toolbox/utils.py:199-201 | Granularity 3 gives `"%d%m%Y_%H%M%S"`. |
| ToolboxUtils.KeptValuesCorrect | toolbox/utils.py:56-69 | The kept values are strictly ascending. They are exactly the range members that are not excluded primes and, with a non-empty filter, whose division family is in the filter. |
| ToolboxUtils.KeptInFilter | toolbox/utils.py:65-69 | With a non-empty filter every kept value's family is in the filter. |
| ToolboxUtils.FirstIndex | toolbox/utils.py:77 | `list.index`: the first position holding the element. |
| ToolboxUtils.FilterCountsTotal | toolbox/utils.py:76-78 | The counters add up to the number of kept values. |
| ToolboxUtils.FilterCountsPerFamily | toolbox/utils.py:76-78 | With a duplicate-free filter, counter `i` is the number of kept values whose family is `families_filter[i]`. |
| ToolboxUtils.CountStep | toolbox/utils.py:76-78 | Keeping one more value bumps exactly the counter at the first filter position of its family. |
| ToolboxUtils.Admit | toolbox/utils.py:59-71 | The value passes both `continue` tests exactly when it is kept. Without a filter the family is computed by the constructor (passed as 1). With a filter it is passed in as `get_division_family(value)`. |
| ToolboxUtils.GenerateOne | toolbox/utils.py:56-78 | One loop pass appends a `Number` exactly for a kept value, and keeps the list and the counters in step with the kept values. |
| ToolboxUtils.GeneratedAppend | toolbox/utils.py:73-75 | Appending the number of a kept value extends the list of generated numbers. |
| ToolboxUtils.CountersStep | toolbox/utils.py:76-78 | Incrementing the counter of the value's family keeps the counters those of the kept values. |
| ToolboxUtils.GenerateNumberList | toolbox/utils.py:45-88 | One `Number` per kept value, ascending, each with its value and the family it is stored with. Without a filter the counters are empty. With one, they are the per-family counts of the kept values. |
| Processor.IncludedMembers | processor.py:219-221 | The numbers looked at are exactly those that are not excluded primes. |
| Processor.Dedup | processor.py:224-225 | The keys without duplicates, and the same set of keys. |
| Processor.Select | processor.py:227 | Exactly the entries with the given key. |
| Processor.NewKeyHasNoEntries | processor.py:224-226 | A key not yet seen has no entries, so a fresh empty group is correct. |
| Processor.GroupStep | processor.py:223-227 | One more included number keeps the grouping invariant. |
| Processor.AddToGroup | processor.py:223-227 | The body for an included number: a new key opens an empty group at the end, and the number is appended to the group of its key. |
| Processor.GroupNext | processor.py:219-227 | One loop round skips an excluded prime or adds the number, keeping the invariant over the prefix seen so far. |
| Processor.GetSlopeBuckets | processor.py:212-229 | `buckets_list` is the duplicate-free list of keys in first-appearance order. Group `k` holds exactly the included numbers with key `k`, in input order. The groups together hold every included number exactly once. The copy at main.py:346-363 is the same code. |
| Processor.CeilLog2 | processor.py:265-275 | The least `k` with `2^k >= v`. |
| Processor.CeilLog2Unique | processor.py:265-275 | Only that `k` has both properties. |
| Processor.PowerOfTwoExactly | processor.py:265-275 | `n` is a power of two exactly when `2^CeilLog2(n) == n`. |
| Processor.GetNextPowerOfTwo | processor.py:265-275 | The loop returns the least `k >= 0` with `2^k >= value`, and 0 for `value <= 1`. |
| Processor.CutMonotone | processor.py:252-255 | The repeated halving cuts move down as the bucket index falls. |
| Processor.CutClosedForm | processor.py:252-255 | The cut below bucket `j` of `count` is `n / 2^(count - j)`. |
| Processor.AssignNext | processor.py:249-255 | Assigning the next lower bucket its keys keeps the assignment invariant. |
| Processor.BuildStep | processor.py:249-255 | One round gives the current index the upper half of the remaining keys, and leaves the lower half unassigned. |
| Processor.BuildIndexMap | processor.py:246-255 | Indices `0..m`, where index `j` holds its `BucketKeys`. The buckets joined are the sorted keys above the last cut. Index `m` gets `ceil(n/2)` keys. |
| Processor.BucketsOrdered | processor.py:252-255 | Keys at a lower index are no larger than keys at a higher one, and strictly smaller when the keys are distinct. |
| Processor.BucketsDisjoint | processor.py:252-255 | With distinct keys no key is in two buckets. |
| Processor.FindBucket | processor.py:248-255 | A position at or above the lowest cut falls in one bucket's range. |
| Processor.EveryKeyOneBucket | processor.py:248-255 | When nothing is left below the lowest bucket, each key is in exactly one bucket. |
| Processor.KeyBucket | processor.py:248-255 | Then each key has a bucket. |
| Processor.CutBottom | processor.py:241-255 | With fewer than `2^count` keys nothing is left below bucket 0, which `n <= 2^m` with `m + 1` buckets guarantees. |
| Processor.GetBinaryBucketIndex | processor.py:277-284 | The first index in dictionary order (the highest) whose list holds the key, or `None` exactly when no list holds it. The copy at main.py:323-330 is the same code. |
| Processor.DistributeStep | processor.py:258-261 | Extending the key's bucket by one slope group keeps the distribution invariant. |
| Processor.Unassigned | processor.py:259-261 | A key in no bucket makes the lookup fail. |
| Processor.Distribute | processor.py:258-261 | When every key has a bucket, records are neither lost nor duplicated, and each lands in the bucket of its key. A key in no bucket is the error path. |
| Processor.GetBinaryBuckets | processor.py:231-263 | Indices `0..CeilLog2(n)`. The buckets partition the sorted keys, so no lookup fails. The binary buckets hold exactly the records of the slope groups, each in the bucket of its key. |
| Processor.SortDistinct | processor.py:97-98 | `sorted` of duplicate-free keys is strictly ascending. |
| Processor.SortedDistinct | processor.py:97-98 | Any sorted permutation of duplicate-free keys is strictly ascending. |
| Processor.KeysOrdered | processor.py:231-239 | Every record in a lower binary bucket has a smaller key than every record in a higher one. |
| Processor.TopBucketCount | processor.py:248-255 | The top bucket holds `n / 2^(count-1) - n / 2^count` keys. |
| Processor.TopBucketSize | processor.py:238-255 | With `get_next_power_of_two(n) + 1` indices the top bucket has one key when `n` is a power of two, and none otherwise, against the documented "always one". |
| Processor.TopBucketEmptyForThree | processor.py:238-255 | Three keys leave the top bucket empty. |
| Processor.BinaryBucketsOf | processor.py:91-98 | Over entries with a slope key, the colouring step gives `CeilLog2(n) + 1` buckets holding every included number exactly once, with keys ascending across buckets. |
| Processor.GetBucketIndex | processor.py:354-362 | `str` of the first bucket in dictionary order holding a number with the value, or `None` exactly when none does. The copy at main.py:395-403 is the same code. |
| Processor.GetFamilyColumns | processor.py:124-135 | Value 1 gives `(0, 0, 1)`. Otherwise it gives the joined front of the sorted factors, the largest factor, and `value / largest`, which for a factorised value is its division family. The copy at main.py:120-130 is the same code. |
| Processor.FamilyIsQuotient | processor.py:129-135 | `value / max(factors)` is the division family of the value. |
| Processor.LargestIsLast | processor.py:384-385 | In a sorted list, an element bounding all others is the last one. |
| MainScript.GetPreviousPowerOfTwo | main.py:333-343 | `get_next_power_of_two(v) - 1`, so -1 exactly for `v <= 1`. |
| MainScript.GetBinaryBuckets | main.py:288-320 | Indices `0..CeilLog2(n) - 1` with their `BucketKeys`. The lookups all succeed exactly when every key has a bucket, and then records are neither lost nor duplicated. |
| MainScript.LeftBelow | main.py:305-312 | With `CeilLog2(n)` buckets one key is left unassigned exactly when `n` is a power of two, and none otherwise. |
| MainScript.SmallestUnassigned | main.py:305-318 | A key left below the lowest bucket is the smallest key, and it is in no bucket. |
| MainScript.Membership | main.py:298-318 | Every key is assigned exactly when the key count is not a power of two. |
| MainScript.TopBucketSize | main.py:295-312 | With `get_previous_power_of_two(n) + 1` indices the top bucket always has one key, for `n >= 2`. |
| MainScript.FloorLog2 | main.py:333-343 | The largest `k` with `2^k <= v`, which the name `get_previous_power_of_two` describes. |
| MainScript.IntendedBuckets | main.py:288-312 | With `FloorLog2(n) + 1` indices no key is left below the lowest bucket, and the top bucket has exactly one key. |
| MainScript.GetBinaryBucketsIntended | main.py:288-320 | The bucketing with `FloorLog2(n)` as highest index: the buckets partition the sorted keys, the top one holds one key, and records are neither lost nor duplicated. |
| MainScript.BinaryBucketsIntended | main.py:87-94 | The colouring with that bucketing never fails. Every included number is in one bucket, keys ascend across buckets, and the top bucket holds the numbers of exactly one key. |
| MainScript.TopBucketOneKey | main.py:295 | A top bucket given one key holds at least one number, and only numbers of that key. |
| MainScript.BinaryBucketsOf | main.py:87-94 | Over entries with a slope key, `get_binary_buckets` fails, on the key error at main.py:318, exactly when the number of distinct keys is a power of two (1 included). Otherwise it keeps every included number once, with keys ascending across buckets. |
| MainScript.GenerateNumberList | main.py:435-446 | One first-revision `Number` per value of `lowerbound..upperbound`, ascending, skipping primes unless they are included. |
| MainScript.AppendNumber | main.py:442-445 | The loop body appends a `Number` exactly for a kept value. |
| Utils.FloatTextSplit | utils.py:201 | The float test holds exactly when some dot splits the text into two non-empty runs of digits. |
| Utils.DigitsNotFloat | utils.py:201-208 | A run of digits never matches the float pattern. |
| Utils.Parse | utils.py:196-221 | The tests are ordered float, int, bool, int array, string. Digits-dot-digits is a float. Digits alone are that int. Exactly `"true"` or `"false"` is a bool. Brackets, digits, commas and whitespace that matched nothing earlier are an array. Anything else is returned unchanged. A trailing newline is ignored as `$` ignores it. |
| Utils.ParseNatString | utils.py:206-208 | `str(n)` of a natural number is read back as that int. |
| Utils.ParseDecimalString | utils.py:201-203 | `a.d` is read back as the exact decimal. |
| Utils.ParseFloatText | utils.py:201-203 | A float text takes the float branch with its exact value. |
| Utils.ParseBracketed | utils.py:216-218 | Bracketed array text takes the array branch with the whole text. |
| Utils.ParseIntArray | utils.py:216-218 | A JSON list of naturals takes the array branch. |
| Utils.AttributeName | utils.py:188-190 | The name is `section + "_" + option`, piece by piece. |
| Utils.AttributeNameInjective | utils.py:187-191 | Sections without an underscore never share an attribute name. |
| Utils.SectionEntries | utils.py:189-191 | One (section, option, raw value) triple per option, in order. |
| Utils.Classified | utils.py:190-191 | Each setting becomes its attribute name and its classification. |
| Utils.StoredKeys | utils.py:191 | Exactly the named pairs are stored by `_set`. |
| Utils.StoredLast | utils.py:191 | A name holds the value of its last pair. |
| Utils.CollectedKeys | utils.py:187-191 | The attributes set are exactly the names of the settings. |
| Utils.CollectedLast | utils.py:187-191 | Each attribute holds the parse of the last setting with that name. |
| Utils.CollectedStep | utils.py:190-191 | One more setting overwrites its attribute with its parse. |
| Utils.ReadStep | utils.py:190-191 | Storing one more setting over the attributes read so far. |
| Utils.Presets | utils.py:143-170 | The 27 settings attributes `__init__` presets, each `None`. |
| Utils.PresetUnlessSet | utils.py:143-191 | After `__init__` a preset attribute is present, and it is `None` exactly when no setting of the file names it. |
| Utils.SettingsParser.constructor | utils.py:139-172 | A new parser holds the 27 preset attributes as `None`, overwritten by the settings of the file. |
| Utils.SettingsParser.ReadSettings | utils.py:187-191 | The attributes become the earlier ones overwritten by each setting's parse, section by section and option by option. |
| Utils.SettingsParser.ReadSection | utils.py:189-191 | One section's options are stored on top of the settings before it. |
| Utils.GetMeanDeviation | utils.py:52-58 | The mean of `abs(f - ideal)`: non-negative, and 0 exactly when every factor equals the ideal. |
| Utils.GenerateContinuousNumberList | utils.py:80-90 | The lower bound is clamped to 2. The values up to the maximum that are not excluded primes, ascending. |
| Utils.GetPrimesBetween | utils.py:122-127 | The first `total_count` primes above `previous`, ascending, with none skipped. |
| Utils.FirstIdentityFactor | utils.py:100-112 | In `count`/`family` mode this is the next prime above the largest family member, and it fails on an empty family. In `count`/`origin` mode it is 2. In other `count` modes it is the configured minimum. In range mode it is the range minimum. |
| Utils.IdentityFactorsCorrect | utils.py:113-118 | The first identity factor, then ascending primes above it, with none skipped. |
| Utils.FamilyValuesCorrect | utils.py:94-118 | A family fails only when it is empty in `count`/`family` mode. Otherwise it gives the product of the sorted family times each identity factor. |
| Utils.FamiliesValuesFail | utils.py:94-120 | The families fail exactly when one of them fails. |
| Utils.FamiliesValuesLength | utils.py:94-120 | Each family contributes `number_of_composites + 1` values. |
| Utils.FamilyNumbers | utils.py:95-118 | The loop for one family computes its values. |
| Utils.DrawComposites | utils.py:116-118 | The inner loop gives the product times each of the next `n` primes. |
| Utils.GenerateNumberFamilies | utils.py:92-120 | The values of all families, in family order. |
| Utils.GenerateNumberList | utils.py:67-78 | `family` mode generates families and `range` mode the continuous list. Any other mode is the unbound-variable error. |
| DataManager.SliceBound | toolbox/data_manager.py:116 | A Python slice bound lands inside the list. |
| DataManager.CeilDivZero | toolbox/data_manager.py:114-115 | `ceil(n / limit)` is 0, and the next line divides by it, exactly for an empty list or a negative limit larger in size than the list. |
| DataManager.SplitValueList | toolbox/data_manager.py:113-117 | Two batches that join back to the list. `None` exactly where the source divides by zero. |
| DataManager.FirstBatchWithinLimit | toolbox/data_manager.py:114-116 | With a positive limit the first batch has `floor(n / ceil(n / limit))` values, which is at most the limit. |
| DataManager.FirstCutBound | toolbox/data_manager.py:114-115 | The cut is at least 0, at most the list length and at most the limit. |
| DataManager.SecondBatchOverLimit | toolbox/data_manager.py:113-117 | Three values with limit 1 split as one value and two. |
| DataManager.Batches | toolbox/data_manager.py:113-117 | The corrected batching: every batch is non-empty and has at most `limit` values. |
| DataManager.BatchesFlatten | toolbox/data_manager.py:113-117 | The corrected batches join back to the list in order. |
| DataManager.BatchesCount | toolbox/data_manager.py:114 | There are exactly `ceil(n / limit)` corrected batches. |
| DataManager.CompilePrimeFactorString | toolbox/data_manager.py:61-63 | The comma-joined decimal factors. It contains no space, and it is `""` exactly for no factors. |
| DataManager.PrimeFactorStringRoundTrip | toolbox/data_manager.py:61-63 | Splitting at the commas and parsing gives the factors back. |
| DataManager.Composite.constructor | toolbox/data_manager.py:52-59 | Every field is copied unchanged, except that the factors are stored in their string form. |
| Strings.NatToStringRoundTrip | toolbox/utils.py:186 | `str(n)` is a run of digits, with no leading zero, that reads back as `n`. |
| Strings.IntToStringRoundTrip | toolbox/utils.py:186 | `int(str(i)) == i`. |
| Strings.IntToStringInjective | toolbox/utils.py:186 | `str` is injective on integers. |
| Strings.SplitJoin | toolbox/data_manager.py:62 | Splitting a join at its separator character gives the parts back when no part contains it. |
| Strings.ParseIntStrings | toolbox/data_manager.py:62 | Parsing the decimal forms gives the integers back. |
| Seqs.Sort | toolbox/utils.py:128 | `sorted`: a sorted permutation of the input. |
| Seqs.SortedUnique | toolbox/utils.py:128 | Two sorted permutations of the same list are equal, so `sorted` is determined by its contract. |

## Left out

- Floating point and `Decimal`. Means, deviations and antislopes are exact reals. The digits of `str(Decimal)` are not modelled (`Stats.AntislopeText`). `round(anti_slope)` is an abstract integer key. `int(k * chunk_size)` is exact integer division.
- `math.pow` for the ideal factor is a function parameter of `Generator.RecordOf`, which is not specified further.
- `pyprimes` and `numpy` are replaced by definitions: `isprime` by `Primes.IsPrime`, `factors` by `Primes.Factorization`, `primes_below` by `Primes.PrimesUpTo` (bound included), `primes_above` by `Primes.PrimesAbove`, `prime_count` by `Primes.PrimeCount`, and `np.prod` by an unbounded `Product`. The 64-bit wrap of `np.prod` and its float `1.0` for an empty family are not modelled.
- Concurrency. `multiprocessing`, `start()` and `cpu_count()` are replaced by a sequential run of the workers and a queue whose `get` returns an arbitrary pending batch. The worker count is a parameter.
- The `anti_slope` attribute read by the bucketing in processor.py and main.py, which the `number.Number` they import does not have: `Entry.slopeKey` stands for it.
- Plotting and output (bokeh, pandas data frames, CSV and HTML files, `show`, the progress bar, logging, `print`), `prep_output_folder`, `stash_graph_html`, `datetime` and `strftime`. `Processor.create_visualization` is modelled only in its colouring and family columns.
- Configuration reading: `SettingsHolder` in processor.py, the module-level settings of main.py, the file opening and `ConfigParser` reading of `SettingsParser`, and toolbox/config_agent.py. The file is given as a list of sections.
- Utils.Parse: the `float()` and `json.loads` conversions are not performed. A float keeps its exact decimal value and an array keeps its text. `\d` and `\s` are their ASCII readings (Unicode digits and spaces are not modelled).
- Persistence: `save_data`, `load_data`, `load_value_data` and the SQLAlchemy tables of toolbox/data_manager.py.
- The palette dictionaries of bokeh, and the constant tables of mappings.py and toolbox/mappings.py. `get_palette` in processor.py and main.py (without `Category10` and `Dark2`) is not modelled separately from `ToolboxUtils.GetPalette`.
- ToolboxUtils.GetBucketBase: requires `volume <= 0 || limit >= 2 || (limit == 1 && volume <= 1)`. The inputs left out are `limit == 1` with `volume >= 2`, where the sum is stuck at 1, and `limit <= 0` with `volume >= 1`, where it is stuck at 0. On both the source loop never ends.
- ToolboxUtils.GetPowerOfN: requires `base >= 1`, `base <= -2` or `value <= 2`. With base 0 or -1 the sums never pass 2, so for larger values the source loop never ends.
- Lab.TrialDivide: requires a non-zero value unless the prime list is empty. A zero body is divisible by every prime, so the inner `while` never ends. `Lab.GetPrimeFactors` reaches this loop only with an empty prime list for values below 4, so it covers every integer.
- ToolboxNumber.Number.constructor: requires `value >= 1`. For a value of 0 or below the factor list is empty, and `get_prime_mean` then divides by `len([]) == 0` (toolbox/number.py:77, reached from line 32; number.py:30 in the first revision). `NumberRevision.Number.constructor`, `ToolboxUtils.GenerateNumberList` and `MainScript.GenerateNumberList` inherit this bound.
- Lab.GetPrimeMean: requires a non-empty list, where the source would divide by zero. `Lab.GetMeanDeviation` and `Utils.GetMeanDeviation` likewise.
- Processor.GetFamilyColumns: requires a non-empty factor list with a non-zero largest factor for values other than 1, where the source would raise `IndexError` or divide by zero.
- Generator.Decomposer.Run: values are positive integers (`NumberValue`). The stand-ins for `pp.isprime` and `pp.factors` do not model 0 or negative values.

## Findings

| source | as written | input that shows it | evidently intended | confidence | as-written member | corrected member |
|---|---|---|---|---|---|---|
| main.py:298-318 | `get_previous_power_of_two(n)` gives `ceil(log2 n) - 1`, so the halving makes only `ceil(log2 n)` buckets. When `n` is a power of two, one key is left below the lowest bucket, `get_binary_bucket_index` returns `None`, and line 318 raises `KeyError`. This is `get_binary_buckets` called on its own: `create_visualization` as written stops earlier, at the `anti_slope` read of main.py:357. | sorted keys `[0]` (one distinct key) or `[0, 1]` | every key lands in exactly one bucket and the top bucket has one key, as the docstring at main.py:291-295 says; neither revision keeps both, and `FloorLog2(n)` as highest index does | not executed | MainScript.BinaryBucketsOf | MainScript.BinaryBucketsIntended |
| processor.py:241-255 | `get_next_power_of_two(n)` as highest index makes `ceil(log2 n) + 1` buckets. Every key is assigned, but the top bucket holds one key only when `n` is a power of two, against the docstring's "The top buket always has one antislope" (processor.py:238). | three distinct keys: buckets 2, 1 and 0 get 2, 1 and 0 keys | every key in one bucket and one key in the top bucket, which `FloorLog2(n)` as highest index gives | not executed | Processor.TopBucketSize | MainScript.IntendedBuckets |
| toolbox/data_manager.py:113-117 | always cuts into two batches at `int(n / ceil(n / limit))`. The second batch then holds everything past the first and can exceed the limit. | a list of 3 values with limit 1 splits as 1 and 2 values | batches of at most `limit` values each, `ceil(n / limit)` of them, joining back to the list | not executed | DataManager.SecondBatchOverLimit | DataManager.BatchesFlatten |
