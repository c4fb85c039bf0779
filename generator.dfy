/** `toolbox/generator.py`: the batch decomposer. The value list is cut into
    one contiguous chunk per worker, every worker turns its chunk into a
    batch of records and puts the batch on a shared queue, and the collector
    takes one batch per worker off the queue, in whatever order they
    arrive. The workers run one after another here; the arrival order stays
    arbitrary. */
module Generator {
  import opened Arith
  import opened Seqs
  import opened Primes
  import opened Stats

  /** The values handed to the decomposer: positive integers. */
  type NumberValue = v: int | v >= 1 witness 1

  /** One output row of `Decomposer.run`; `idealFactor` and `antislope` are
      floats in the source. */
  datatype Record = Record(
    value: int,
    isPrime: bool,
    idealFactor: real,
    primeFactors: seq<nat>,
    meanDeviation: real,
    antislope: real,
    divisionFamily: int)

  /** Every element equals the first (Python's `all(x == s[0] for x in s)`,
      true for the empty list). */
  predicate AllEqualFirst(s: seq<int>) {
    forall i :: 0 <= i < |s| ==> s[i] == s[0]
  }

  /** A list whose elements are not all equal cannot have every element equal
      to one centre. */
  lemma NotAllAtCentre(s: seq<int>, centre: real)
    requires !AllEqualFirst(s)
    ensures !(forall i :: 0 <= i < |s| ==> s[i] as real == centre)
  {
    var i :| 0 <= i < |s| && s[i] != s[0];
    assert s[i] as real != s[0] as real;
  }

  /** What `Decomposer.get_mean_deviation` computes: 0 when every factor
      equals the first, otherwise the mean of `|f - ideal|`. It is never
      negative, and it is zero exactly when every factor equals the first,
      whatever the ideal factor is. */
  function DeviationFromIdeal(primeFactors: seq<int>, ideal: real): (md: real)
    ensures md >= 0.0
    ensures md == 0.0 <==> AllEqualFirst(primeFactors)
  {
    if AllEqualFirst(primeFactors) then 0.0
    else
      AbsDevSumZero(primeFactors, ideal);
      NotAllAtCentre(primeFactors, ideal);
      ZeroQuotient(AbsDevSum(primeFactors, ideal), |primeFactors| as real);
      AbsDevSum(primeFactors, ideal) / |primeFactors| as real
  }

  /** `Decomposer.get_mean_deviation`: the all-equal test, then the
      accumulating loop. */
  method GetMeanDeviation(primeFactors: seq<int>, ideal: real) returns (md: real)
    ensures md == DeviationFromIdeal(primeFactors, ideal)
  {
    var allEqual := true;
    var i := 0;
    while i < |primeFactors| && allEqual
      invariant 0 <= i <= |primeFactors|
      invariant allEqual == forall k :: 0 <= k < i ==> primeFactors[k] == primeFactors[0]
    {
      allEqual := primeFactors[i] == primeFactors[0];
      i := i + 1;
    }
    if allEqual {
      return 0.0;
    }
    var deviationsSum := 0.0;
    for j := 0 to |primeFactors|
      invariant deviationsSum == AbsDevSum(primeFactors[..j], ideal)
    {
      assert primeFactors[..j + 1][..j] == primeFactors[..j];
      deviationsSum := deviationsSum + Abs(primeFactors[j] as real - ideal);
    }
    assert primeFactors[..|primeFactors|] == primeFactors;
    md := deviationsSum / |primeFactors| as real;
  }

  /** The record `Decomposer.run` builds for one value. `nthRoot(v, k)`
      stands for `math.pow(v, 1 / k)`; a prime is its own single factor, a
      composite is factorised, and the division family is the product of
      every factor but the last. */
  function RecordOf(value: NumberValue, nthRoot: (int, nat) -> real): Record {
    if value == 1 then
      Record(value, IsPrime(value), 0.0, [], 0.0, 0.0, 1)
    else
      var factors := if IsPrime(value) then [value as nat] else Factorization(value);
      var ideal := nthRoot(value, |factors|);
      var md := DeviationFromIdeal(factors, ideal);
      var antislope := if md > 0.0 then value as real / md else 0.0;
      Record(value, IsPrime(value), ideal, factors, md, antislope, Product(factors[..|factors| - 1]))
  }

  /** `RecordOf` keeps the value, factorises it, makes 1 the division family
      of 1 and of every prime, and otherwise makes the family times the
      largest factor give back the value; the deviation and the antislope
      are never negative, the antislope is 0 unless the deviation is
      positive, and the deviation is 0 exactly when all factors are equal. */
  lemma RecordInvariants(value: NumberValue, nthRoot: (int, nat) -> real)
    ensures RecordOf(value, nthRoot).value == value
    ensures RecordOf(value, nthRoot).isPrime == IsPrime(value)
    ensures RecordOf(value, nthRoot).primeFactors == Factorization(value)
    ensures value == 1 ==> RecordOf(value, nthRoot) == Record(1, false, 0.0, [], 0.0, 0.0, 1)
    ensures IsPrime(value) ==> RecordOf(value, nthRoot).primeFactors == [value] && RecordOf(value, nthRoot).divisionFamily == 1
    ensures value != 1 ==>
      RecordOf(value, nthRoot).divisionFamily * Last(RecordOf(value, nthRoot).primeFactors) == value
    ensures RecordOf(value, nthRoot).meanDeviation >= 0.0 && RecordOf(value, nthRoot).antislope >= 0.0
    ensures !(RecordOf(value, nthRoot).meanDeviation > 0.0) ==> RecordOf(value, nthRoot).antislope == 0.0
    ensures RecordOf(value, nthRoot).meanDeviation == 0.0 <==> AllEqualFirst(Factorization(value))
  {
    var r := RecordOf(value, nthRoot);
    FactorizationCorrect(value);
    if value != 1 {
      FactorizationOfPrime(value);
      var f := r.primeFactors;
      assert f == f[..|f| - 1] + [f[|f| - 1]];
      ProductAppend(f[..|f| - 1], f[|f| - 1]);
      if r.meanDeviation > 0.0 {
        QuotientNonNegative(value as real, r.meanDeviation);
      }
    }
  }

  /** The records of a list of values, in order. */
  function Batch(values: seq<NumberValue>, nthRoot: (int, nat) -> real): (b: seq<Record>)
    ensures |b| == |values|
  {
    if values == [] then [] else Batch(values[..|values| - 1], nthRoot) + [RecordOf(values[|values| - 1], nthRoot)]
  }

  /** The batch of a list holds, position by position, the record of each
      value, so it is one record per value in input order. */
  lemma {:induction false} BatchAt(values: seq<NumberValue>, nthRoot: (int, nat) -> real, i: int)
    requires 0 <= i < |values|
    ensures Batch(values, nthRoot)[i] == RecordOf(values[i], nthRoot)
    decreases |values|
  {
    if i < |values| - 1 {
      BatchAt(values[..|values| - 1], nthRoot, i);
    }
  }

  lemma {:induction false} BatchConcat(a: seq<NumberValue>, b: seq<NumberValue>, nthRoot: (int, nat) -> real)
    ensures Batch(a + b, nthRoot) == Batch(a, nthRoot) + Batch(b, nthRoot)
    decreases |b|
  {
    if b == [] {
      assert a + b == a;
    } else {
      assert (a + b)[..|a + b| - 1] == a + b[..|b| - 1];
      BatchConcat(a, b[..|b| - 1], nthRoot);
    }
  }

  /** The queue the workers put their batches on (`multiprocessing.Queue`).
      `Get` takes any pending batch: which worker finishes first is not
      fixed. */
  class ResultQueue {
    var pending: seq<seq<Record>>

    constructor ()
      ensures pending == []
    {
      pending := [];
    }

    method Put(batch: seq<Record>)
      modifies this
      ensures pending == old(pending) + [batch]
    {
      pending := pending + [batch];
    }

    /** Removes and returns one pending batch, chosen arbitrarily. A `get`
        on an empty queue blocks in the source; the collector here calls it
        only while a batch is pending. */
    method Get() returns (batch: seq<Record>)
      requires |pending| > 0
      modifies this
      ensures exists j :: 0 <= j < |old(pending)| && batch == old(pending)[j] &&
                pending == old(pending)[..j] + old(pending)[j + 1..]
      ensures multiset(Flatten(old(pending))) == multiset(Flatten(pending)) + multiset(batch)
    {
      var j :| 0 <= j < |pending|;
      batch := pending[j];
      FlattenRemove(pending, j);
      pending := pending[..j] + pending[j + 1..];
    }
  }

  /** Taking out the `j`-th list removes exactly its elements from the
      flattened whole. */
  lemma FlattenRemove<T>(ss: seq<seq<T>>, j: int)
    requires 0 <= j < |ss|
    ensures multiset(Flatten(ss)) == multiset(Flatten(ss[..j] + ss[j + 1..])) + multiset(ss[j])
  {
    var before, x, after := ss[..j], ss[j], ss[j + 1..];
    calc {
      multiset(Flatten(ss));
    == { SplitAround(ss, j); FlattenMiddle(before, x, after); }
      multiset(Flatten(before) + x + Flatten(after));
    ==
      multiset(Flatten(before)) + multiset(Flatten(after)) + multiset(x);
    == { FlattenConcat(before, after); }
      multiset(Flatten(before + after)) + multiset(x);
    }
  }

  /** Flattening around one list in the middle. */
  lemma FlattenMiddle<T>(before: seq<seq<T>>, x: seq<T>, after: seq<seq<T>>)
    ensures Flatten(before + [x] + after) == Flatten(before) + x + Flatten(after)
  {
    FlattenConcat(before + [x], after);
    FlattenConcat(before, [x]);
    assert Flatten([x]) == x by {
      assert [x][..0] == [];
    }
  }

  /** One worker (`Decomposer`): a chunk of values and the shared queue. */
  class Decomposer {
    const queue: ResultQueue
    const valueList: seq<NumberValue>

    constructor (queue: ResultQueue, valueList: seq<NumberValue>)
      ensures this.queue == queue && this.valueList == valueList
    {
      this.queue := queue;
      this.valueList := valueList;
    }

    /** `Decomposer.run`: builds one record per value, in order, and puts the
        whole batch on the queue exactly once. */
    method Run(nthRoot: (int, nat) -> real)
      modifies queue
      ensures queue.pending == old(queue.pending) + [Batch(valueList, nthRoot)]
    {
      var updatedCollection: seq<Record> := [];
      for i := 0 to |valueList|
        invariant updatedCollection == Batch(valueList[..i], nthRoot)
        invariant queue.pending == old(queue.pending)
      {
        var newRecord := BuildRecord(valueList[i], nthRoot);
        assert valueList[..i + 1][..i] == valueList[..i];
        updatedCollection := updatedCollection + [newRecord];
      }
      assert valueList[..|valueList|] == valueList;
      queue.Put(updatedCollection);
    }
  }

  /** The body of the loop in `Decomposer.run` for one value. */
  method BuildRecord(value: NumberValue, nthRoot: (int, nat) -> real) returns (r: Record)
    ensures r == RecordOf(value, nthRoot)
  {
    if value == 1 {
      r := Record(value, IsPrime(value), 0.0, [], 0.0, 0.0, 1);
    } else {
      var factors: seq<nat> := [];
      if IsPrime(value) {
        factors := factors + [value];
      } else {
        factors := Factorization(value);
      }
      var ideal := nthRoot(value, |factors|);
      var md := GetMeanDeviation(factors, ideal);
      var antislope := 0.0;
      if md > 0.0 {
        antislope := value as real / md;
      }
      FactorizationCorrect(value);
      r := Record(value, IsPrime(value), ideal, factors, md, antislope, Product(factors[..|factors| - 1]));
    }
  }

  // ---------------------------------------------------------------------
  // Chunking

  /** `max(1, process_count - 1)`: the number the length is divided by. */
  function Parts(processCount: int): int {
    if processCount - 1 > 1 then processCount - 1 else 1
  }

  /** `int(counter * chunk_size)` with `chunk_size = len / parts`, in exact
      arithmetic. */
  function ChunkStart(n: nat, processCount: int, k: nat): int {
    (k * n) / Parts(processCount)
  }

  /** `int(min((counter + 1) * chunk_size, len))`, in exact arithmetic. */
  function ChunkEnd(n: nat, processCount: int, k: nat): int {
    var e := ((k + 1) * n) / Parts(processCount);
    if e < n then e else n
  }

  /** For every worker index the slice bounds are ordered and in range; the
      first chunk starts at 0, each chunk ends where the next one starts,
      the last one ends at the length, and with two or more workers the last
      chunk is empty. */
  lemma ChunkBounds(n: nat, processCount: int, k: nat)
    requires k < processCount
    ensures 0 <= ChunkStart(n, processCount, k) <= ChunkEnd(n, processCount, k) <= n
    ensures k == 0 ==> ChunkStart(n, processCount, k) == 0
    ensures k + 1 < processCount ==> ChunkEnd(n, processCount, k) == ChunkStart(n, processCount, k + 1)
    ensures k + 1 == processCount ==> ChunkEnd(n, processCount, k) == n
    ensures k + 1 == processCount && processCount >= 2 ==> ChunkStart(n, processCount, k) == n
  {
    var d := Parts(processCount);
    ScaledQuotientBound(k, n, d);
    MulMonotone(k, k + 1, n);
    DivMonotone(k * n, (k + 1) * n, d);
    if k + 1 < processCount {
      ScaledQuotientBound(k + 1, n, d);
    }
    if k + 1 == processCount {
      MulMonotone(d, k + 1, n);
      MulMod(d, n);
      assert d * n == n * d;
      DivMonotone(d * n, (k + 1) * n, d);
    }
  }

  /** The chunk of worker `k`: `values_list[start_index:end_index]`. */
  function Chunk(values: seq<NumberValue>, processCount: int, k: nat): seq<NumberValue>
    requires k < processCount
  {
    ChunkBounds(|values|, processCount, k);
    values[ChunkStart(|values|, processCount, k)..ChunkEnd(|values|, processCount, k)]
  }

  /** The chunks of the first `m` workers, in worker order. */
  function Chunks(values: seq<NumberValue>, processCount: int, m: nat): seq<seq<NumberValue>>
    requires m <= processCount
  {
    if m == 0 then [] else Chunks(values, processCount, m - 1) + [Chunk(values, processCount, m - 1)]
  }

  /** The first `m` chunks, joined, are the values up to where chunk `m - 1`
      ends; so all chunks joined give back the whole list. */
  lemma {:induction false} ChunksJoin(values: seq<NumberValue>, processCount: int, m: nat)
    requires 1 <= m <= processCount
    ensures 0 <= ChunkEnd(|values|, processCount, m - 1) <= |values| &&
            Flatten(Chunks(values, processCount, m)) == values[..ChunkEnd(|values|, processCount, m - 1)]
  {
    var n := |values|;
    ChunkBounds(n, processCount, m - 1);
    var c := Chunk(values, processCount, m - 1);
    assert Chunks(values, processCount, m) == Chunks(values, processCount, m - 1) + [c];
    if m == 1 {
      assert Chunks(values, processCount, 0) == [];
      assert Flatten([c]) == c by {
        assert [c][..0] == Chunks(values, processCount, 0);
      }
    } else {
      ChunksJoin(values, processCount, m - 1);
      ChunkBounds(n, processCount, m - 2);
      var e := ChunkEnd(n, processCount, m - 1);
      var s := ChunkStart(n, processCount, m - 1);
      assert values[..e] == values[..s] + values[s..e];
    }
  }

  /** With at least one worker the chunks are exactly `processCount`
      contiguous slices whose concatenation is the input; with two or more
      the last one is empty. */
  lemma ChunksPartition(values: seq<NumberValue>, processCount: int)
    requires processCount >= 1
    ensures |Chunks(values, processCount, processCount)| == processCount
    ensures Flatten(Chunks(values, processCount, processCount)) == values
    ensures processCount >= 2 ==> Chunks(values, processCount, processCount)[processCount - 1] == []
  {
    ChunksJoin(values, processCount, processCount);
    ChunkBounds(|values|, processCount, processCount - 1);
    assert values[..|values|] == values;
    ChunksLength(values, processCount, processCount);
  }

  lemma {:induction false} ChunksLength(values: seq<NumberValue>, processCount: int, m: nat)
    requires m <= processCount
    ensures |Chunks(values, processCount, m)| == m
    ensures m >= 1 ==> Chunks(values, processCount, m)[m - 1] == Chunk(values, processCount, m - 1)
  {
    if m >= 1 {
      ChunksLength(values, processCount, m - 1);
    }
  }

  /** The batches of a list of chunks, one per chunk, in order. */
  function Batches(chunks: seq<seq<NumberValue>>, nthRoot: (int, nat) -> real): (bs: seq<seq<Record>>)
    ensures |bs| == |chunks|
  {
    if chunks == [] then [] else Batches(chunks[..|chunks| - 1], nthRoot) + [Batch(chunks[|chunks| - 1], nthRoot)]
  }

  /** Joining the batches gives the batch of the joined chunks. */
  lemma {:induction false} BatchesJoin(chunks: seq<seq<NumberValue>>, nthRoot: (int, nat) -> real)
    ensures Flatten(Batches(chunks, nthRoot)) == Batch(Flatten(chunks), nthRoot)
    decreases |chunks|
  {
    if chunks != [] {
      var init := chunks[..|chunks| - 1];
      BatchesJoin(init, nthRoot);
      BatchConcat(Flatten(init), chunks[|chunks| - 1], nthRoot);
    }
  }

  /** `decompose`: one worker per chunk, each run once, then exactly
      `processCount` batches taken off the queue in arrival order. The
      merged collection holds, as a multiset, one record per input value,
      whatever the arrival order; with no workers it is empty. */
  method Decompose(values: seq<NumberValue>, processCount: nat, nthRoot: (int, nat) -> real)
    returns (collection: seq<Record>)
    ensures processCount >= 1 ==> multiset(collection) == multiset(Batch(values, nthRoot))
    ensures processCount >= 1 ==> |collection| == |values|
    ensures processCount == 0 ==> collection == []
  {
    var queue := new ResultQueue();
    var decomposers := CreateDecomposers(values, processCount, queue);
    StartAll(decomposers, values, processCount, queue, nthRoot);
    ghost var batches := queue.pending;
    ChunksLength(values, processCount, processCount);
    collection := Collect(queue, processCount);
    assert multiset(collection) == multiset(Flatten(batches));
    if processCount >= 1 {
      ChunksPartition(values, processCount);
      BatchesJoin(Chunks(values, processCount, processCount), nthRoot);
      assert Flatten(batches) == Batch(values, nthRoot);
      assert |collection| == |multiset(collection)| == |Batch(values, nthRoot)|;
    } else {
      assert batches == [];
      assert |collection| == |multiset(collection)| == 0;
    }
  }

  /** The first loop of `decompose`: one worker per index `0 <= k <
      processCount`, each given chunk `k` and the shared queue. */
  method CreateDecomposers(values: seq<NumberValue>, processCount: nat, queue: ResultQueue)
    returns (decomposers: seq<Decomposer>)
    ensures |decomposers| == processCount
    ensures forall k :: 0 <= k < processCount ==>
      decomposers[k].queue == queue && decomposers[k].valueList == Chunk(values, processCount, k)
  {
    decomposers := [];
    for counter := 0 to processCount
      invariant |decomposers| == counter
      invariant forall k :: 0 <= k < counter ==>
        decomposers[k].queue == queue && decomposers[k].valueList == Chunk(values, processCount, k)
    {
      ChunkBounds(|values|, processCount, counter);
      var startIndex := ChunkStart(|values|, processCount, counter);
      var endIndex := ChunkEnd(|values|, processCount, counter);
      var chunk := values[startIndex..endIndex];
      var decomposer := new Decomposer(queue, chunk);
      decomposers := decomposers + [decomposer];
    }
  }

  /** The `start()` loop of `decompose`, run one worker after another: the
      queue then holds one batch per chunk, in worker order. */
  method StartAll(decomposers: seq<Decomposer>, values: seq<NumberValue>, processCount: nat, queue: ResultQueue,
                  nthRoot: (int, nat) -> real)
    requires |decomposers| == processCount
    requires forall k :: 0 <= k < processCount ==>
      decomposers[k].queue == queue && decomposers[k].valueList == Chunk(values, processCount, k)
    requires queue.pending == []
    modifies queue
    ensures queue.pending == Batches(Chunks(values, processCount, processCount), nthRoot)
  {
    for i := 0 to |decomposers|
      invariant queue.pending == Batches(Chunks(values, processCount, i), nthRoot)
    {
      ChunksLength(values, processCount, i + 1);
      assert Chunks(values, processCount, i + 1)[..i] == Chunks(values, processCount, i);
      decomposers[i].Run(nthRoot);
    }
  }

  /** The collecting loop of `decompose`: takes `count` batches off the queue,
      in arrival order, and joins them; when `count` is the number of
      pending batches the queue ends empty and the collection holds exactly
      the records of all of them. */
  method Collect(queue: ResultQueue, count: nat) returns (collection: seq<Record>)
    requires |queue.pending| == count
    modifies queue
    ensures queue.pending == []
    ensures multiset(collection) == multiset(Flatten(old(queue.pending)))
  {
    collection := [];
    var decomposerProcessCount := count;
    while decomposerProcessCount > 0
      invariant |queue.pending| == decomposerProcessCount
      invariant multiset(collection) + multiset(Flatten(queue.pending)) == multiset(Flatten(old(queue.pending)))
    {
      var result := queue.Get();
      collection := collection + result;
      decomposerProcessCount := decomposerProcessCount - 1;
    }
    assert Flatten(queue.pending) == [];
  }
}
