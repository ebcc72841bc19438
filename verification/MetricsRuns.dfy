/** What the counters show after any number of `record` calls, whichever way
    their atomic additions interleave. */
module MetricsRuns {
  import opened Basics
  import opened Metrics

  // ---- What each call is worth to each counter ----

  function One(b: bool): nat {
    if b then 1 else 0
  }

  ghost function Share(call: Call, slot: nat): nat {
    if slot == REQUESTS then 1
    else if slot == BYTES then call.bytes
    else if slot == HITS then One(call.outcome == Hit)
    else if slot == MISSES then One(call.outcome != Hit)
    else if slot == DEFAULTS then One(call.outcome == Default)
    else if call.elapsed.None? then 0
    else if slot == SUM_NANOS then Wrapped(call.elapsed.value)
    else if slot == TIMED then 1
    else One(slot == FIRST_BUCKET + Bucket(call.elapsed.value))
  }

  ghost function Total(calls: seq<Call>, slot: nat): nat {
    if calls == [] then 0 else Total(calls[..|calls| - 1], slot) + Share(calls[|calls| - 1], slot)
  }

  /** The counters are exactly the calls, summed modulo 2^64. */
  ghost predicate Tallies(c: Counters, calls: seq<Call>) {
    forall slot | 0 <= slot < SLOTS :: c[slot] == Wrapped(Total(calls, slot))
  }

  // ---- Interleaved additions ----

  /** The counters and, for each thread, the additions it has still to make. */
  datatype Pool = Pool(counters: Counters, pending: seq<seq<Add>>)

  ghost predicate GoodPool(p: Pool) {
    forall t | 0 <= t < |p.pending| :: GoodAdds(p.pending[t])
  }

  function Advance(p: Pool, t: nat): (p': Pool)
    requires GoodPool(p) && t < |p.pending| && p.pending[t] != []
    ensures GoodPool(p')
  {
    Pool(Apply(p.counters, p.pending[t][0]), p.pending[t := p.pending[t][1..]])
  }

  /** `end` is reached from `p` by letting the threads of `schedule` move in turn. */
  ghost predicate RunsTo(p: Pool, schedule: seq<nat>, end: Pool)
    requires GoodPool(p)
    decreases |schedule|
  {
    if schedule == [] then p == end
    else
      && schedule[0] < |p.pending| && p.pending[schedule[0]] != []
      && RunsTo(Advance(p, schedule[0]), schedule[1..], end)
  }

  ghost function Amount(adds: seq<Add>, slot: nat): nat {
    if adds == [] then 0
    else (if adds[0].slot == slot then adds[0].n else 0) + Amount(adds[1..], slot)
  }

  ghost function Left(pending: seq<seq<Add>>, slot: nat): nat {
    if pending == [] then 0 else Left(pending[..|pending| - 1], slot) + Amount(pending[|pending| - 1], slot)
  }

  lemma {:induction false} LeftUpdate(pending: seq<seq<Add>>, t: nat, adds: seq<Add>, slot: nat)
    requires t < |pending|
    ensures Left(pending[t := adds], slot) + Amount(pending[t], slot) == Left(pending, slot) + Amount(adds, slot)
  {
    var n := |pending| - 1;
    if t < n {
      LeftUpdate(pending[..n], t, adds, slot);
      assert pending[t := adds][..n] == pending[..n][t := adds];
    } else {
      assert pending[t := adds][..n] == pending[..n];
    }
  }

  /** One addition moves its amount from the pending side into the counter. */
  lemma AdvanceKeepsSum(p: Pool, t: nat, slot: nat)
    requires GoodPool(p) && t < |p.pending| && p.pending[t] != [] && slot < SLOTS
    ensures var p' := Advance(p, t);
            Wrapped(p'.counters[slot] + Left(p'.pending, slot)) == Wrapped(p.counters[slot] + Left(p.pending, slot))
  {
    var adds := p.pending[t];
    LeftUpdate(p.pending, t, adds[1..], slot);
    if adds[0].slot == slot {
      var rest := Left(Advance(p, t).pending, slot);
      WrappedSum(p.counters[slot] + adds[0].n, rest);
      assert Advance(p, t).counters[slot] == Wrapped(p.counters[slot] + adds[0].n);
    }
  }

  lemma {:induction false} RunKeepsSum(p: Pool, schedule: seq<nat>, end: Pool, slot: nat)
    requires GoodPool(p) && RunsTo(p, schedule, end) && slot < SLOTS
    ensures Wrapped(end.counters[slot] + Left(end.pending, slot)) == Wrapped(p.counters[slot] + Left(p.pending, slot))
    decreases |schedule|
  {
    if schedule != [] {
      AdvanceKeepsSum(p, schedule[0], slot);
      RunKeepsSum(Advance(p, schedule[0]), schedule[1..], end, slot);
    }
  }

  ghost predicate Idle(p: Pool) {
    forall t | 0 <= t < |p.pending| :: p.pending[t] == []
  }

  lemma {:induction false} NothingLeft(pending: seq<seq<Add>>, slot: nat)
    requires forall t | 0 <= t < |pending| :: pending[t] == []
    ensures Left(pending, slot) == 0
  {
    if pending != [] {
      NothingLeft(pending[..|pending| - 1], slot);
    }
  }

  /** All threads about to make one call each, on fresh counters. */
  ghost function Launch(calls: seq<Call>): (p: Pool)
    ensures GoodPool(p)
  {
    Pool(Zero(), seq(|calls|, i requires 0 <= i < |calls| => Adds(calls[i])))
  }

  lemma {:induction false} AmountConcat(a: seq<Add>, b: seq<Add>, slot: nat)
    ensures Amount(a + b, slot) == Amount(a, slot) + Amount(b, slot)
    decreases |a|
  {
    if a == [] {
      assert a + b == b;
    } else {
      AmountConcat(a[1..], b, slot);
      assert (a + b)[1..] == a[1..] + b;
    }
  }

  lemma AmountOne(x: Add, slot: nat)
    ensures Amount([x], slot) == if x.slot == slot then x.n else 0
  {
    assert [x][1..] == [];
  }

  lemma AmountTwo(x: Add, y: Add, slot: nat)
    ensures Amount([x, y], slot) == Amount([x], slot) + Amount([y], slot)
  {
    AmountConcat([x], [y], slot);
    assert [x] + [y] == [x, y];
  }

  lemma OutcomeAmount(outcome: Outcome, slot: nat)
    ensures Amount(OutcomeAdds(outcome), slot)
            == if slot == HITS then One(outcome == Hit)
               else if slot == MISSES then One(outcome != Hit)
               else if slot == DEFAULTS then One(outcome == Default) else 0
  {
    AmountOne(Add(HITS, 1), slot);
    AmountOne(Add(MISSES, 1), slot);
    AmountOne(Add(DEFAULTS, 1), slot);
    AmountTwo(Add(MISSES, 1), Add(DEFAULTS, 1), slot);
  }

  lemma TimeAmount(nanos: nat, slot: nat)
    ensures Amount(TimeAdds(nanos), slot)
            == if slot == SUM_NANOS then Wrapped(nanos)
               else if slot == TIMED then 1
               else One(slot == FIRST_BUCKET + Bucket(nanos))
  {
    var x, y, z := Add(FIRST_BUCKET + Bucket(nanos), 1), Add(SUM_NANOS, Wrapped(nanos)), Add(TIMED, 1);
    AmountOne(x, slot);
    AmountOne(y, slot);
    AmountOne(z, slot);
    AmountTwo(x, y, slot);
    AmountConcat([x, y], [z], slot);
    assert TimeAdds(nanos) == [x, y] + [z];
  }

  lemma CallAmount(call: Call, slot: nat)
    ensures Amount(Adds(call), slot) == Share(call, slot)
  {
    var x, y := Add(REQUESTS, 1), Add(BYTES, call.bytes);
    AmountOne(x, slot);
    AmountOne(y, slot);
    AmountTwo(x, y, slot);
    OutcomeAmount(call.outcome, slot);
    AmountConcat([x, y], OutcomeAdds(call.outcome), slot);
    if call.elapsed.Some? {
      TimeAmount(call.elapsed.value, slot);
      AmountConcat([x, y] + OutcomeAdds(call.outcome), TimeAdds(call.elapsed.value), slot);
    } else {
      AmountConcat([x, y] + OutcomeAdds(call.outcome), [], slot);
    }
  }

  lemma LaunchPush(calls: seq<Call>)
    requires calls != []
    ensures Launch(calls).pending == Launch(calls[..|calls| - 1]).pending + [Adds(calls[|calls| - 1])]
  {
  }

  lemma LeftPush(pending: seq<seq<Add>>, adds: seq<Add>, slot: nat)
    ensures Left(pending + [adds], slot) == Left(pending, slot) + Amount(adds, slot)
  {
    assert (pending + [adds])[..|pending|] == pending;
  }

  lemma {:induction false} LaunchLeft(calls: seq<Call>, slot: nat)
    ensures Left(Launch(calls).pending, slot) == Total(calls, slot)
  {
    if calls != [] {
      var n := |calls| - 1;
      LaunchLeft(calls[..n], slot);
      LaunchPush(calls);
      LeftPush(Launch(calls[..n]).pending, Adds(calls[n]), slot);
      CallAmount(calls[n], slot);
    }
  }

  /** Once every thread is done, each counter has gained what was pending. */
  lemma DrainedSlots(p: Pool, schedule: seq<nat>, end: Pool)
    requires GoodPool(p) && RunsTo(p, schedule, end) && Idle(end)
    ensures forall slot | 0 <= slot < SLOTS :: end.counters[slot] == Wrapped(p.counters[slot] + Left(p.pending, slot))
  {
    forall slot | 0 <= slot < SLOTS
      ensures end.counters[slot] == Wrapped(p.counters[slot] + Left(p.pending, slot))
    {
      RunKeepsSum(p, schedule, end, slot);
      NothingLeft(end.pending, slot);
    }
  }

  lemma LaunchTallies(calls: seq<Call>, c: Counters)
    requires forall slot | 0 <= slot < SLOTS :: c[slot] == Wrapped(Zero()[slot] + Left(Launch(calls).pending, slot))
    ensures Tallies(c, calls)
  {
    forall slot | 0 <= slot < SLOTS
      ensures c[slot] == Wrapped(Total(calls, slot))
    {
      LaunchLeft(calls, slot);
    }
  }

  /** However the additions of the calls interleave, once all of them are made
      the counters are the same: the sum of the calls. */
  lemma AnyInterleavingTallies(calls: seq<Call>, schedule: seq<nat>, end: Pool)
    requires RunsTo(Launch(calls), schedule, end) && Idle(end)
    ensures Tallies(end.counters, calls)
  {
    DrainedSlots(Launch(calls), schedule, end);
    LaunchTallies(calls, end.counters);
  }

  // ---- One thread, call after call ----

  ghost function AfterAll(c: Counters, lists: seq<seq<Add>>): Counters
    requires forall t | 0 <= t < |lists| :: GoodAdds(lists[t])
    decreases |lists|
  {
    if lists == [] then c
    else ApplyAll(AfterAll(c, lists[..|lists| - 1]), lists[|lists| - 1])
  }

  ghost function AfterCalls(calls: seq<Call>): Counters {
    AfterAll(Zero(), Launch(calls).pending)
  }

  /** The counters after the calls so far determine those after one more. */
  lemma AfterOneMore(calls: seq<Call>, call: Call)
    ensures AfterCalls(calls + [call]) == ApplyAll(AfterCalls(calls), Adds(call))
  {
    assert Launch(calls + [call]).pending[..|calls|] == Launch(calls).pending;
  }

  lemma {:induction false} ApplyAllAt(c: Counters, adds: seq<Add>, slot: nat)
    requires GoodAdds(adds) && slot < SLOTS
    ensures ApplyAll(c, adds)[slot] == Wrapped(c[slot] + Amount(adds, slot))
    decreases |adds|
  {
    if adds != [] {
      var n := |adds| - 1;
      ApplyAllAt(c, adds[..n], slot);
      AmountConcat(adds[..n], [adds[n]], slot);
      AmountOne(adds[n], slot);
      assert adds == adds[..n] + [adds[n]];
      WrappedSum(c[slot] + Amount(adds[..n], slot), adds[n].n);
    }
  }

  lemma {:induction false} AfterAllAt(c: Counters, lists: seq<seq<Add>>, slot: nat)
    requires forall t | 0 <= t < |lists| :: GoodAdds(lists[t])
    requires slot < SLOTS
    ensures AfterAll(c, lists)[slot] == Wrapped(c[slot] + Left(lists, slot))
    decreases |lists|
  {
    if lists != [] {
      var init, last := lists[..|lists| - 1], lists[|lists| - 1];
      AfterAllAt(c, init, slot);
      ApplyAllAt(AfterAll(c, init), last, slot);
      WrappedSum(c[slot] + Left(init, slot), Amount(last, slot));
    }
  }

  lemma AfterCallsAt(calls: seq<Call>, slot: nat)
    requires slot < SLOTS
    ensures AfterCalls(calls)[slot] == Wrapped(Total(calls, slot))
  {
    AfterAllFromZero(Launch(calls).pending, slot);
    LaunchLeft(calls, slot);
  }

  lemma AfterAllFromZero(lists: seq<seq<Add>>, slot: nat)
    requires slot < SLOTS && forall t | 0 <= t < |lists| :: GoodAdds(lists[t])
    ensures AfterAll(Zero(), lists)[slot] == Wrapped(Left(lists, slot))
  {
    AfterAllAt(Zero(), lists, slot);
  }

  /** Calls made one after another leave the same counters. */
  lemma SequenceTallies(calls: seq<Call>)
    ensures Tallies(AfterCalls(calls), calls)
  {
    forall slot | 0 <= slot < SLOTS
      ensures AfterCalls(calls)[slot] == Wrapped(Total(calls, slot))
    {
      AfterCallsAt(calls, slot);
    }
  }

  /** So no scrape after the last addition can tell how the calls interleaved. */
  lemma InterleavingIsInvisible(calls: seq<Call>, schedule: seq<nat>, end: Pool)
    requires RunsTo(Launch(calls), schedule, end) && Idle(end)
    ensures end.counters == AfterCalls(calls)
  {
    AnyInterleavingTallies(calls, schedule, end);
    SequenceTallies(calls);
    assert forall slot | 0 <= slot < SLOTS :: end.counters[slot] == AfterCalls(calls)[slot];
  }

  // ---- What the totals mean ----

  ghost function CountTimed(calls: seq<Call>): nat {
    if calls == [] then 0 else CountTimed(calls[..|calls| - 1]) + One(calls[|calls| - 1].elapsed.Some?)
  }

  ghost function NanosOf(call: Call): nat {
    if call.elapsed.Some? then call.elapsed.value else 0
  }

  ghost function SumNanos(calls: seq<Call>): nat {
    if calls == [] then 0 else SumNanos(calls[..|calls| - 1]) + NanosOf(calls[|calls| - 1])
  }

  /** Calls that were timed and took at most `bound`. */
  ghost function CountWithin(calls: seq<Call>, bound: nat): nat {
    if calls == [] then 0
    else
      var last := calls[|calls| - 1];
      CountWithin(calls[..|calls| - 1], bound) + One(last.elapsed.Some? && last.elapsed.value <= bound)
  }

  lemma {:induction false} TotalsAgree(calls: seq<Call>)
    ensures Total(calls, REQUESTS) == |calls|
    ensures Total(calls, HITS) + Total(calls, MISSES) == |calls|
    ensures Total(calls, DEFAULTS) <= Total(calls, MISSES)
    ensures Total(calls, TIMED) == CountTimed(calls) <= |calls|
    ensures Wrapped(Total(calls, SUM_NANOS)) == Wrapped(SumNanos(calls))
  {
    if calls != [] {
      var n := |calls| - 1;
      TotalsAgree(calls[..n]);
      var last := NanosOf(calls[n]);
      WrappedSum(SumNanos(calls[..n]), last);
      WrappedSum(Total(calls[..n], SUM_NANOS), Wrapped(last));
      WrappedSum(last, Wrapped(SumNanos(calls[..n])));
      WrappedSum(Wrapped(last), Wrapped(SumNanos(calls[..n])));
    }
  }

  /** First-match bucketing over ascending bounds. */
  lemma BucketMeans(nanos: nat, j: nat)
    requires j < BUCKETS
    ensures Bucket(nanos) <= j <==> nanos <= Bound(j)
  {
    var b := Bucket(nanos);
    if b < j {
      BoundsAscend(b, j);
    }
  }

  ghost function InFirst(calls: seq<Call>, n: nat): nat {
    if calls == [] then 0
    else
      var last := calls[|calls| - 1];
      InFirst(calls[..|calls| - 1], n) + One(last.elapsed.Some? && Bucket(last.elapsed.value) < n)
  }

  lemma {:induction false} NoneInFirst(calls: seq<Call>)
    ensures InFirst(calls, 0) == 0
  {
    if calls != [] {
      NoneInFirst(calls[..|calls| - 1]);
    }
  }

  lemma {:induction false} InFirstStep(calls: seq<Call>, n: nat)
    ensures InFirst(calls, n + 1) == InFirst(calls, n) + Total(calls, FIRST_BUCKET + n)
  {
    if calls != [] {
      InFirstStep(calls[..|calls| - 1], n);
    }
  }

  lemma {:induction false} InFirstIsCount(calls: seq<Call>, j: nat)
    requires j <= BUCKETS
    ensures j < BUCKETS ==> InFirst(calls, j + 1) == CountWithin(calls, Bound(j))
    ensures j == BUCKETS ==> InFirst(calls, j + 1) == CountTimed(calls)
  {
    if calls != [] {
      var n := |calls| - 1;
      InFirstIsCount(calls[..n], j);
      if j < BUCKETS && calls[n].elapsed.Some? {
        BucketMeans(calls[n].elapsed.value, j);
      }
    }
  }

  lemma {:induction false} CountsBounded(calls: seq<Call>, n: nat)
    ensures InFirst(calls, n) <= |calls|
  {
    if calls != [] {
      CountsBounded(calls[..|calls| - 1], n);
    }
  }

  lemma {:induction false} InFirstGrows(calls: seq<Call>, n: nat, m: nat)
    requires n <= m
    ensures InFirst(calls, n) <= InFirst(calls, m)
  {
    if calls != [] {
      InFirstGrows(calls[..|calls| - 1], n, m);
    }
  }

  lemma SlotIs(c: Counters, calls: seq<Call>, slot: nat)
    requires Tallies(c, calls) && slot < SLOTS && Total(calls, slot) < TWO64
    ensures c[slot] == Total(calls, slot)
  {
  }

  lemma {:induction false} BucketSumIs(c: Counters, calls: seq<Call>, n: nat)
    requires Tallies(c, calls) && |calls| < TWO64 && n <= BUCKETS + 1
    ensures BucketSum(c, n) == InFirst(calls, n) <= |calls|
  {
    CountsBounded(calls, n);
    if n == 0 {
      NoneInFirst(calls);
    } else {
      BucketSumIs(c, calls, n - 1);
      InFirstStep(calls, n - 1);
      SlotIs(c, calls, FIRST_BUCKET + n - 1);
    }
  }

  /** The counters after fewer than 2^64 calls. */
  lemma CountersAddUp(c: Counters, calls: seq<Call>)
    requires Tallies(c, calls) && |calls| < TWO64
    ensures var hits: int, misses: int := c[HITS], c[MISSES];
            && c[REQUESTS] == |calls| && hits + misses == |calls|
            && c[DEFAULTS] <= misses
    ensures c[TIMED] == CountTimed(calls) == BucketSum(c, BUCKETS + 1)
    ensures c[SUM_NANOS] == Wrapped(SumNanos(calls))
  {
    TotalsAgree(calls);
    SlotIs(c, calls, REQUESTS);
    SlotIs(c, calls, HITS);
    SlotIs(c, calls, MISSES);
    SlotIs(c, calls, DEFAULTS);
    SlotIs(c, calls, TIMED);
    BucketSumIs(c, calls, BUCKETS + 1);
    InFirstIsCount(calls, BUCKETS);
  }

  lemma {:induction false} CumulativeAt(c: Counters, n: nat, j: nat)
    requires j < n <= BUCKETS + 1
    ensures Cumulative(c, n)[j] == Wrapped(BucketSum(c, j + 1))
  {
    if j < n - 1 {
      CumulativeAt(c, n - 1, j);
    }
  }

  lemma LineIs(c: Counters, calls: seq<Call>, j: nat)
    requires Tallies(c, calls) && |calls| < TWO64 && j <= BUCKETS
    ensures Cumulative(c, BUCKETS + 1)[j] == InFirst(calls, j + 1)
  {
    CumulativeAt(c, BUCKETS + 1, j);
    BucketSumIs(c, calls, j + 1);
  }

  /** Each rendered line counts the durations at or below its bound, the lines
      never decrease, and +Inf equals the count line. */
  lemma HistogramMeans(c: Counters, calls: seq<Call>)
    requires Tallies(c, calls) && |calls| < TWO64
    ensures var lines := Cumulative(c, BUCKETS + 1);
            && (forall j | 0 <= j < BUCKETS :: lines[j] == CountWithin(calls, Bound(j)))
            && (forall j | 0 <= j < BUCKETS :: lines[j] <= lines[j + 1])
            && lines[BUCKETS] == CountTimed(calls) == c[TIMED]
  {
    var lines := Cumulative(c, BUCKETS + 1);
    forall j | 0 <= j < BUCKETS
      ensures lines[j] == CountWithin(calls, Bound(j)) && lines[j] <= lines[j + 1]
    {
      LineIs(c, calls, j);
      LineIs(c, calls, j + 1);
      InFirstIsCount(calls, j);
      InFirstGrows(calls, j + 1, j + 2);
    }
    LineIs(c, calls, BUCKETS);
    InFirstIsCount(calls, BUCKETS);
    TimedIs(c, calls);
  }

  /** The same line by line: 25, 50 and 100 microseconds, each decade up to a tenth
      of a second, and all timed calls. */
  lemma HistogramByDuration(c: Counters, calls: seq<Call>)
    requires Tallies(c, calls) && |calls| < TWO64
    ensures Cumulative(c, BUCKETS + 1)
            == [CountWithin(calls, 25_000), CountWithin(calls, 50_000), CountWithin(calls, 100_000),
                CountWithin(calls, 250_000), CountWithin(calls, 500_000), CountWithin(calls, 1_000_000),
                CountWithin(calls, 2_500_000), CountWithin(calls, 5_000_000), CountWithin(calls, 10_000_000),
                CountWithin(calls, 25_000_000), CountWithin(calls, 50_000_000), CountWithin(calls, 100_000_000),
                CountTimed(calls)]
  {
    HistogramMeans(c, calls);
    BoundsByDecade();
  }

  lemma TimedIs(c: Counters, calls: seq<Call>)
    requires Tallies(c, calls) && |calls| < TWO64
    ensures c[TIMED] == CountTimed(calls)
  {
    TotalsAgree(calls);
    SlotIs(c, calls, TIMED);
  }
}
