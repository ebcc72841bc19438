/** Request counters and the latency histogram: one `record` call is a short list
    of atomic additions, and calls from many threads interleave addition by
    addition. Durations and bucket bounds are whole nanoseconds. */
module Metrics {
  import opened Basics

  datatype Outcome = Hit | Miss | Default

  /** One call of `record`. */
  datatype Call = Call(outcome: Outcome, bytes: nat, elapsed: Option<nat>)

  const BUCKETS: nat := 12

  /** Upper bounds, ascending; a thirteenth bucket takes everything above. */
  function Bound(i: nat): nat
    requires i < BUCKETS
  {
    [25_000, 50_000, 100_000, 250_000, 500_000, 1_000_000, 2_500_000, 5_000_000,
     10_000_000, 25_000_000, 50_000_000, 100_000_000][i]
  }

  /** Three bounds, and ten times each bound three places further on. */
  lemma BoundsByDecade()
    ensures Bound(0) == 25_000 && Bound(1) == 50_000 && Bound(2) == 100_000
    ensures BUCKETS == 12 && forall i | 0 <= i < 9 :: Bound(i + 3) == 10 * Bound(i)
  {
  }

  lemma BoundsAscend(i: nat, j: nat)
    requires i < j < BUCKETS
    ensures Bound(i) < Bound(j)
  {
  }

  /** `position` over the first `n` bounds: the first one that is not exceeded,
      or `n`. */
  function FirstBound(nanos: nat, n: nat): (b: nat)
    requires n <= BUCKETS
    ensures b <= n
    ensures b < n ==> nanos <= Bound(b)
    ensures forall j | 0 <= j < b :: nanos > Bound(j)
  {
    if n == 0 then 0
    else
      var b := FirstBound(nanos, n - 1);
      if b < n - 1 || nanos <= Bound(n - 1) then b else n
  }

  function Bucket(nanos: nat): nat {
    FirstBound(nanos, BUCKETS)
  }

  /** What a 64-bit counter shows of a true count. */
  function Wrapped(n: nat): U64 {
    n % 0x1_0000_0000_0000_0000
  }

  lemma WrappedSum(a: nat, b: nat)
    ensures AddU64(Wrapped(a), b) == Wrapped(a + b)
  {
    var m := 0x1_0000_0000_0000_0000;
    var q := a / m;
    assert a == m * q + a % m;
    assert a + b == m * q + (a % m + b);
    ModShift(q, a % m + b);
  }

  lemma {:induction false} ModShift(q: nat, r: nat)
    ensures (0x1_0000_0000_0000_0000 * q + r) % 0x1_0000_0000_0000_0000 == r % 0x1_0000_0000_0000_0000
  {
    if q > 0 {
      ModShift(q - 1, r);
      var m := 0x1_0000_0000_0000_0000;
      assert m * q + r == m * (q - 1) + r + m;
    }
  }

  // ---- Counters as numbered slots ----

  const REQUESTS: nat := 0
  const BYTES: nat := 1
  const HITS: nat := 2
  const MISSES: nat := 3
  const DEFAULTS: nat := 4
  const SUM_NANOS: nat := 5
  const TIMED: nat := 6
  const FIRST_BUCKET: nat := 7
  const SLOTS: nat := 20

  type Counters = c: seq<U64> | |c| == 20 witness seq(20, _ => 0)

  function Zero(): (c: Counters)
    ensures forall i | 0 <= i < 20 :: c[i] == 0
  {
    seq(20, _ => 0)
  }

  /** `fetch_add` of `n` on one counter. */
  datatype Add = Add(slot: nat, n: nat)

  ghost predicate GoodAdds(adds: seq<Add>) {
    forall i | 0 <= i < |adds| :: adds[i].slot < SLOTS
  }

  function Apply(c: Counters, a: Add): Counters
    requires a.slot < SLOTS
  {
    c[a.slot := AddU64(c[a.slot], a.n)]
  }

  ghost function ApplyAll(c: Counters, adds: seq<Add>): Counters
    requires GoodAdds(adds)
    decreases |adds|
  {
    if adds == [] then c else Apply(ApplyAll(c, adds[..|adds| - 1]), adds[|adds| - 1])
  }

  lemma {:induction false} ApplyAllConcat(c: Counters, a: seq<Add>, b: seq<Add>)
    requires GoodAdds(a) && GoodAdds(b)
    ensures ApplyAll(c, a + b) == ApplyAll(ApplyAll(c, a), b)
    decreases |b|
  {
    if b == [] {
      assert a + b == a;
    } else {
      var init := b[..|b| - 1];
      ApplyAllConcat(c, a, init);
      assert (a + b)[..|a + b| - 1] == a + init;
    }
  }

  lemma ApplyAllPush(c: Counters, a: seq<Add>, x: Add)
    requires GoodAdds(a) && x.slot < SLOTS
    ensures ApplyAll(c, a + [x]) == Apply(ApplyAll(c, a), x)
  {
    assert (a + [x])[..|a|] == a;
  }

  function OutcomeAdds(outcome: Outcome): (adds: seq<Add>)
    ensures GoodAdds(adds)
  {
    match outcome
    case Hit => [Add(HITS, 1)]
    case Miss => [Add(MISSES, 1)]
    case Default => [Add(MISSES, 1), Add(DEFAULTS, 1)]
  }

  function TimeAdds(nanos: nat): (adds: seq<Add>)
    ensures GoodAdds(adds)
  {
    [Add(FIRST_BUCKET + Bucket(nanos), 1), Add(SUM_NANOS, nanos % 0x1_0000_0000_0000_0000), Add(TIMED, 1)]
  }

  /** The additions of one `record`, in program order. */
  function Adds(call: Call): (adds: seq<Add>)
    ensures GoodAdds(adds)
  {
    [Add(REQUESTS, 1), Add(BYTES, call.bytes)] + OutcomeAdds(call.outcome)
      + (match call.elapsed case None => [] case Some(nanos) => TimeAdds(nanos))
  }

  class Metrics {
    var requests: U64
    var bytes: U64
    var hits: U64
    var misses: U64
    var defaults: U64
    const buckets: array<U64>
    var sumNanos: U64
    var timed: U64

    ghost predicate Valid()
      reads this
    {
      buckets.Length == BUCKETS + 1
    }

    ghost function View(): Counters
      requires Valid()
      reads this, buckets
    {
      var fields: seq<U64> := [requests, bytes, hits, misses, defaults, sumNanos, timed];
      fields + buckets[..]
    }

    constructor ()
      ensures Valid() && fresh(buckets)
      ensures View() == Zero()
    {
      requests, bytes, hits, misses, defaults, sumNanos, timed := 0, 0, 0, 0, 0, 0, 0;
      buckets := new U64[BUCKETS + 1](_ => 0);
    }

    method Record(call: Call)
      requires Valid()
      modifies this, buckets
      ensures Valid()
      ensures View() == ApplyAll(old(View()), Adds(call))
    {
      ghost var c0 := View();
      requests := AddU64(requests, 1);
      assert View() == Apply(c0, Add(REQUESTS, 1));
      ghost var c1 := View();
      bytes := AddU64(bytes, call.bytes);
      assert View() == Apply(c1, Add(BYTES, call.bytes));
      ApplyAllPush(c0, [Add(REQUESTS, 1)], Add(BYTES, call.bytes));
      ApplyAllPush(c0, [], Add(REQUESTS, 1));
      ghost var head := [Add(REQUESTS, 1), Add(BYTES, call.bytes)];
      assert head == [Add(REQUESTS, 1)] + [Add(BYTES, call.bytes)] && [] + [Add(REQUESTS, 1)] == [Add(REQUESTS, 1)];
      RecordOutcome(call.outcome);
      ApplyAllConcat(c0, head, OutcomeAdds(call.outcome));
      if call.elapsed.Some? {
        RecordTime(call.elapsed.value);
        ApplyAllConcat(c0, head + OutcomeAdds(call.outcome), TimeAdds(call.elapsed.value));
      } else {
        assert head + OutcomeAdds(call.outcome) + [] == head + OutcomeAdds(call.outcome);
      }
    }

    method RecordOutcome(outcome: Outcome)
      requires Valid()
      modifies this
      ensures Valid()
      ensures View() == ApplyAll(old(View()), OutcomeAdds(outcome))
    {
      ghost var c0 := View();
      match outcome {
        case Hit =>
          hits := AddU64(hits, 1);
          assert View() == Apply(c0, Add(HITS, 1));
        case Miss =>
          misses := AddU64(misses, 1);
          assert View() == Apply(c0, Add(MISSES, 1));
        case Default =>
          misses := AddU64(misses, 1);
          assert View() == Apply(c0, Add(MISSES, 1));
          ghost var c1 := View();
          defaults := AddU64(defaults, 1);
          assert View() == Apply(c1, Add(DEFAULTS, 1));
          ApplyAllPush(c0, [Add(MISSES, 1)], Add(DEFAULTS, 1));
      }
    }

    method RecordTime(nanos: nat)
      requires Valid()
      modifies this, buckets
      ensures Valid()
      ensures View() == ApplyAll(old(View()), TimeAdds(nanos))
    {
      ghost var c0 := View();
      var idx := Bucket(nanos);
      buckets[idx] := AddU64(buckets[idx], 1);
      ghost var first := Add(FIRST_BUCKET + idx, 1);
      assert View() == Apply(c0, first);
      ghost var c1 := View();
      var n := nanos % 0x1_0000_0000_0000_0000;
      sumNanos := AddU64(sumNanos, n);
      assert View() == Apply(c1, Add(SUM_NANOS, n));
      ghost var c2 := View();
      timed := AddU64(timed, 1);
      assert View() == Apply(c2, Add(TIMED, 1));
      ApplyAllPush(c0, [first], Add(SUM_NANOS, n));
      ApplyAllPush(c0, [first, Add(SUM_NANOS, n)], Add(TIMED, 1));
      assert TimeAdds(nanos) == [first, Add(SUM_NANOS, n)] + [Add(TIMED, 1)];
    }

    /** The histogram lines of `render`: one running total per bound, then +Inf. */
    method RenderHistogram() returns (lines: seq<U64>)
      requires Valid()
      ensures lines == Cumulative(View(), BUCKETS + 1)
    {
      ghost var c := View();
      var cumulative: U64 := 0;
      lines := [];
      var i := 0;
      while i < BUCKETS
        invariant 0 <= i <= BUCKETS
        invariant lines == Cumulative(c, i)
        invariant cumulative == Wrapped(BucketSum(c, i))
      {
        assert c[FIRST_BUCKET + i] == buckets[i];
        WrappedSum(BucketSum(c, i), buckets[i]);
        cumulative := AddU64(cumulative, buckets[i]);
        lines := lines + [cumulative];
        i := i + 1;
      }
      assert c[FIRST_BUCKET + i] == buckets[i];
      WrappedSum(BucketSum(c, i), buckets[i]);
      cumulative := AddU64(cumulative, buckets[BUCKETS]);
      lines := lines + [cumulative];
    }
  }

  // ---- What the rendered histogram is ----

  ghost function BucketSum(c: Counters, n: nat): nat
    requires n <= BUCKETS + 1
  {
    if n == 0 then 0 else BucketSum(c, n - 1) + c[FIRST_BUCKET + n - 1]
  }

  /** The first `n` lines: sums of the leading buckets, modulo 2^64. */
  ghost function Cumulative(c: Counters, n: nat): (lines: seq<U64>)
    requires n <= BUCKETS + 1
    ensures |lines| == n
  {
    if n == 0 then [] else Cumulative(c, n - 1) + [Wrapped(BucketSum(c, n))]
  }
}
