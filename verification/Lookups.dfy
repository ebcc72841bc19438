/** Answering lookups, and what the counters say about a whole run of them. */
module Lookups {
  import opened Basics
  import opened Stores
  import opened Metrics
  import opened MetricsRuns

  datatype Response = Response(status: nat, body: Option<Bytes>, isDefault: bool)

  datatype Request = Request(key: Bytes, head: bool, nanos: nat)

  /** The outcome and the response for what the store found. */
  function Answer(found: Option<Bytes>, fallback: Option<Bytes>): (Outcome, Response) {
    match found
    case Some(v) => (Hit, Response(200, Some(v), false))
    case None =>
      match fallback
      case Some(d) => (Default, Response(200, Some(d), true))
      case None => (Miss, Response(404, None, false))
  }

  function BodyLen(r: Response): nat {
    match r.body case Some(b) => |b| case None => 0
  }

  /** Bytes the client receives: none at all for HEAD. */
  function Sent(r: Response, head: bool): nat {
    if head then 0 else BodyLen(r)
  }

  // ---- A run, against the dataset as a plain map ----

  /** The value itself, or the default marked as one, or a 404 without a body. */
  lemma AnswerMeans(m: map<Bytes, Bytes>, fallback: Option<Bytes>, key: Bytes)
    ensures var response := Answer(MapGet(m, key), fallback).1;
            response == if key in m then Response(200, Some(m[key]), false)
                        else Response(if fallback.Some? then 200 else 404, fallback, fallback.Some?)
  {
  }

  function CallOf(m: map<Bytes, Bytes>, fallback: Option<Bytes>, timing: bool, req: Request): Call {
    var (outcome, response) := Answer(MapGet(m, req.key), fallback);
    Call(outcome, Sent(response, req.head), if timing then Some(req.nanos) else None)
  }

  ghost function CallsOf(m: map<Bytes, Bytes>, fallback: Option<Bytes>, timing: bool, reqs: seq<Request>)
    : (calls: seq<Call>)
    ensures |calls| == |reqs|
  {
    seq(|reqs|, i requires 0 <= i < |reqs| => CallOf(m, fallback, timing, reqs[i]))
  }

  lemma CallsOfLast(m: map<Bytes, Bytes>, fallback: Option<Bytes>, timing: bool, reqs: seq<Request>)
    requires reqs != []
    ensures var n := |reqs| - 1;
            CallsOf(m, fallback, timing, reqs)
            == CallsOf(m, fallback, timing, reqs[..n]) + [CallOf(m, fallback, timing, reqs[n])]
  {
  }

  ghost function CountPresent(m: map<Bytes, Bytes>, reqs: seq<Request>): nat {
    if reqs == [] then 0 else CountPresent(m, reqs[..|reqs| - 1]) + One(reqs[|reqs| - 1].key in m)
  }

  /** Bytes sent: the value or the default for each request but HEAD ones. */
  ghost function SumSent(m: map<Bytes, Bytes>, fallback: Option<Bytes>, reqs: seq<Request>): nat {
    if reqs == [] then 0
    else
      var last := reqs[|reqs| - 1];
      SumSent(m, fallback, reqs[..|reqs| - 1])
        + if last.head then 0
          else if last.key in m then |m[last.key]|
          else if fallback.Some? then |fallback.value|
          else 0
  }

  lemma CallShares(m: map<Bytes, Bytes>, fallback: Option<Bytes>, timing: bool, req: Request)
    ensures var call := CallOf(m, fallback, timing, req);
            && Share(call, HITS) == One(req.key in m)
            && Share(call, MISSES) == 1 - One(req.key in m)
            && Share(call, DEFAULTS) == (if fallback.Some? then Share(call, MISSES) else 0)
            && Share(call, BYTES) == SumSent(m, fallback, [req])
  {
  }

  lemma {:induction false} RunTotals(m: map<Bytes, Bytes>, fallback: Option<Bytes>, timing: bool, reqs: seq<Request>)
    ensures var calls := CallsOf(m, fallback, timing, reqs);
            && Total(calls, HITS) == CountPresent(m, reqs)
            && Total(calls, MISSES) == |reqs| - CountPresent(m, reqs)
            && Total(calls, DEFAULTS) == (if fallback.Some? then Total(calls, MISSES) else 0)
            && Total(calls, BYTES) == SumSent(m, fallback, reqs)
  {
    if reqs != [] {
      var n := |reqs| - 1;
      RunTotals(m, fallback, timing, reqs[..n]);
      CallShares(m, fallback, timing, reqs[n]);
      CallsOfLast(m, fallback, timing, reqs);
    }
  }

  /** Requests that took at most `bound`. */
  ghost function CountQuick(reqs: seq<Request>, bound: nat): nat {
    if reqs == [] then 0 else CountQuick(reqs[..|reqs| - 1], bound) + One(reqs[|reqs| - 1].nanos <= bound)
  }

  ghost function SumTimes(reqs: seq<Request>): nat {
    if reqs == [] then 0 else SumTimes(reqs[..|reqs| - 1]) + reqs[|reqs| - 1].nanos
  }

  /** What clients saw: hits are the requests for present keys, misses the rest,
      defaults all misses or none, and the byte counter what was sent. */
  ghost predicate CountsAnswers(c: Counters, m: map<Bytes, Bytes>, fallback: Option<Bytes>, reqs: seq<Request>) {
    && c[REQUESTS] == |reqs| && c[HITS] == CountPresent(m, reqs) && c[MISSES] == |reqs| - CountPresent(m, reqs)
    && c[DEFAULTS] == (if fallback.Some? then c[MISSES] else 0)
    && c[BYTES] == Wrapped(SumSent(m, fallback, reqs))
  }

  /** With timing on, every request is in the time counters and in each histogram
      line whose bound it met; with timing off, none is. */
  ghost predicate CountsTimes(c: Counters, timing: bool, reqs: seq<Request>) {
    && c[TIMED] == (if timing then |reqs| else 0)
    && c[SUM_NANOS] == (if timing then Wrapped(SumTimes(reqs)) else 0)
    && forall j | 0 <= j < BUCKETS ::
         Cumulative(c, BUCKETS + 1)[j] == if timing then CountQuick(reqs, Bound(j)) else 0
  }

  lemma {:induction false} RunTimes(
    m: map<Bytes, Bytes>, fallback: Option<Bytes>, timing: bool, reqs: seq<Request>, bound: nat)
    ensures var calls := CallsOf(m, fallback, timing, reqs);
            && CountTimed(calls) == (if timing then |reqs| else 0)
            && SumNanos(calls) == (if timing then SumTimes(reqs) else 0)
            && CountWithin(calls, bound) == (if timing then CountQuick(reqs, bound) else 0)
  {
    if reqs != [] {
      var n := |reqs| - 1;
      RunTimes(m, fallback, timing, reqs[..n], bound);
      CallsOfLast(m, fallback, timing, reqs);
    }
  }

  /** Counters that tally a run count its answers and its times. */
  lemma WholeRunAccounting(c: Counters, m: map<Bytes, Bytes>, fallback: Option<Bytes>, timing: bool, reqs: seq<Request>)
    requires Tallies(c, CallsOf(m, fallback, timing, reqs)) && |reqs| < TWO64
    ensures CountsAnswers(c, m, fallback, reqs)
    ensures CountsTimes(c, timing, reqs)
  {
    AnswersAreCounted(c, m, fallback, timing, reqs);
    TimesAreCounted(c, m, fallback, timing, reqs);
  }

  lemma AnswersAreCounted(c: Counters, m: map<Bytes, Bytes>, fallback: Option<Bytes>, timing: bool, reqs: seq<Request>)
    requires Tallies(c, CallsOf(m, fallback, timing, reqs)) && |reqs| < TWO64
    ensures CountsAnswers(c, m, fallback, reqs)
  {
    var calls := CallsOf(m, fallback, timing, reqs);
    RunTotals(m, fallback, timing, reqs);
    TotalsAgree(calls);
    SlotIs(c, calls, REQUESTS);
    SlotIs(c, calls, HITS);
    SlotIs(c, calls, MISSES);
    SlotIs(c, calls, DEFAULTS);
  }

  lemma TimesAreCounted(c: Counters, m: map<Bytes, Bytes>, fallback: Option<Bytes>, timing: bool, reqs: seq<Request>)
    requires Tallies(c, CallsOf(m, fallback, timing, reqs)) && |reqs| < TWO64
    ensures CountsTimes(c, timing, reqs)
  {
    var calls := CallsOf(m, fallback, timing, reqs);
    CountersAddUp(c, calls);
    HistogramMeans(c, calls);
    RunTimes(m, fallback, timing, reqs, 0);
    forall j | 0 <= j < BUCKETS
      ensures Cumulative(c, BUCKETS + 1)[j] == if timing then CountQuick(reqs, Bound(j)) else 0
    {
      RunTimes(m, fallback, timing, reqs, Bound(j));
    }
  }

  /** Lookups in flight together, their additions interleaved in any way: once all
      are answered the counters account for every one of them. */
  lemma ConcurrentLookupsAccount(
    m: map<Bytes, Bytes>, fallback: Option<Bytes>, timing: bool, reqs: seq<Request>, schedule: seq<nat>, end: Pool)
    requires RunsTo(Launch(CallsOf(m, fallback, timing, reqs)), schedule, end) && Idle(end) && |reqs| < TWO64
    ensures CountsAnswers(end.counters, m, fallback, reqs)
    ensures CountsTimes(end.counters, timing, reqs)
  {
    AnyInterleavingTallies(CallsOf(m, fallback, timing, reqs), schedule, end);
    WholeRunAccounting(end.counters, m, fallback, timing, reqs);
  }

  // ---- The server state ----

  /** The account after one more request. */
  lemma ServedOneMore(m: map<Bytes, Bytes>, fallback: Option<Bytes>, timing: bool, reqs: seq<Request>, req: Request)
    ensures AfterCalls(CallsOf(m, fallback, timing, reqs + [req]))
            == ApplyAll(AfterCalls(CallsOf(m, fallback, timing, reqs)), Adds(CallOf(m, fallback, timing, req)))
  {
    assert (reqs + [req])[..|reqs|] == reqs;
    CallsOfLast(m, fallback, timing, reqs + [req]);
    AfterOneMore(CallsOf(m, fallback, timing, reqs), CallOf(m, fallback, timing, req));
  }

  ghost predicate Represents(s: Store, m: map<Bytes, Bytes>)
    requires s.Valid()
    reads s, s.table, s.table.buckets
  {
    forall key :: s.Get(key) == MapGet(m, key)
  }

  class AppState {
    const store: Store
    const metrics: Metrics
    const fallback: Option<Bytes>
    const timing: bool
    ghost const dataset: map<Bytes, Bytes>
    ghost var served: seq<Request>

    /** The counters are the account of every request served so far. */
    ghost predicate Valid()
      reads this, store, store.table, store.table.buckets, metrics, metrics.buckets
    {
      && store.Valid() && metrics.Valid()
      && metrics.buckets as object != store.table.buckets
      && Represents(store, dataset)
      && metrics.View() == AfterCalls(CallsOf(dataset, fallback, timing, served))
    }

    constructor (store: Store, fallback: Option<Bytes>, timing: bool, ghost entries: seq<Entry>)
      requires store.Valid() && store.table.Items() == multiset(entries)
      requires AllInRange(store.arena, entries) && DistinctKeys(store.arena, entries)
      ensures Valid() && served == [] && fresh(metrics) && fresh(metrics.buckets)
      ensures this.store == store && this.fallback == fallback && this.timing == timing
      ensures dataset == Contents(store.arena, entries)
    {
      this.store, this.fallback, this.timing := store, fallback, timing;
      var m := new Metrics();
      this.metrics := m;
      this.dataset := Contents(store.arena, entries);
      this.served := [];
      new;
      forall key
        ensures store.Get(key) == MapGet(dataset, key)
      {
        StoreRefinesMap(store, entries, key);
      }
    }

    /** `nanos` is the time the request took; it is recorded only when timing. */
    method Lookup(key: Bytes, head: bool, nanos: nat) returns (response: Response)
      requires Valid()
      modifies this, metrics, metrics.buckets
      ensures Valid() && served == old(served) + [Request(key, head, nanos)]
      ensures key in dataset ==> response == Response(200, Some(dataset[key]), false)
      ensures key !in dataset ==> response == Response(if fallback.Some? then 200 else 404, fallback, fallback.Some?)
    {
      var outcome, len;
      outcome, response, len := Choose(store.Get(key), fallback, head);
      AnswerMeans(dataset, fallback, key);
      Account(Call(outcome, len, if timing then Some(nanos) else None), Request(key, head, nanos));
    }

    /** Records one answered request. */
    method Account(call: Call, ghost req: Request)
      requires Valid() && call == CallOf(dataset, fallback, timing, req)
      modifies this, metrics, metrics.buckets
      ensures Valid() && served == old(served) + [req]
    {
      ghost var before := served;
      metrics.Record(call);
      served := before + [req];
      ServedOneMore(dataset, fallback, timing, before, req);
    }

    /** What the counters of a running server say about the requests it served. */
    lemma ServedIsAccounted()
      requires Valid() && |served| < TWO64
      ensures CountsAnswers(metrics.View(), dataset, fallback, served)
      ensures CountsTimes(metrics.View(), timing, served)
      ensures metrics.requests == |served| && metrics.hits == CountPresent(dataset, served)
      ensures metrics.misses == |served| - CountPresent(dataset, served)
      ensures metrics.defaults == if fallback.Some? then metrics.misses else 0
      ensures metrics.bytes == Wrapped(SumSent(dataset, fallback, served))
      ensures metrics.timed == if timing then |served| else 0
      ensures metrics.sumNanos == if timing then Wrapped(SumTimes(served)) else 0
    {
      SequenceTallies(CallsOf(dataset, fallback, timing, served));
      WholeRunAccounting(metrics.View(), dataset, fallback, timing, served);
    }
  }

  /** The match of the handler: hit, default or miss, and the bytes to account. */
  method Choose(found: Option<Bytes>, fallback: Option<Bytes>, head: bool)
    returns (outcome: Outcome, response: Response, len: nat)
    ensures (outcome, response) == Answer(found, fallback)
    ensures len == Sent(response, head)
  {
    var body, status, isDefault;
    match found {
      case Some(v) => outcome, body, status, isDefault := Hit, Some(v), 200, false;
      case None =>
        match fallback {
          case Some(d) => outcome, body, status, isDefault := Default, Some(d), 200, true;
          case None => outcome, body, status, isDefault := Miss, None, 404, false;
        }
    }
    len := if head then 0 else match body case Some(b) => |b| case None => 0;
    response := Response(status, body, isDefault);
  }
}
