/** What validating a dataset must report, row by row, with no hash index, no
    arena offsets and no loop state: every clause looks at the rows alone. */
module CsvSpec {
  import opened Basics
  import opened Stores
  import opened Datasets

  datatype LoadOptions = LoadOptions(delimiter: Byte, hasHeader: bool, allowBinary: bool)

  /** One answer of the record reader. `pos` is the line the reader attaches. */
  datatype Event = Record(pos: Option<nat>, fields: seq<Bytes>) | Malformed(msg: string)

  datatype ErrorKind =
    | WrongColumnCount(found: nat)
    | DuplicateKey(key: Bytes, firstLine: nat)
    | InvalidUtf8Value
    | MalformedRow(msg: string)
    | TooLarge

  datatype DataError = DataError(line: nat, kind: ErrorKind)

  datatype Parts = Parts(arena: Bytes, entries: seq<Entry>)

  /** Whether values must be checked, and the check itself. */
  datatype ValueRule = ValueRule(allowBinary: bool, isUtf8: Bytes -> bool) {
    predicate Rejects(val: Bytes) {
      !allowBinary && !isUtf8(val)
    }
  }

  predicate IsPair(e: Event) {
    e.Record? && |e.fields| == 2
  }

  /** The reader's position after `i` events. */
  function PosBefore(events: seq<Event>, i: nat): Option<nat>
    requires i <= |events|
  {
    if i > 0 && events[i - 1].Record? then events[i - 1].pos else None
  }

  function NextLine(pos: Option<nat>): nat {
    (match pos case Some(line) => line case None => 0) + 1
  }

  function LineOf(events: seq<Event>, i: nat): nat
    requires i < |events| && events[i].Record?
  {
    match events[i].pos
    case Some(line) => line
    case None => NextLine(PosBefore(events, i))
  }

  /** The first of the first `n` events that is a two-field row with this key. */
  function EarliestRow(events: seq<Event>, key: Bytes, n: nat): (r: Option<nat>)
    requires n <= |events|
    ensures r.Some? ==>
              && r.value < n && IsPair(events[r.value]) && events[r.value].fields[0] == key
              && forall j | 0 <= j < r.value && IsPair(events[j]) :: events[j].fields[0] != key
    ensures r.None? ==> forall j | 0 <= j < n && IsPair(events[j]) :: events[j].fields[0] != key
  {
    if n == 0 then None
    else
      match EarliestRow(events, key, n - 1)
      case Some(j) => Some(j)
      case None => if IsPair(events[n - 1]) && events[n - 1].fields[0] == key then Some(n - 1) else None
  }

  /** A two-field row whose key no earlier two-field row has. */
  ghost predicate Fresh(events: seq<Event>, i: nat)
    requires i < |events|
  {
    IsPair(events[i]) && EarliestRow(events, events[i].fields[0], i).None?
  }

  ghost function RowAt(events: seq<Event>, i: nat): Row
    requires i < |events| && IsPair(events[i])
  {
    Row(LineOf(events, i), events[i].fields[0], events[i].fields[1])
  }

  /** The fresh rows among the first `n` events. */
  ghost function Kept(events: seq<Event>, n: nat): seq<Row>
    requires n <= |events|
  {
    if n == 0 then []
    else Kept(events, n - 1) + (if Fresh(events, n - 1) then [RowAt(events, n - 1)] else [])
  }

  /** Reading ends at a malformed event, or at a fresh row that would take the
      bytes kept so far past what 32-bit offsets reach. */
  ghost predicate StopsAt(events: seq<Event>, i: nat)
    requires i < |events|
  {
    match events[i]
    case Malformed(_) => true
    case Record(_, fields) => Fresh(events, i) && |Packed(Kept(events, i))| + |fields[0]| + |fields[1]| > U32_MAX
  }

  ghost function StopIndex(events: seq<Event>, from: nat): (stop: nat)
    requires from <= |events|
    ensures from <= stop <= |events|
    ensures stop < |events| ==> StopsAt(events, stop)
    ensures forall i | from <= i < stop :: !StopsAt(events, i)
    decreases |events| - from
  {
    if from == |events| || StopsAt(events, from) then from else StopIndex(events, from + 1)
  }

  lemma {:induction false} StopIndexIs(events: seq<Event>, from: nat, stop: nat)
    requires from <= stop <= |events|
    requires stop < |events| ==> StopsAt(events, stop)
    requires forall i | from <= i < stop :: !StopsAt(events, i)
    ensures StopIndex(events, from) == stop
    decreases stop - from
  {
    if from < stop {
      StopIndexIs(events, from + 1, stop);
    }
  }

  /** Everything wrong with event `i` by itself. The duplicate and the value
      check are independent; neither hides the other. */
  ghost function RowErrors(events: seq<Event>, i: nat, rule: ValueRule): seq<DataError>
    requires i < |events|
  {
    match events[i]
    case Malformed(_) => []
    case Record(_, fields) =>
      var line := LineOf(events, i);
      if |fields| != 2 then [DataError(line, WrongColumnCount(|fields|))]
      else DuplicateErrors(events, i) + ValueErrors(line, fields[1], rule)
  }

  ghost function DuplicateErrors(events: seq<Event>, i: nat): seq<DataError>
    requires i < |events| && IsPair(events[i])
  {
    var key := events[i].fields[0];
    match EarliestRow(events, key, i)
    case None => []
    case Some(first) => [DataError(LineOf(events, i), DuplicateKey(key, LineOf(events, first)))]
  }

  function ValueErrors(line: nat, val: Bytes, rule: ValueRule): seq<DataError> {
    if rule.Rejects(val) then [DataError(line, InvalidUtf8Value)] else []
  }

  ghost function ErrorsUpTo(events: seq<Event>, n: nat, rule: ValueRule): seq<DataError>
    requires n <= |events|
  {
    if n == 0 then [] else ErrorsUpTo(events, n - 1, rule) + RowErrors(events, n - 1, rule)
  }

  /** The errors of the row that ends the reading. */
  ghost function StopErrors(events: seq<Event>, stop: nat, rule: ValueRule): seq<DataError>
    requires stop <= |events|
  {
    if stop == |events| then []
    else
      match events[stop]
      case Malformed(msg) => [DataError(NextLine(PosBefore(events, stop)), MalformedRow(msg))]
      case Record(_, _) => RowErrors(events, stop, rule) + [DataError(LineOf(events, stop), TooLarge)]
  }

  ghost function ExpectedErrors(events: seq<Event>, rule: ValueRule): seq<DataError> {
    var stop := StopIndex(events, 0);
    ErrorsUpTo(events, stop, rule) + StopErrors(events, stop, rule)
  }

  /** All or nothing: the packed dataset, or every error. */
  ghost function ParseSpec(events: seq<Event>, rule: ValueRule): Result<Parts, seq<DataError>> {
    var errors := ExpectedErrors(events, rule);
    if errors != [] then Err(errors)
    else
      KeptFits(events, |events|, rule);
      var rows := Kept(events, |events|);
      Ok(Parts(Packed(rows), Layout(rows)))
  }

  lemma NoErrorsNoStop(events: seq<Event>, rule: ValueRule)
    requires ExpectedErrors(events, rule) == []
    ensures forall i | 0 <= i < |events| :: !StopsAt(events, i)
    ensures ErrorsUpTo(events, |events|, rule) == []
  {
    assert StopErrors(events, StopIndex(events, 0), rule) == [];
  }

  lemma {:induction false} KeptFitsBefore(events: seq<Event>, n: nat)
    requires n <= |events|
    requires forall i | 0 <= i < n :: !StopsAt(events, i)
    ensures Fits(Kept(events, n))
  {
    if n > 0 {
      KeptFitsBefore(events, n - 1);
      if Fresh(events, n - 1) {
        assert Kept(events, n)[..|Kept(events, n)| - 1] == Kept(events, n - 1);
        assert !StopsAt(events, n - 1);
      } else {
        assert Kept(events, n) == Kept(events, n - 1);
      }
    }
  }

  lemma KeptFits(events: seq<Event>, n: nat, rule: ValueRule)
    requires ExpectedErrors(events, rule) == [] && n <= |events|
    ensures Fits(Kept(events, n))
  {
    NoErrorsNoStop(events, rule);
    KeptFitsBefore(events, n);
  }

  // ---- Kept rows and earliest rows ----

  /** A kept row with some key is the earliest row with that key, line included. */
  lemma {:induction false} KeptIsEarliest(events: seq<Event>, n: nat, p: nat)
    requires n <= |events| && p < |Kept(events, n)|
    ensures var first := EarliestRow(events, Kept(events, n)[p].key, n);
            first.Some? && Kept(events, n)[p] == RowAt(events, first.value)
  {
    if p < |Kept(events, n - 1)| {
      KeptIsEarliest(events, n - 1, p);
      assert Kept(events, n)[p] == Kept(events, n - 1)[p];
    }
  }

  lemma {:induction false} EarliestIsKept(events: seq<Event>, n: nat, key: Bytes) returns (p: nat)
    requires n <= |events| && EarliestRow(events, key, n).Some?
    ensures p < |Kept(events, n)| && Kept(events, n)[p].key == key
  {
    if EarliestRow(events, key, n - 1).Some? {
      p := EarliestIsKept(events, n - 1, key);
      assert Kept(events, n)[p] == Kept(events, n - 1)[p];
    } else {
      p := |Kept(events, n - 1)|;
    }
  }

  lemma {:induction false} KeptDistinct(events: seq<Event>, n: nat, i: nat, j: nat)
    requires n <= |events| && i < j < |Kept(events, n)|
    ensures Kept(events, n)[i].key != Kept(events, n)[j].key
  {
    var before := Kept(events, n - 1);
    assert Kept(events, n)[i] == before[i];
    if j < |before| {
      KeptDistinct(events, n - 1, i, j);
      assert Kept(events, n)[j] == before[j];
    } else {
      KeptIsEarliest(events, n - 1, i);
    }
  }

  // ---- When a dataset is accepted ----

  ghost predicate AllPairs(events: seq<Event>) {
    forall i | 0 <= i < |events| :: IsPair(events[i])
  }

  /** Two fields in every row, no key twice, no rejected value, and keys and
      values together within 32-bit offsets. */
  ghost predicate Clean(events: seq<Event>, rule: ValueRule) {
    && AllPairs(events)
    && (forall i, j | 0 <= i < j < |events| :: events[i].fields[0] != events[j].fields[0])
    && (forall i | 0 <= i < |events| :: rule.allowBinary || rule.isUtf8(events[i].fields[1]))
    && Fits(AllRows(events))
  }

  ghost function AllRows(events: seq<Event>): (rows: seq<Row>)
    requires AllPairs(events)
    ensures |rows| == |events|
  {
    seq(|events|, i requires 0 <= i < |events| => RowAt(events, i))
  }

  lemma {:induction false} DistinctRowsAreAllKept(events: seq<Event>, n: nat)
    requires AllPairs(events) && n <= |events|
    requires forall i | 0 <= i < n :: Fresh(events, i)
    ensures Kept(events, n) == AllRows(events)[..n]
  {
    if n > 0 {
      DistinctRowsAreAllKept(events, n - 1);
    }
  }

  lemma {:induction false} NoErrorsNoRowErrors(events: seq<Event>, n: nat, i: nat, rule: ValueRule)
    requires i < n <= |events| && ErrorsUpTo(events, n, rule) == []
    ensures RowErrors(events, i, rule) == []
  {
    if i < n - 1 {
      NoErrorsNoRowErrors(events, n - 1, i, rule);
    }
  }

  lemma {:induction false} NoRowErrorsNoErrors(events: seq<Event>, n: nat, rule: ValueRule)
    requires n <= |events| && forall i | 0 <= i < n :: RowErrors(events, i, rule) == []
    ensures ErrorsUpTo(events, n, rule) == []
  {
    if n > 0 {
      NoRowErrorsNoErrors(events, n - 1, rule);
    }
  }

  // ---- What may be on the list, read off the events alone ----

  /** The line shown for event `i`: the reader's own, or else one past the line of
      the record before it, or 1. */
  ghost predicate ShownAt(events: seq<Event>, i: nat, line: nat)
    requires i < |events|
  {
    if events[i].Record? && events[i].pos.Some? then line == events[i].pos.value
    else if i > 0 && events[i - 1].Record? && events[i - 1].pos.Some? then line == events[i - 1].pos.value + 1
    else line == 1
  }

  /** Row `j` has two fields and no earlier two-field row has its key. */
  ghost predicate IsFirst(events: seq<Event>, key: Bytes, j: nat)
    requires j < |events|
  {
    && events[j].Record? && |events[j].fields| == 2 && events[j].fields[0] == key
    && forall k | 0 <= k < j && events[k].Record? && |events[k].fields| == 2 :: events[k].fields[0] != key
  }

  ghost predicate IsNew(events: seq<Event>, i: nat)
    requires i < |events|
  {
    events[i].Record? && |events[i].fields| == 2 && IsFirst(events, events[i].fields[0], i)
  }

  /** Bytes of the rows among the first `n` events that bring a new key. */
  ghost function NewBytes(events: seq<Event>, n: nat): nat
    requires n <= |events|
  {
    if n == 0 then 0
    else
      NewBytes(events, n - 1)
        + if IsNew(events, n - 1) then |events[n - 1].fields[0]| + |events[n - 1].fields[1]| else 0
  }

  /** Event `i` is looked at: nothing malformed before it, and what came before
      still within 32-bit offsets. */
  ghost predicate IsRead(events: seq<Event>, i: nat)
    requires i <= |events|
  {
    (forall j | 0 <= j < i :: events[j].Record?) && NewBytes(events, i) <= 0xFFFF_FFFF
  }

  /** Why an error may be on the list: read off event `i` and those before it. */
  ghost predicate Causes(events: seq<Event>, i: nat, e: DataError, rule: ValueRule)
    requires i < |events|
  {
    && ShownAt(events, i, e.line)
    && match events[i]
       case Malformed(msg) => e.kind == MalformedRow(msg)
       case Record(_, fields) =>
         match e.kind
         case WrongColumnCount(found) => |fields| != 2 && found == |fields|
         case InvalidUtf8Value => |fields| == 2 && !rule.allowBinary && !rule.isUtf8(fields[1])
         case TooLarge => IsNew(events, i) && NewBytes(events, i + 1) > 0xFFFF_FFFF
         case MalformedRow(_) => false
         case DuplicateKey(key, firstLine) =>
           && |fields| == 2 && key == fields[0]
           && exists j | 0 <= j < i :: IsFirst(events, key, j) && ShownAt(events, j, firstLine)
  }

  lemma FirstIsEarliest(events: seq<Event>, key: Bytes, j: nat, n: nat)
    requires j < n <= |events|
    ensures IsFirst(events, key, j) <==> EarliestRow(events, key, n) == Some(j)
  {
    assert forall k | 0 <= k < j :: IsPair(events[k]) <==> events[k].Record? && |events[k].fields| == 2;
  }

  lemma NewIsFresh(events: seq<Event>, i: nat)
    requires i < |events|
    ensures IsNew(events, i) <==> Fresh(events, i)
  {
    if IsPair(events[i]) {
      FirstIsEarliest(events, events[i].fields[0], i, i + 1);
    }
  }

  lemma {:induction false} NewBytesArePacked(events: seq<Event>, n: nat)
    requires n <= |events|
    ensures NewBytes(events, n) == |Packed(Kept(events, n))|
  {
    if n > 0 {
      NewBytesArePacked(events, n - 1);
      NewIsFresh(events, n - 1);
      if Fresh(events, n - 1) {
        assert Kept(events, n)[..|Kept(events, n - 1)|] == Kept(events, n - 1);
        assert Kept(events, n)[|Kept(events, n - 1)|] == RowAt(events, n - 1);
      } else {
        assert Kept(events, n) == Kept(events, n - 1);
      }
    }
  }

  /** Where reading stops, in terms of the fields. */
  lemma StopMeans(events: seq<Event>, i: nat)
    requires i < |events|
    ensures StopsAt(events, i) <==>
              events[i].Malformed? || (IsNew(events, i) && NewBytes(events, i + 1) > 0xFFFF_FFFF)
  {
    NewIsFresh(events, i);
    NewBytesArePacked(events, i);
  }

  lemma {:induction false} ReadMeans(events: seq<Event>, i: nat)
    requires i <= |events|
    ensures IsRead(events, i) <==> forall j | 0 <= j < i :: !StopsAt(events, j)
  {
    if i > 0 {
      ReadMeans(events, i - 1);
      StopMeans(events, i - 1);
    }
  }

  lemma RowErrorsAreCaused(events: seq<Event>, i: nat, e: DataError, rule: ValueRule)
    requires i < |events| && !StopsAt(events, i)
    ensures e in RowErrors(events, i, rule) <==> Causes(events, i, e, rule)
  {
    StopMeans(events, i);
    if IsPair(events[i]) {
      forall j | 0 <= j < i
        ensures IsFirst(events, events[i].fields[0], j) <==> EarliestRow(events, events[i].fields[0], i) == Some(j)
      {
        FirstIsEarliest(events, events[i].fields[0], j, i);
      }
    }
  }

  lemma StopErrorsAreCaused(events: seq<Event>, stop: nat, e: DataError, rule: ValueRule)
    requires stop < |events| && StopsAt(events, stop)
    ensures e in StopErrors(events, stop, rule) <==> Causes(events, stop, e, rule)
  {
    StopMeans(events, stop);
    if IsPair(events[stop]) {
      forall j | 0 <= j < stop
        ensures !IsFirst(events, events[stop].fields[0], j)
      {
        FirstIsEarliest(events, events[stop].fields[0], j, stop);
      }
    }
  }

  /** One of the first `n` events causes the error. */
  ghost predicate CausedBefore(events: seq<Event>, n: nat, e: DataError, rule: ValueRule)
    requires n <= |events|
  {
    n > 0 && (CausedBefore(events, n - 1, e, rule) || Causes(events, n - 1, e, rule))
  }

  lemma {:induction false} CausedBeforeMeans(events: seq<Event>, n: nat, e: DataError, rule: ValueRule)
    requires n <= |events|
    ensures CausedBefore(events, n, e, rule) <==> exists i | 0 <= i < n :: Causes(events, i, e, rule)
  {
    if n > 0 {
      CausedBeforeMeans(events, n - 1, e, rule);
    }
  }

  lemma InConcat(a: seq<DataError>, b: seq<DataError>, e: DataError)
    ensures e in a + b <==> e in a || e in b
  {
  }

  lemma ErrorsUpToNext(events: seq<Event>, n: nat, e: DataError, rule: ValueRule)
    requires n < |events| && !StopsAt(events, n)
    ensures e in ErrorsUpTo(events, n + 1, rule) <==> e in ErrorsUpTo(events, n, rule) || Causes(events, n, e, rule)
  {
    RowErrorsAreCaused(events, n, e, rule);
    InConcat(ErrorsUpTo(events, n, rule), RowErrors(events, n, rule), e);
  }

  lemma ErrorsUpToStep(events: seq<Event>, n: nat, e: DataError, rule: ValueRule)
    requires n < |events| && !StopsAt(events, n)
    requires e in ErrorsUpTo(events, n, rule) <==> CausedBefore(events, n, e, rule)
    ensures e in ErrorsUpTo(events, n + 1, rule) <==> CausedBefore(events, n + 1, e, rule)
  {
    ErrorsUpToNext(events, n, e, rule);
  }

  lemma {:induction false} ErrorsUpToAreCaused(events: seq<Event>, n: nat, e: DataError, rule: ValueRule)
    requires n <= |events| && forall i | 0 <= i < n :: !StopsAt(events, i)
    ensures e in ErrorsUpTo(events, n, rule) <==> CausedBefore(events, n, e, rule)
  {
    if n > 0 {
      ErrorsUpToAreCaused(events, n - 1, e, rule);
      ErrorsUpToStep(events, n - 1, e, rule);
    }
  }

  /** How many events are read: up to and including the one that stops. */
  ghost function Reached(events: seq<Event>): (n: nat)
    ensures n <= |events|
  {
    var stop := StopIndex(events, 0);
    if stop == |events| then stop else stop + 1
  }

  lemma ReachedMeans(events: seq<Event>, i: nat)
    requires i < |events|
    ensures i < Reached(events) <==> IsRead(events, i)
  {
    ReadMeans(events, i);
  }

  ghost predicate Caused(events: seq<Event>, e: DataError, rule: ValueRule) {
    exists i | 0 <= i < |events| :: IsRead(events, i) && Causes(events, i, e, rule)
  }

  /** The error list is exact: an error is reported if and only if some row that
      is read causes it. */
  lemma ErrorsAreExact(events: seq<Event>, e: DataError, rule: ValueRule)
    ensures e in ExpectedErrors(events, rule) <==> Caused(events, e, rule)
  {
    ErrorsAreCaused(events, e, rule);
    CausedBeforeMeans(events, Reached(events), e, rule);
    forall i | 0 <= i < |events|
      ensures i < Reached(events) <==> IsRead(events, i)
    {
      ReachedMeans(events, i);
    }
  }

  lemma ErrorsAreCaused(events: seq<Event>, e: DataError, rule: ValueRule)
    ensures e in ExpectedErrors(events, rule) <==> CausedBefore(events, Reached(events), e, rule)
  {
    var stop := StopIndex(events, 0);
    ErrorsUpToAreCaused(events, stop, e, rule);
    if stop < |events| {
      StopErrorsAreCaused(events, stop, e, rule);
      InConcat(ErrorsUpTo(events, stop, rule), StopErrors(events, stop, rule), e);
    }
  }

  /** Bytes of all two-field rows among the first `n` events, repeated keys
      included. */
  ghost function TwoFieldBytes(events: seq<Event>, n: nat): nat
    requires n <= |events|
  {
    if n == 0 then 0
    else
      TwoFieldBytes(events, n - 1)
        + match events[n - 1]
          case Malformed(_) => 0
          case Record(_, fields) => if |fields| == 2 then |fields[0]| + |fields[1]| else 0
  }

  lemma {:induction false} NewBytesAreBounded(events: seq<Event>, n: nat, m: nat)
    requires n <= m <= |events|
    ensures NewBytes(events, n) <= NewBytes(events, m) <= TwoFieldBytes(events, m)
  {
    if n < m {
      NewBytesAreBounded(events, n, m - 1);
    } else if m > 0 {
      NewBytesAreBounded(events, m - 1, m - 1);
    }
  }

  /** A small well-formed dataset is read to its end: every row without two fields
      is reported under its own line, and nothing is reported as too large. */
  lemma SmallDatasetIsReadThrough(events: seq<Event>, rule: ValueRule)
    requires forall i | 0 <= i < |events| :: events[i].Record?
    requires TwoFieldBytes(events, |events|) <= 0xFFFF_FFFF
    ensures forall i | 0 <= i < |events| && |events[i].fields| != 2 && events[i].pos.Some? ::
              DataError(events[i].pos.value, WrongColumnCount(|events[i].fields|)) in ExpectedErrors(events, rule)
    ensures forall e | e in ExpectedErrors(events, rule) :: e.kind != TooLarge
  {
    forall i | 0 <= i < |events| && |events[i].fields| != 2 && events[i].pos.Some?
      ensures DataError(events[i].pos.value, WrongColumnCount(|events[i].fields|)) in ExpectedErrors(events, rule)
    {
      var e := DataError(events[i].pos.value, WrongColumnCount(|events[i].fields|));
      NewBytesAreBounded(events, i, |events|);
      assert IsRead(events, i) && Causes(events, i, e, rule);
      ErrorsAreExact(events, e, rule);
    }
    TooLargeExactly(events, rule);
    forall n | 0 <= n <= |events|
      ensures NewBytes(events, n) <= 0xFFFF_FFFF
    {
      NewBytesAreBounded(events, n, |events|);
    }
  }

  /** A dataset is reported as too large exactly when the new rows among some
      leading events, none of them malformed, pass 2^32 - 1 bytes. */
  lemma TooLargeExactly(events: seq<Event>, rule: ValueRule)
    ensures (exists e | e in ExpectedErrors(events, rule) :: e.kind == TooLarge) <==>
            exists n | 0 <= n <= |events| ::
              NewBytes(events, n) > 0xFFFF_FFFF && forall j | 0 <= j < n :: events[j].Record?
  {
    if e :| e in ExpectedErrors(events, rule) && e.kind == TooLarge {
      var n := TooLargeHasCause(events, e, rule);
    }
    if n :| 0 <= n <= |events| && NewBytes(events, n) > 0xFFFF_FFFF && forall j | 0 <= j < n :: events[j].Record? {
      var e := OverflowIsListed(events, n, rule);
    }
  }

  lemma TooLargeHasCause(events: seq<Event>, e: DataError, rule: ValueRule) returns (n: nat)
    requires e in ExpectedErrors(events, rule) && e.kind == TooLarge
    ensures n <= |events| && NewBytes(events, n) > 0xFFFF_FFFF && forall j | 0 <= j < n :: events[j].Record?
  {
    ErrorsAreExact(events, e, rule);
    var i :| 0 <= i < |events| && IsRead(events, i) && Causes(events, i, e, rule);
    n := i + 1;
  }

  lemma OverflowIsListed(events: seq<Event>, n: nat, rule: ValueRule) returns (e: DataError)
    requires n <= |events| && NewBytes(events, n) > 0xFFFF_FFFF && forall j | 0 <= j < n :: events[j].Record?
    ensures e in ExpectedErrors(events, rule) && e.kind == TooLarge
  {
    var k := FirstOverflow(events, n);
    e := DataError(LineOf(events, k), TooLarge);
    assert IsRead(events, k) && Causes(events, k, e, rule);
    ErrorsAreExact(events, e, rule);
  }

  lemma {:induction false} FirstOverflow(events: seq<Event>, n: nat) returns (k: nat)
    requires n <= |events| && NewBytes(events, n) > 0xFFFF_FFFF
    ensures k < n && NewBytes(events, k) <= 0xFFFF_FFFF < NewBytes(events, k + 1) && IsNew(events, k)
  {
    if NewBytes(events, n - 1) <= 0xFFFF_FFFF {
      k := n - 1;
    } else {
      k := FirstOverflow(events, n - 1);
    }
  }

  // ---- Order and multiplicity ----

  /** Within one row: duplicate, then value, then size. */
  function Rank(kind: ErrorKind): nat {
    match kind
    case InvalidUtf8Value => 1
    case TooLarge => 2
    case _ => 0
  }

  /** The errors of row `i`: each caused by it, in rank order, none missing. */
  ghost predicate RowListing(events: seq<Event>, i: nat, rule: ValueRule, errors: seq<DataError>)
    requires i < |events|
  {
    && (forall k | 0 <= k < |errors| :: Causes(events, i, errors[k], rule))
    && (forall k, l | 0 <= k < l < |errors| :: Rank(errors[k].kind) < Rank(errors[l].kind))
    && (forall e | Causes(events, i, e, rule) :: e in errors)
  }

  /** `rows[k]` is the row that error `k` belongs to: rows in order, the errors of
      one row in rank order, and no cause among the first `n` rows unreported. */
  ghost predicate Listing(events: seq<Event>, n: nat, rule: ValueRule, errors: seq<DataError>, rows: seq<nat>)
    requires n <= |events|
  {
    && |rows| == |errors|
    && (forall k | 0 <= k < |rows| :: rows[k] < n && Causes(events, rows[k], errors[k], rule))
    && (forall k, l | 0 <= k < l < |rows| ::
          rows[k] < rows[l] || (rows[k] == rows[l] && Rank(errors[k].kind) < Rank(errors[l].kind)))
    && (forall i, e | 0 <= i < n && Causes(events, i, e, rule) :: ListedFor(errors, rows, i, e))
  }

  ghost predicate ListedFor(errors: seq<DataError>, rows: seq<nat>, i: nat, e: DataError)
    requires |rows| == |errors|
  {
    exists k | 0 <= k < |rows| :: rows[k] == i && errors[k] == e
  }

  function Extended(rows: seq<nat>, n: nat, count: nat): (rows': seq<nat>)
    ensures |rows'| == |rows| + count
    ensures forall k | 0 <= k < |rows| :: rows'[k] == rows[k]
    ensures forall k | |rows| <= k < |rows'| :: rows'[k] == n
  {
    rows + seq(count, _ => n)
  }

  lemma ListingExtendsOrder(events: seq<Event>, n: nat, rule: ValueRule, errors: seq<DataError>, rows: seq<nat>,
                            more: seq<DataError>, k: nat, l: nat)
    requires n < |events| && Listing(events, n, rule, errors, rows) && RowListing(events, n, rule, more)
    requires k < l < |errors + more|
    ensures var rows', errors' := Extended(rows, n, |more|), errors + more;
            rows'[k] < rows'[l] || (rows'[k] == rows'[l] && Rank(errors'[k].kind) < Rank(errors'[l].kind))
  {
    if k >= |errors| {
      assert more[k - |errors|] == (errors + more)[k] && more[l - |errors|] == (errors + more)[l];
    }
  }

  lemma ListedExtends(errors: seq<DataError>, rows: seq<nat>, n: nat, more: seq<DataError>, i: nat, e: DataError)
    requires |rows| == |errors|
    requires ListedFor(errors, rows, i, e) || (i == n && e in more)
    ensures ListedFor(errors + more, Extended(rows, n, |more|), i, e)
  {
    var rows', errors' := Extended(rows, n, |more|), errors + more;
    if ListedFor(errors, rows, i, e) {
      var k :| 0 <= k < |rows| && rows[k] == i && errors[k] == e;
      assert rows'[k] == i && errors'[k] == e;
    } else {
      var k :| 0 <= k < |more| && more[k] == e;
      assert rows'[|rows| + k] == i && errors'[|rows| + k] == e;
    }
  }

  lemma ListingExtends(events: seq<Event>, n: nat, rule: ValueRule, errors: seq<DataError>, rows: seq<nat>,
                       more: seq<DataError>) returns (rows': seq<nat>)
    requires n < |events| && Listing(events, n, rule, errors, rows) && RowListing(events, n, rule, more)
    ensures Listing(events, n + 1, rule, errors + more, rows')
  {
    rows' := Extended(rows, n, |more|);
    forall k | 0 <= k < |rows'|
      ensures rows'[k] < n + 1 && Causes(events, rows'[k], (errors + more)[k], rule)
    {
      assert k < |rows| ==> (errors + more)[k] == errors[k];
      assert k >= |rows| ==> (errors + more)[k] == more[k - |rows|];
    }
    forall k, l | 0 <= k < l < |rows'|
      ensures rows'[k] < rows'[l]
              || (rows'[k] == rows'[l] && Rank((errors + more)[k].kind) < Rank((errors + more)[l].kind))
    {
      ListingExtendsOrder(events, n, rule, errors, rows, more, k, l);
    }
    forall i, e | 0 <= i < n + 1 && Causes(events, i, e, rule)
      ensures ListedFor(errors + more, rows', i, e)
    {
      ListedExtends(errors, rows, n, more, i, e);
    }
  }

  lemma RowErrorsAreListed(events: seq<Event>, i: nat, rule: ValueRule)
    requires i < |events| && !StopsAt(events, i)
    ensures RowListing(events, i, rule, RowErrors(events, i, rule))
  {
    forall e: DataError
      ensures e in RowErrors(events, i, rule) <==> Causes(events, i, e, rule)
    {
      RowErrorsAreCaused(events, i, e, rule);
    }
  }

  lemma StopErrorsAreListed(events: seq<Event>, stop: nat, rule: ValueRule)
    requires stop < |events| && StopsAt(events, stop)
    ensures RowListing(events, stop, rule, StopErrors(events, stop, rule))
  {
    forall e: DataError
      ensures e in StopErrors(events, stop, rule) <==> Causes(events, stop, e, rule)
    {
      StopErrorsAreCaused(events, stop, e, rule);
    }
  }

  lemma ListingStep(events: seq<Event>, n: nat, rule: ValueRule, rows: seq<nat>) returns (rows': seq<nat>)
    requires n < |events| && !StopsAt(events, n)
    requires Listing(events, n, rule, ErrorsUpTo(events, n, rule), rows)
    ensures Listing(events, n + 1, rule, ErrorsUpTo(events, n + 1, rule), rows')
  {
    RowErrorsAreListed(events, n, rule);
    rows' := ListingExtends(events, n, rule, ErrorsUpTo(events, n, rule), rows, RowErrors(events, n, rule));
  }

  lemma {:induction false} ErrorsUpToAreListed(events: seq<Event>, n: nat, rule: ValueRule) returns (rows: seq<nat>)
    requires n <= |events| && forall i | 0 <= i < n :: !StopsAt(events, i)
    ensures Listing(events, n, rule, ErrorsUpTo(events, n, rule), rows)
  {
    if n == 0 {
      rows := [];
    } else {
      rows := ErrorsUpToAreListed(events, n - 1, rule);
      rows := ListingStep(events, n - 1, rule, rows);
    }
  }

  /** The whole list, in order: row by row, every cause in a row that is read
      reported exactly once, none suppressed by another. */
  lemma ErrorsAreListedInOrder(events: seq<Event>, rule: ValueRule) returns (n: nat, rows: seq<nat>)
    ensures n <= |events| && forall i | 0 <= i < |events| :: i < n <==> IsRead(events, i)
    ensures Listing(events, n, rule, ExpectedErrors(events, rule), rows)
  {
    n := Reached(events);
    forall i | 0 <= i < |events|
      ensures i < n <==> IsRead(events, i)
    {
      ReachedMeans(events, i);
    }
    var stop := StopIndex(events, 0);
    rows := ErrorsUpToAreListed(events, stop, rule);
    if stop < |events| {
      StopErrorsAreListed(events, stop, rule);
      rows := ListingExtends(events, stop, rule, ErrorsUpTo(events, stop, rule), rows, StopErrors(events, stop, rule));
    } else {
      assert ErrorsUpTo(events, stop, rule) + [] == ErrorsUpTo(events, stop, rule);
    }
  }

  // ---- When a dataset is accepted, proved ----

  lemma CleanNeverStops(events: seq<Event>, rule: ValueRule, i: nat)
    requires Clean(events, rule) && i < |events|
    ensures !StopsAt(events, i) && Fresh(events, i) && RowErrors(events, i, rule) == []
  {
    forall j | 0 <= j <= i
      ensures Fresh(events, j)
    {
    }
    DistinctRowsAreAllKept(events, i);
    DistinctRowsAreAllKept(events, i + 1);
    PackedPrefix(AllRows(events), i + 1);
    var rows := AllRows(events);
    assert rows[..i + 1][..i] == rows[..i];
  }

  lemma ErrorFreeIsClean(events: seq<Event>, rule: ValueRule)
    requires ExpectedErrors(events, rule) == []
    ensures Clean(events, rule)
  {
    NoErrorsNoStop(events, rule);
    forall i | 0 <= i < |events|
      ensures Fresh(events, i) && !rule.Rejects(events[i].fields[1])
    {
      assert !StopsAt(events, i);
      NoErrorsNoRowErrors(events, |events|, i, rule);
    }
    DistinctRowsAreAllKept(events, |events|);
    KeptFits(events, |events|, rule);
    assert AllRows(events)[..|events|] == AllRows(events);
  }

  /** Loading succeeds exactly for clean datasets, and then keeps every row. */
  lemma SucceedsExactlyWhenClean(events: seq<Event>, rule: ValueRule)
    ensures ParseSpec(events, rule).Ok? <==> Clean(events, rule)
    ensures Clean(events, rule) ==>
              var rows := AllRows(events);
              ParseSpec(events, rule) == Ok(Parts(Packed(rows), Layout(rows)))
  {
    if ExpectedErrors(events, rule) == [] {
      ErrorFreeIsClean(events, rule);
    }
    if Clean(events, rule) {
      forall i | 0 <= i < |events|
        ensures !StopsAt(events, i) && Fresh(events, i) && RowErrors(events, i, rule) == []
      {
        CleanNeverStops(events, rule, i);
      }
      StopIndexIs(events, 0, |events|);
      NoRowErrorsNoErrors(events, |events|, rule);
      DistinctRowsAreAllKept(events, |events|);
      assert AllRows(events)[..|events|] == AllRows(events);
    }
  }

  /** What is loaded is what the rows say: entry `i` reads the two fields of row
      `i` back. */
  lemma LoadedRowsReadBack(events: seq<Event>, rule: ValueRule, i: nat)
    requires ParseSpec(events, rule).Ok? && i < |events|
    ensures var p := ParseSpec(events, rule).value;
            && |p.entries| == |events| && InRange(p.arena, p.entries[i])
            && events[i].Record? && events[i].fields == [Key(p.arena, p.entries[i]), Value(p.arena, p.entries[i])]
  {
    SucceedsExactlyWhenClean(events, rule);
    LayoutReadsBack(AllRows(events), i);
  }
}
