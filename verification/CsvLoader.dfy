/** The validating loader: one pass that grows an arena, the entries over it, the
    line of each entry and a hash index of entry positions, and collects errors. */
module CsvLoader {
  import opened Basics
  import opened HashTables
  import opened Stores
  import opened Datasets
  import opened CsvSpec
  import opened EntryCount

  function Positions(n: nat): (ps: seq<U32>)
    requires n <= TWO32
    ensures |ps| == n
  {
    if n == 0 then [] else Positions(n - 1) + [n - 1]
  }

  lemma {:induction false} PositionsMembers(n: nat, x: U32)
    requires n <= TWO32
    ensures x in multiset(Positions(n)) <==> x < n
  {
    if n > 0 {
      PositionsMembers(n - 1, x);
    }
  }

  lemma PositionsStep(n: nat)
    requires n < TWO32
    ensures multiset(Positions(n + 1)) == multiset(Positions(n)) + multiset{n}
  {
  }

  /** The closure handed to `insert_unique`: rehash an entry's key from the arena. */
  function PosHasher(arena: Bytes, entries: seq<Entry>, hash: Bytes -> U64): U32 --> U64 {
    (i: U32) requires i < |entries| && InRange(arena, entries[i]) => hash(Key(arena, entries[i]))
  }

  /** The closure handed to `find`: compare an entry's key with the arena. */
  function PosKeyIs(arena: Bytes, entries: seq<Entry>, key: Bytes): U32 --> bool {
    (i: U32) requires i < |entries| && InRange(arena, entries[i]) => Key(arena, entries[i]) == key
  }

  /** The index holds each entry position once, filed under its key's hash. */
  ghost predicate Indexed(seen: HashTable<U32>, arena: Bytes, entries: seq<Entry>, hash: Bytes -> U64)
    reads seen, seen.buckets
  {
    && seen.Valid() && |entries| <= TWO32
    && seen.Items() == multiset(Positions(|entries|))
    && seen.FiledBy(PosHasher(arena, entries, hash))
  }

  lemma IndexedMembers(seen: HashTable<U32>, arena: Bytes, entries: seq<Entry>, hash: Bytes -> U64)
    requires Indexed(seen, arena, entries, hash)
    ensures forall x: U32 :: x in seen.Items() <==> x < |entries|
  {
    forall x: U32
      ensures x in seen.Items() <==> x < |entries|
    {
      PositionsMembers(|entries|, x);
    }
  }

  /** Probing the index answers like a linear scan of the keys, for every hash. */
  lemma IndexAgreesWithScan(seen: HashTable<U32>, arena: Bytes, entries: seq<Entry>, hash: Bytes -> U64, key: Bytes)
    requires Indexed(seen, arena, entries, hash) && AllInRange(arena, entries)
    ensures forall x | x in seen.Items() :: PosKeyIs(arena, entries, key).requires(x)
    ensures var found := seen.Find(hash(key), PosKeyIs(arena, entries, key));
            && (found.None? <==> forall i | 0 <= i < |entries| :: Key(arena, entries[i]) != key)
            && (found.Some? ==> found.value < |entries| && Key(arena, entries[found.value]) == key)
  {
    IndexedMembers(seen, arena, entries, hash);
    seen.FindMissesExactly(hash(key), PosKeyIs(arena, entries, key), PosHasher(arena, entries, hash));
    if seen.Find(hash(key), PosKeyIs(arena, entries, key)).None? {
      forall i | 0 <= i < |entries|
        ensures Key(arena, entries[i]) != key
      {
        assert i in seen.Items();
      }
    }
  }

  /** Hashes recomputed from a longer arena equal the hashes used for filing. */
  lemma AppendKeepsFiling(seen: HashTable<U32>, arena: Bytes, entries: seq<Entry>, hash: Bytes -> U64,
                          suffix: Bytes, e: Entry)
    requires Indexed(seen, arena, entries, hash) && AllInRange(arena, entries)
    ensures seen.FiledBy(PosHasher(arena + suffix, entries + [e], hash))
  {
    IndexedMembers(seen, arena, entries, hash);
    var before, after := PosHasher(arena, entries, hash), PosHasher(arena + suffix, entries + [e], hash);
    forall b | 0 <= b < seen.buckets.Length
      ensures FiledAt(seen.buckets[..][b], b, seen.buckets.Length, after)
    {
      assert FiledAt(seen.buckets[..][b], b, seen.buckets.Length, before);
      HeldContains(seen.buckets[..], b);
      forall x | x in seen.buckets[..][b]
        ensures after.requires(x) && after(x) == before(x)
      {
        assert before.requires(x);
        AppendKeepsWindows(arena, suffix, entries[x]);
      }
    }
  }

  /** The arena, the entries and the lines agree with the rows kept so far. */
  ghost predicate Aligned(rows: seq<Row>, arena: Bytes, entries: seq<Entry>, lines: seq<nat>) {
    && Fits(rows) && arena == Packed(rows) && entries == Layout(rows)
    && |lines| == |rows| && forall p | 0 <= p < |rows| :: lines[p] == rows[p].line
  }

  lemma AlignedPush(rows: seq<Row>, arena: Bytes, entries: seq<Entry>, lines: seq<nat>, row: Row)
    requires Aligned(rows, arena, entries, lines)
    requires |arena| + |row.key| + |row.val| <= U32_MAX
    ensures var e := Entry(|arena|, |row.key|, |arena| + |row.key|, |row.val|);
            && Aligned(rows + [row], arena + row.key + row.val, entries + [e], lines + [row.line])
            && InRange(arena + row.key + row.val, e)
            && Key(arena + row.key + row.val, e) == row.key
  {
    var rows' := rows + [row];
    assert rows'[..|rows|] == rows;
    LayoutReadsBack(rows', |rows|);
  }

  lemma KeptCount(events: seq<Event>, n: nat)
    requires n <= |events| && Fits(Kept(events, n))
    ensures |Kept(events, n)| <= MAX_ENTRIES < TWO32
  {
    var rows := Kept(events, n);
    forall i, j | 0 <= i < j < |rows|
      ensures rows[i].key != rows[j].key
    {
      KeptDistinct(events, n, i, j);
    }
    CountFitsU32(rows);
  }

  /** What a probe means for the rows: a hit is the earliest row with the key. */
  lemma ProbeFindsEarliest(events: seq<Event>, n: nat, arena: Bytes, entries: seq<Entry>, lines: seq<nat>,
                           seen: HashTable<U32>, hash: Bytes -> U64, key: Bytes)
    requires n <= |events| && Aligned(Kept(events, n), arena, entries, lines)
    requires Indexed(seen, arena, entries, hash) && AllInRange(arena, entries)
    ensures forall x | x in seen.Items() :: PosKeyIs(arena, entries, key).requires(x)
    ensures var found := seen.Find(hash(key), PosKeyIs(arena, entries, key));
            var first := EarliestRow(events, key, n);
            && (found.Some? <==> first.Some?)
            && (found.Some? ==> found.value < |lines| && lines[found.value] == LineOf(events, first.value))
  {
    IndexAgreesWithScan(seen, arena, entries, hash, key);
    var found := seen.Find(hash(key), PosKeyIs(arena, entries, key));
    if found.Some? {
      LayoutReadsBack(Kept(events, n), found.value);
      KeptIsEarliest(events, n, found.value);
    } else if EarliestRow(events, key, n).Some? {
      var p := EarliestIsKept(events, n, key);
      LayoutReadsBack(Kept(events, n), p);
    }
  }

  /** The duplicate check and the value check of one two-field row: two
      independent tests, in this order, neither short-circuiting the other. */
  method CheckPair(ghost events: seq<Event>, ghost i: nat, rule: ValueRule, line: nat, key: Bytes, val: Bytes,
                   arena: Bytes, entries: seq<Entry>, lines: seq<nat>, seen: HashTable<U32>, hash: Bytes -> U64)
    returns (dup: bool, errors: seq<DataError>)
    requires i < |events| && events[i].Record? && events[i].fields == [key, val] && line == LineOf(events, i)
    requires Aligned(Kept(events, i), arena, entries, lines) && Indexed(seen, arena, entries, hash)
    ensures dup <==> !Fresh(events, i)
    ensures errors == RowErrors(events, i, rule)
  {
    LayoutInRange(Kept(events, i));
    ProbeFindsEarliest(events, i, arena, entries, lines, seen, hash, key);
    var found := seen.Find(hash(key), PosKeyIs(arena, entries, key));
    errors := [];
    if found.Some? {
      errors := errors + [DataError(line, DuplicateKey(key, lines[found.value]))];
    }
    if rule.Rejects(val) {
      errors := errors + [DataError(line, InvalidUtf8Value)];
    }
    dup := found.Some?;
  }

  /** Appends one fresh row to the arena, the entries and the lines. Every cast
      to 32 bits is exact. */
  method AppendPair(ghost rows: seq<Row>, line: nat, key: Bytes, val: Bytes,
                    arena: Bytes, entries: seq<Entry>, lines: seq<nat>)
    returns (arena': Bytes, entries': seq<Entry>, lines': seq<nat>)
    requires Aligned(rows, arena, entries, lines)
    requires |arena| + |key| + |val| <= U32_MAX
    ensures Aligned(rows + [Row(line, key, val)], arena', entries', lines')
    ensures arena' == arena + (key + val)
    ensures |entries'| == |entries| + 1 && entries' == entries + [entries'[|entries|]]
    ensures InRange(arena', entries'[|entries|]) && Key(arena', entries'[|entries|]) == key
  {
    AlignedPush(rows, arena, entries, lines, Row(line, key, val));
    var kOff := CastU32(|arena|);
    arena' := arena + key;
    var vOff := CastU32(|arena'|);
    arena' := arena' + val;
    var kLen, vLen := CastU32(|key|), CastU32(|val|);
    assert kOff == |arena| && kLen == |key| && vOff == |arena| + |key| && vLen == |val|;
    entries' := entries + [Entry(kOff, kLen, vOff, vLen)];
    lines' := lines + [line];
  }

  /** Files the newest entry's position; the position fits 32 bits because fewer
      than 2^32 entries can exist. */
  method IndexNewest(ghost init: Bytes, ghost before: seq<Entry>, ghost suffix: Bytes, ghost e: Entry,
                     arena: Bytes, entries: seq<Entry>, seen: HashTable<U32>, kh: U64, hash: Bytes -> U64)
    requires arena == init + suffix && entries == before + [e] && |before| <= MAX_ENTRIES
    requires Indexed(seen, init, before, hash) && AllInRange(init, before)
    requires InRange(arena, e) && kh == hash(Key(arena, e))
    modifies seen, seen.buckets
    ensures Indexed(seen, arena, entries, hash)
    ensures seen.buckets == old(seen.buckets) || fresh(seen.buckets)
  {
    AppendKeepsFiling(seen, init, before, hash, suffix, e);
    PositionsStep(|before|);
    var idx := CastU32(|entries| - 1);
    assert idx == |before|;
    seen.InsertUnique(kh, idx, PosHasher(arena, entries, hash));
  }

  /** Appends and indexes one fresh row. */
  method KeepPair(ghost events: seq<Event>, ghost i: nat, line: nat, key: Bytes, val: Bytes,
                  arena: Bytes, entries: seq<Entry>, lines: seq<nat>, seen: HashTable<U32>, hash: Bytes -> U64)
    returns (arena': Bytes, entries': seq<Entry>, lines': seq<nat>)
    requires i < |events| && Fresh(events, i) && RowAt(events, i) == Row(line, key, val)
    requires Aligned(Kept(events, i), arena, entries, lines) && Indexed(seen, arena, entries, hash)
    requires |arena| + |key| + |val| <= U32_MAX
    modifies seen, seen.buckets
    ensures Aligned(Kept(events, i + 1), arena', entries', lines')
    ensures Indexed(seen, arena', entries', hash)
    ensures seen.buckets == old(seen.buckets) || fresh(seen.buckets)
  {
    KeptStep(events, i);
    KeptCount(events, i);
    LayoutInRange(Kept(events, i));
    arena', entries', lines' := AppendPair(Kept(events, i), line, key, val, arena, entries, lines);
    IndexNewest(arena, entries, key + val, entries'[|entries|], arena', entries', seen, hash(key), hash);
  }

  lemma KeptStep(events: seq<Event>, i: nat)
    requires i < |events|
    ensures Fresh(events, i) ==> Kept(events, i + 1) == Kept(events, i) + [RowAt(events, i)]
    ensures !Fresh(events, i) ==> Kept(events, i + 1) == Kept(events, i)
  {
  }

  /** One two-field row: report its errors, then keep it, skip it as a duplicate,
      or stop because it no longer fits. */
  method ReadPair(ghost events: seq<Event>, ghost i: nat, rule: ValueRule, line: nat, key: Bytes, val: Bytes,
                  arena: Bytes, entries: seq<Entry>, lines: seq<nat>, seen: HashTable<U32>, hash: Bytes -> U64)
    returns (stop: bool, errors: seq<DataError>, arena': Bytes, entries': seq<Entry>, lines': seq<nat>)
    requires i < |events| && events[i].Record? && events[i].fields == [key, val] && line == LineOf(events, i)
    requires Aligned(Kept(events, i), arena, entries, lines) && Indexed(seen, arena, entries, hash)
    modifies seen, seen.buckets
    ensures stop <==> StopsAt(events, i)
    ensures errors == if stop then StopErrors(events, i, rule) else RowErrors(events, i, rule)
    ensures !stop ==> Aligned(Kept(events, i + 1), arena', entries', lines') && Indexed(seen, arena', entries', hash)
    ensures seen.buckets == old(seen.buckets) || fresh(seen.buckets)
  {
    stop, arena', entries', lines' := false, arena, entries, lines;
    var dup;
    dup, errors := CheckPair(events, i, rule, line, key, val, arena, entries, lines, seen, hash);
    if dup {
      KeptStep(events, i);
      return;
    }
    if |arena| + |key| + |val| > U32_MAX {
      errors := errors + [DataError(line, TooLarge)];
      stop := true;
      return;
    }
    arena', entries', lines' := KeepPair(events, i, line, key, val, arena, entries, lines, seen, hash);
  }

  /** One answer of the reader, malformed or not. */
  method ReadEvent(events: seq<Event>, i: nat, rule: ValueRule, recPos: Option<nat>,
                   arena: Bytes, entries: seq<Entry>, lines: seq<nat>, seen: HashTable<U32>, hash: Bytes -> U64)
    returns (stop: bool, errors: seq<DataError>, arena': Bytes, entries': seq<Entry>, lines': seq<nat>)
    requires i < |events| && recPos == PosBefore(events, i)
    requires Aligned(Kept(events, i), arena, entries, lines) && Indexed(seen, arena, entries, hash)
    modifies seen, seen.buckets
    ensures stop <==> StopsAt(events, i)
    ensures errors == if stop then StopErrors(events, i, rule) else RowErrors(events, i, rule)
    ensures !stop ==> events[i].Record?
    ensures !stop ==> Aligned(Kept(events, i + 1), arena', entries', lines') && Indexed(seen, arena', entries', hash)
    ensures seen.buckets == old(seen.buckets) || fresh(seen.buckets)
  {
    arena', entries', lines' := arena, entries, lines;
    var lineHint := NextLine(recPos);
    match events[i] {
      case Malformed(msg) =>
        stop, errors := true, [DataError(lineHint, MalformedRow(msg))];
      case Record(pos, fields) =>
        var line := match pos case Some(l) => l case None => lineHint;
        if |fields| != 2 {
          KeptStep(events, i);
          stop, errors := false, [DataError(line, WrongColumnCount(|fields|))];
        } else {
          stop, errors, arena', entries', lines' :=
            ReadPair(events, i, rule, line, fields[0], fields[1], arena, entries, lines, seen, hash);
        }
    }
  }

  /** What one more event does to everything the specification counts. */
  lemma ReadingStep(events: seq<Event>, i: nat, rule: ValueRule)
    requires i < |events| && i <= StopIndex(events, 0)
    ensures StopsAt(events, i) ==> StopIndex(events, 0) == i
    ensures !StopsAt(events, i) ==>
              && i + 1 <= StopIndex(events, 0)
              && PosBefore(events, i + 1) == events[i].pos
              && ErrorsUpTo(events, i + 1, rule) == ErrorsUpTo(events, i, rule) + RowErrors(events, i, rule)
  {
  }

  lemma ReadingEnded(events: seq<Event>, rule: ValueRule)
    ensures var stop := StopIndex(events, 0);
            ExpectedErrors(events, rule) == [] ==> stop == |events|
  {
    var stop := StopIndex(events, 0);
    assert stop < |events| ==> StopErrors(events, stop, rule) != [];
  }

  /** Validates and packs a whole dataset, reporting every problem found. The
      result does not depend on the hash. */
  method ParseCsv(events: seq<Event>, rule: ValueRule, hash: Bytes -> U64)
    returns (r: Result<Parts, seq<DataError>>)
    ensures r == ParseSpec(events, rule)
  {
    var arena: Bytes := [];
    var entries: seq<Entry> := [];
    var lines: seq<nat> := [];
    var errors: seq<DataError> := [];
    var seen := new HashTable<U32>.WithCapacity(0);
    var recPos: Option<nat> := None;
    var i := 0;
    while i < |events|
      invariant 0 <= i <= StopIndex(events, 0)
      invariant fresh(seen) && fresh(seen.buckets)
      invariant recPos == PosBefore(events, i)
      invariant errors == ErrorsUpTo(events, i, rule)
      invariant Aligned(Kept(events, i), arena, entries, lines)
      invariant Indexed(seen, arena, entries, hash)
    {
      ReadingStep(events, i, rule);
      var stop, found;
      stop, found, arena, entries, lines := ReadEvent(events, i, rule, recPos, arena, entries, lines, seen, hash);
      errors := errors + found;
      if stop {
        break;
      }
      recPos := events[i].pos;
      i := i + 1;
    }
    assert errors == ExpectedErrors(events, rule);
    ReadingEnded(events, rule);
    if errors == [] {
      r := Ok(Parts(arena, entries));
    } else {
      r := Err(errors);
    }
  }
}
