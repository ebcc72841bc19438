/** What the compiled format guarantees: writing and reading are inverse, and
    every other buffer is refused for the right reason. */
module CompiledProofs {
  import opened Basics
  import opened Stores
  import opened Compiled

  lemma Middle(a: Bytes, b: Bytes, c: Bytes)
    ensures (a + b + c)[|a|..|a| + |b|] == b
  {
  }

  ghost predicate EntriesFit(d: Dataset) {
    SizesFit(d) && AllInRange(d.arena, d.entries)
  }

  // ---- Reading an image back ----

  lemma HeaderWords(flags: U32, count: U32, arenaLen: U32, rest: Bytes)
    ensures var data := Header(flags, count, arenaLen) + rest;
            && IsCompiled(data) && WordAt(data, 8) == flags
            && CountOf(data) == count && ArenaLenOf(data) == arenaLen && WordAt(data, 20) == 0
  {
    var data := Header(flags, count, arenaLen) + rest;
    WordRoundTrip(flags);
    WordRoundTrip(count);
    WordRoundTrip(arenaLen);
    assert data[..8] == MAGIC;
    assert data[8..12] == Le32(flags);
    assert data[12..16] == Le32(count);
    assert data[16..20] == Le32(arenaLen);
    assert data[20..24] == Le32(0);
  }

  lemma EntryWords(before: Bytes, e: Entry, after: Bytes, i: nat)
    requires |before| == HEADER_LEN + i * 16
    ensures EntryAt(before + EntryBytes(e) + after, i) == e
  {
    var data := before + EntryBytes(e) + after;
    var o := |before|;
    WordRoundTrip(e.kOff);
    WordRoundTrip(e.kLen);
    WordRoundTrip(e.vOff);
    WordRoundTrip(e.vLen);
    assert data[o..o + 4] == Le32(e.kOff);
    assert data[o + 4..o + 8] == Le32(e.kLen);
    assert data[o + 8..o + 12] == Le32(e.vOff);
    assert data[o + 12..o + 16] == Le32(e.vLen);
  }

  lemma Regroup(a: Bytes, b: Bytes, c: Bytes, d: Bytes)
    ensures a + (b + c) + d == a + b + (c + d)
    ensures a + (b + c) + d == (a + b) + c + d
    ensures a + b + c + d == a + (b + c + d)
  {
  }

  lemma TableBytesPush(entries: seq<Entry>, e: Entry)
    ensures TableBytes(entries + [e]) == TableBytes(entries) + EntryBytes(e)
  {
    assert (entries + [e])[..|entries|] == entries;
  }

  lemma {:induction false} TableWords(header: Bytes, entries: seq<Entry>, rest: Bytes)
    requires |header| == HEADER_LEN
    ensures Entries(header + TableBytes(entries) + rest, |entries|) == entries
    decreases |entries|, 1
  {
    if entries != [] {
      var init, last := entries[..|entries| - 1], entries[|entries| - 1];
      assert entries == init + [last];
      TableBytesPush(init, last);
      TableWordsStep(header, TableBytes(init), init, last, rest);
    }
  }

  lemma TableWordsStep(header: Bytes, table: Bytes, init: seq<Entry>, last: Entry, rest: Bytes)
    requires |header| == HEADER_LEN && table == TableBytes(init)
    ensures Entries(header + (table + EntryBytes(last)) + rest, |init| + 1) == init + [last]
    decreases |init|, 2
  {
    TableWords(header, init, EntryBytes(last) + rest);
    Regroup(header, table, EntryBytes(last), rest);
    EntryWords(header + table, last, rest, |init|);
  }

  lemma ImageParts(d: Dataset, trailing: Bytes)
    requires SizesFit(d)
    ensures Image(d) + trailing
            == Header(d.flags, CastU32(|d.entries|), CastU32(|d.arena|)) + (TableBytes(d.entries) + d.arena + trailing)
    ensures |Image(d)| == HEADER_LEN + |d.entries| * 16 + |d.arena|
  {
    Regroup(Header(d.flags, CastU32(|d.entries|), CastU32(|d.arena|)), TableBytes(d.entries), d.arena, trailing);
  }

  lemma ImageHeader(d: Dataset, trailing: Bytes)
    requires SizesFit(d)
    ensures var data := Image(d) + trailing;
            && IsCompiled(data) && |data| >= HEADER_LEN && WordAt(data, 8) == d.flags
            && CountOf(data) == |d.entries| && ArenaLenOf(data) == |d.arena|
            && TotalOf(data) == |Image(d)| && WordAt(data, 20) == 0
  {
    ImageParts(d, trailing);
    HeaderWords(d.flags, CastU32(|d.entries|), CastU32(|d.arena|), TableBytes(d.entries) + d.arena + trailing);
  }

  lemma ImageBody(d: Dataset, trailing: Bytes)
    requires SizesFit(d)
    ensures var data := Image(d) + trailing;
            var tableEnd := HEADER_LEN + |d.entries| * 16;
            && Entries(data, |d.entries|) == d.entries
            && data[tableEnd..tableEnd + |d.arena|] == d.arena
  {
    var header := Header(d.flags, CastU32(|d.entries|), CastU32(|d.arena|));
    var table := TableBytes(d.entries);
    assert header + table + d.arena + trailing == header + table + (d.arena + trailing);
    TableWords(header, d.entries, d.arena + trailing);
    Middle(header + table, d.arena, trailing);
  }

  lemma ImageShape(d: Dataset, trailing: Bytes)
    requires SizesFit(d)
    ensures var data := Image(d) + trailing;
            && IsCompiled(data) && Complete(data) && TotalOf(data) == |Image(d)|
            && WordAt(data, 8) == d.flags && CountOf(data) == |d.entries| && ArenaLenOf(data) == |d.arena|
            && data[EntriesEnd(data)..TotalOf(data)] == d.arena
            && Entries(data, |d.entries|) == d.entries
  {
    ImageHeader(d, trailing);
    ImageBody(d, trailing);
  }

  /** Where everything is: magic, flags, counts, a zero word, the entries, and
      the arena to the end. */
  lemma FormatLayout(d: Dataset)
    requires SizesFit(d)
    ensures var b := Image(d);
            && |b| == 24 + 16 * |d.entries| + |d.arena| && b[..8] == [0x4A, 0x55, 0x53, 0x54, 0x4B, 0x56, 0x30, 0x31]
            && WordAt(b, 8) == d.flags && WordAt(b, 12) == |d.entries| && WordAt(b, 16) == |d.arena|
            && WordAt(b, 20) == 0 && b[24 + 16 * |d.entries|..] == d.arena
  {
    assert Image(d) + [] == Image(d);
    ImageHeader(d, []);
    ImageBody(d, []);
  }

  lemma ImageEntries(d: Dataset)
    requires SizesFit(d)
    ensures |Image(d)| >= HEADER_LEN + |d.entries| * 16 && Entries(Image(d), |d.entries|) == d.entries
  {
    assert Image(d) + [] == Image(d);
    ImageBody(d, []);
  }

  /** Each entry is four words in field order. */
  lemma EntryLayout(d: Dataset, i: nat)
    requires SizesFit(d) && i < |d.entries|
    ensures var b, o := Image(d), 24 + 16 * i;
            d.entries[i] == Entry(WordAt(b, o), WordAt(b, o + 4), WordAt(b, o + 8), WordAt(b, o + 12))
  {
    ImageEntries(d);
    EntriesAt(Image(d), |d.entries|, i);
  }

  lemma ReadByShape(data: Bytes, d: Dataset)
    requires IsCompiled(data) && Complete(data) && WordAt(data, 8) == d.flags
    requires Entries(data, CountOf(data)) == d.entries && ArenaLenOf(data) == |d.arena|
    requires data[EntriesEnd(data)..TotalOf(data)] == d.arena
    ensures ReadSpec(data) == match FirstEscape(d.entries, |d.arena|)
                              case Some(i) => Err(OutOfBounds(i))
                              case None => Ok(d)
  {
  }

  /** Reading what was written, with anything after it, returns the dataset. */
  lemma WriteThenRead(d: Dataset, trailing: Bytes)
    requires EntriesFit(d)
    ensures ReadSpec(Image(d) + trailing) == Ok(d)
  {
    ImageShape(d, trailing);
    ReadByShape(Image(d) + trailing, d);
    InRangeNeverEscapes(d.arena, d.entries);
  }

  lemma InRangeNeverEscapes(arena: Bytes, entries: seq<Entry>)
    requires AllInRange(arena, entries)
    ensures FirstEscape(entries, |arena|).None?
  {
    forall j | 0 <= j < |entries|
      ensures !Escapes(entries[j], |arena|)
    {
      assert InRange(arena, entries[j]);
    }
  }

  /** Without the range condition the reader still names the least bad entry. */
  lemma WriteThenReadOutOfRange(d: Dataset, trailing: Bytes, i: nat)
    requires SizesFit(d) && i < |d.entries|
    requires Escapes(d.entries[i], |d.arena|)
    requires forall j | 0 <= j < i :: !Escapes(d.entries[j], |d.arena|)
    ensures ReadSpec(Image(d) + trailing) == Err(OutOfBounds(i))
  {
    FirstEscapeIs(d.entries, |d.arena|, i);
    ImageShape(d, trailing);
    ReadByShape(Image(d) + trailing, d);
  }

  // ---- Partial images ----

  /** A write that stopped early can never be mistaken for a dataset. */
  lemma StrictPrefixIsTruncated(d: Dataset, n: nat)
    requires SizesFit(d) && n < |Image(d)|
    ensures ReadSpec(Image(d)[..n]) == Err(Truncated)
  {
    ImageShape(d, []);
    assert Image(d) + [] == Image(d);
    PrefixKeepsHeader(Image(d), n);
  }

  lemma PrefixKeepsHeader(whole: Bytes, n: nat)
    requires IsCompiled(whole) && n <= |whole|
    ensures n >= |MAGIC| ==> IsCompiled(whole[..n])
    ensures n >= HEADER_LEN ==> TotalOf(whole[..n]) == TotalOf(whole)
  {
    if n >= |MAGIC| {
      assert whole[..n][..|MAGIC|] == whole[..|MAGIC|];
    }
    if n >= HEADER_LEN {
      assert whole[..n][12..16] == whole[12..16];
      assert whole[..n][16..20] == whole[16..20];
    }
  }

  // ---- Accepted buffers ----

  lemma EntryBytesAt(data: Bytes, i: nat)
    requires HEADER_LEN + i * 16 + 16 <= |data|
    ensures var o := HEADER_LEN + i * 16;
            EntryBytes(EntryAt(data, i)) == data[o..o + 16]
  {
    var o := HEADER_LEN + i * 16;
    WordOfBytes(data[o..o + 4]);
    WordOfBytes(data[o + 4..o + 8]);
    WordOfBytes(data[o + 8..o + 12]);
    WordOfBytes(data[o + 12..o + 16]);
  }

  lemma Join(data: Bytes, a: nat, b: nat, c: nat)
    requires a <= b <= c <= |data|
    ensures data[a..b] + data[b..c] == data[a..c]
  {
  }

  lemma TableBytesStep(data: Bytes, n: nat)
    requires HEADER_LEN + n * 16 + 16 <= |data|
    requires TableBytes(Entries(data, n)) == data[24..24 + n * 16]
    ensures TableBytes(Entries(data, n + 1)) == data[24..24 + n * 16 + 16]
  {
    EntryBytesAt(data, n);
    TableBytesPush(Entries(data, n), EntryAt(data, n));
    Join(data, 24, 24 + n * 16, 24 + n * 16 + 16);
  }

  lemma {:induction false} TableBytesOfEntries(data: Bytes, n: nat)
    requires HEADER_LEN + n * 16 <= |data|
    ensures TableBytes(Entries(data, n)) == data[24..24 + n * 16]
  {
    if n > 0 {
      var m := n - 1;
      TableBytesOfEntries(data, m);
      TableBytesStep(data, m);
      assert m + 1 == n && 24 + m * 16 + 16 == 24 + n * 16;
    }
  }

  lemma HeaderOfBytes(data: Bytes)
    requires IsCompiled(data) && |data| >= HEADER_LEN
    ensures Header(WordAt(data, 8), CountOf(data), ArenaLenOf(data)) == data[..20] + [0, 0, 0, 0]
  {
    WordOfBytes(data[8..12]);
    WordOfBytes(data[12..16]);
    WordOfBytes(data[16..20]);
    assert data[..20] == data[..8] + data[8..12] + data[12..16] + data[16..20];
    Le32Is(0);
  }

  lemma Reassociate(a: Bytes, b: Bytes, c: Bytes)
    ensures a + b + c == a + (b + c)
  {
  }

  lemma AcceptedSizes(data: Bytes)
    requires ReadSpec(data).Ok?
    ensures Complete(data)
    ensures var d := ReadSpec(data).value;
            && d == Dataset(data[EntriesEnd(data)..TotalOf(data)], Entries(data, CountOf(data)), WordAt(data, 8))
            && CastU32(|d.entries|) == CountOf(data) && CastU32(|d.arena|) == ArenaLenOf(data)
  {
  }

  /** Writing an accepted dataset again reproduces the buffer it was read from,
      up to the reserved word and whatever follows the image. */
  lemma ReadThenWrite(data: Bytes)
    requires ReadSpec(data).Ok?
    ensures Image(ReadSpec(data).value) == data[..20] + [0, 0, 0, 0] + data[24..TotalOf(data)]
    ensures EntriesFit(ReadSpec(data).value)
  {
    AcceptedSizes(data);
    HeaderOfBytes(data);
    TableBytesOfEntries(data, CountOf(data));
    Join(data, 24, EntriesEnd(data), TotalOf(data));
    Reassociate(data[..20] + [0, 0, 0, 0], data[24..EntriesEnd(data)], data[EntriesEnd(data)..TotalOf(data)]);
    AcceptedIsInRange(data);
  }

  lemma AcceptedIsInRange(data: Bytes)
    requires ReadSpec(data).Ok?
    ensures AllInRange(ReadSpec(data).value.arena, ReadSpec(data).value.entries)
  {
    var d := ReadSpec(data).value;
    forall i | 0 <= i < |d.entries|
      ensures InRange(d.arena, d.entries[i])
    {
      assert !Escapes(d.entries[i], ArenaLenOf(data));
    }
  }

  /** An accepted buffer is safe for everything downstream, whoever wrote it: no
      32-bit sum wraps and every slice the store takes is inside the arena. */
  lemma AcceptedWindowsNeverPanic(data: Bytes, i: nat)
    requires ReadSpec(data).Ok? && i < |ReadSpec(data).value.entries|
    ensures var d := ReadSpec(data).value;
            var e := d.entries[i];
            && AddU32(e.kOff, e.kLen) == e.kOff + e.kLen && Window(d.arena, e.kOff, e.kLen).Some?
            && AddU32(e.vOff, e.vLen) == e.vOff + e.vLen && Window(d.arena, e.vOff, e.vLen).Some?
  {
    AcceptedIsInRange(data);
    InRangeNeverPanics(ReadSpec(data).value.arena, ReadSpec(data).value.entries[i]);
  }

  lemma InRangeNeverPanics(arena: Bytes, e: Entry)
    requires InRange(arena, e)
    ensures AddU32(e.kOff, e.kLen) == e.kOff + e.kLen && Window(arena, e.kOff, e.kLen).Some?
    ensures AddU32(e.vOff, e.vLen) == e.vOff + e.vLen && Window(arena, e.vOff, e.vLen).Some?
  {
  }

  // ---- Rejected buffers ----

  lemma RefusedForItsHeader(data: Bytes)
    ensures ReadSpec(data) == Err(BadMagic) <==> |data| >= |MAGIC| && data[..|MAGIC|] != MAGIC
    ensures ReadSpec(data) == Err(Truncated) <==>
              |data| < |MAGIC| || (IsCompiled(data) && (|data| < HEADER_LEN || |data| < TotalOf(data)))
  {
  }

  /** A complete buffer is refused exactly for its least entry with a window
      outside the arena, and accepted if there is none. */
  lemma RejectionIsExact(data: Bytes)
    ensures forall i: nat :: ReadSpec(data) == Err(OutOfBounds(i)) <==> IsLeastEscape(data, i)
    ensures ReadSpec(data).Ok? <==>
              IsCompiled(data) && Complete(data) && forall i: nat :: !IsLeastEscape(data, i)
  {
    if IsCompiled(data) && Complete(data) {
      forall i: nat
        ensures FirstEscape(Entries(data, CountOf(data)), ArenaLenOf(data)) == Some(i) <==> IsLeastEscape(data, i)
      {
      }
    }
  }

  ghost predicate IsLeastEscape(data: Bytes, i: nat) {
    && IsCompiled(data) && Complete(data) && i < CountOf(data)
    && var entries := Entries(data, CountOf(data));
       Escapes(entries[i], ArenaLenOf(data)) && forall j | 0 <= j < i :: !Escapes(entries[j], ArenaLenOf(data))
  }
}
