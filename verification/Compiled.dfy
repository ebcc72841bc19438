/** The compiled dataset format: header, entry table, arena. */
module Compiled {
  import opened Basics
  import opened Stores

  const MAGIC: Bytes := [0x4A, 0x55, 0x53, 0x54, 0x4B, 0x56, 0x30, 0x31]
  const HEADER_LEN: nat := 24  // and 16 bytes per entry
  const FLAG_BINARY: U32 := 1

  datatype CompiledError = BadMagic | Truncated | OutOfBounds(index: nat)

  datatype Dataset = Dataset(arena: Bytes, entries: seq<Entry>, flags: U32)

  // ---- Little-endian words ----

  function LeBytes(n: nat, width: nat): (b: Bytes)
    ensures |b| == width
  {
    if width == 0 then [] else [n % 0x100] + LeBytes(n / 0x100, width - 1)
  }

  function Le32(n: U32): (b: Bytes)
    ensures |b| == 4
  {
    LeBytes(n, 4)
  }

  function LeU32(b: Bytes): U32
    requires |b| == 4
  {
    var b0: int, b1: int, b2: int, b3: int := b[0], b[1], b[2], b[3];
    b0 + 0x100 * b1 + 0x1_0000 * b2 + 0x100_0000 * b3
  }

  lemma Le32Is(n: U32)
    ensures Le32(n) == [n % 0x100, n / 0x100 % 0x100, n / 0x100 / 0x100 % 0x100, n / 0x100 / 0x100 / 0x100]
  {
    var q1 := n / 0x100;
    var q2 := q1 / 0x100;
    var q3 := q2 / 0x100;
    assert LeBytes(q3, 1) == [q3];
    assert LeBytes(q2, 2) == [q2 % 0x100, q3];
    assert LeBytes(q1, 3) == [q1 % 0x100, q2 % 0x100, q3];
  }

  lemma WordRoundTrip(n: U32)
    ensures LeU32(Le32(n)) == n
  {
    Le32Is(n);
    var q1 := n / 0x100;
    var q2 := q1 / 0x100;
    assert n == 0x100 * q1 + n % 0x100;
    assert q1 == 0x100 * q2 + q1 % 0x100;
    assert q2 == 0x100 * (q2 / 0x100) + q2 % 0x100;
  }

  lemma WordOfBytes(b: Bytes)
    requires |b| == 4
    ensures Le32(LeU32(b)) == b
  {
    var b0: int, b1: int, b2: int, b3: int := b[0], b[1], b[2], b[3];
    var q2 := b2 + 0x100 * b3;
    var q1 := b1 + 0x100 * q2;
    var n := b0 + 0x100 * q1;
    assert n == LeU32(b);
    assert n / 0x100 == q1 && n % 0x100 == b0;
    assert q1 / 0x100 == q2 && q1 % 0x100 == b1;
    assert q2 / 0x100 == b3 && q2 % 0x100 == b2;
    Le32Is(n);
  }

  // ---- The image, as one byte string ----

  function Header(flags: U32, count: U32, arenaLen: U32): (b: Bytes)
    ensures |b| == HEADER_LEN
  {
    MAGIC + Le32(flags) + Le32(count) + Le32(arenaLen) + Le32(0)
  }

  function EntryBytes(e: Entry): (b: Bytes)
    ensures |b| == 16
  {
    Le32(e.kOff) + Le32(e.kLen) + Le32(e.vOff) + Le32(e.vLen)
  }

  ghost function TableBytes(entries: seq<Entry>): (b: Bytes)
    ensures |b| == 16 * |entries|
  {
    if entries == [] then []
    else TableBytes(entries[..|entries| - 1]) + EntryBytes(entries[|entries| - 1])
  }

  /** Both counts are narrowed to 32 bits, as the writer narrows them. */
  ghost function Image(d: Dataset): Bytes {
    Header(d.flags, CastU32(|d.entries|), CastU32(|d.arena|)) + TableBytes(d.entries) + d.arena
  }

  ghost predicate SizesFit(d: Dataset) {
    |d.entries| <= U32_MAX && |d.arena| <= U32_MAX
  }

  // ---- Writing ----

  /** A buffered writer over a file that takes `limit` bytes before it errors. */
  class BufWriter {
    const capacity: nat
    const limit: nat
    var file: Bytes
    var buf: Bytes

    ghost predicate Valid()
      reads this
    {
      |file| <= limit
    }

    /** Everything accepted so far: on disk, then in memory. */
    function Stream(): Bytes
      reads this
    {
      file + buf
    }

    constructor (capacity: nat, limit: nat)
      ensures Valid() && Stream() == [] && file == [] && this.limit == limit
    {
      this.capacity, this.limit, file, buf := capacity, limit, [], [];
    }

    /** Hands `chunk` to the file: all of it, or what still fits and an error. */
    method WriteThrough(chunk: Bytes) returns (n: nat, ok: bool)
      requires Valid() && |chunk| > 0
      modifies this`file
      ensures Valid() && n <= |chunk| && file == old(file) + chunk[..n]
      ensures ok <==> n == |chunk|
      ensures !ok ==> |file| == limit
    {
      n := if |file| + |chunk| <= limit then |chunk| else limit - |file|;
      file := file + chunk[..n];
      ok := n == |chunk|;
    }

    /** No byte is lost or repeated, whether or not the file errors part way. */
    method FlushBuf() returns (ok: bool)
      requires Valid()
      modifies this
      ensures Valid() && Stream() == old(Stream())
      ensures ok ==> buf == []
      ensures !ok ==> |file| == limit && buf != []
    {
      ok := true;
      if buf != [] {
        var n;
        n, ok := WriteThrough(buf);
        buf := buf[n..];
      }
    }

    method WriteAll(chunk: Bytes) returns (ok: bool)
      requires Valid()
      modifies this
      ensures Valid()
      ensures ok ==> Stream() == old(Stream()) + chunk
      ensures !ok ==> Stream() <= old(Stream()) + chunk
      ensures !ok ==> |file| == limit && |old(Stream())| + |chunk| > limit
    {
      if |buf| + |chunk| > capacity {
        ghost var before := Stream();
        ok := FlushBuf();
        if !ok {
          assert Stream() <= before + chunk;
          return;
        }
      }
      if |chunk| >= capacity && |chunk| > 0 {
        ghost var before := Stream();
        var n;
        n, ok := WriteThrough(chunk);
        assert Stream() == before + chunk[..n];
        assert chunk[..n] <= chunk;
      } else {
        buf := buf + chunk;
        ok := true;
      }
    }
  }

  /** Bytes of `d` up to and including its first `i` entries. */
  ghost function ImageUpTo(d: Dataset, i: nat): Bytes
    requires i <= |d.entries|
  {
    Header(d.flags, CastU32(|d.entries|), CastU32(|d.arena|)) + TableBytes(d.entries[..i])
  }

  lemma {:induction false} ImageUpToIsPrefix(d: Dataset, i: nat)
    requires i <= |d.entries|
    ensures ImageUpTo(d, i) <= Image(d)
    ensures i < |d.entries| ==> ImageUpTo(d, i) + EntryBytes(d.entries[i]) == ImageUpTo(d, i + 1)
    decreases |d.entries| - i
  {
    if i < |d.entries| {
      ImageUpToIsPrefix(d, i + 1);
      assert d.entries[..i + 1][..i] == d.entries[..i];
    } else {
      assert d.entries[..i] == d.entries;
    }
  }

  /** One `write_all` of the writer, `done` of `whole` having gone before it. */
  method WriteNext(w: BufWriter, ghost base: Bytes, ghost done: Bytes, chunk: Bytes, ghost whole: Bytes)
    returns (ok: bool)
    requires w.Valid() && w.Stream() == base + done && done + chunk <= whole
    modifies w
    ensures w.Valid()
    ensures ok ==> w.Stream() == base + (done + chunk)
    ensures !ok ==> w.Stream() <= base + whole && |w.file| == w.limit && |base + whole| > w.limit
  {
    ok := w.WriteAll(chunk);
    assert base + done + chunk == base + (done + chunk);
    assert base + (done + chunk) <= base + whole;
  }

  method WriteHeader(w: BufWriter, ghost base: Bytes, flags: U32, count: U32, arenaLen: U32, ghost whole: Bytes)
    returns (ok: bool)
    requires w.Valid() && w.Stream() == base && Header(flags, count, arenaLen) <= whole
    modifies w
    ensures w.Valid()
    ensures ok ==> w.Stream() == base + Header(flags, count, arenaLen)
    ensures !ok ==> w.Stream() <= base + whole && |w.file| == w.limit && |base + whole| > w.limit
  {
    ghost var h := Header(flags, count, arenaLen);
    assert base == base + [];
    assert h[..8] == [] + MAGIC;
    ok := WriteNext(w, base, [], MAGIC, whole);
    if !ok { return; }
    assert h[..12] == h[..8] + Le32(flags);
    ok := WriteNext(w, base, h[..8], Le32(flags), whole);
    if !ok { return; }
    assert h[..16] == h[..12] + Le32(count);
    ok := WriteNext(w, base, h[..12], Le32(count), whole);
    if !ok { return; }
    assert h[..20] == h[..16] + Le32(arenaLen);
    ok := WriteNext(w, base, h[..16], Le32(arenaLen), whole);
    if !ok { return; }
    assert h == h[..20] + Le32(0);
    ok := WriteNext(w, base, h[..20], Le32(0), whole);
  }

  method WriteEntry(w: BufWriter, ghost base: Bytes, ghost done: Bytes, e: Entry, ghost whole: Bytes)
    returns (ok: bool)
    requires w.Valid() && w.Stream() == base + done && done + EntryBytes(e) <= whole
    modifies w
    ensures w.Valid()
    ensures ok ==> w.Stream() == base + (done + EntryBytes(e))
    ensures !ok ==> w.Stream() <= base + whole && |w.file| == w.limit && |base + whole| > w.limit
  {
    ghost var b := EntryBytes(e);
    assert b[..8] == Le32(e.kOff) + Le32(e.kLen) && b[..12] == b[..8] + Le32(e.vOff);
    ok := WriteNext(w, base, done, Le32(e.kOff), whole);
    if !ok { return; }
    assert done + b[..8] == done + Le32(e.kOff) + Le32(e.kLen);
    ok := WriteNext(w, base, done + Le32(e.kOff), Le32(e.kLen), whole);
    if !ok { return; }
    assert done + b[..12] == done + b[..8] + Le32(e.vOff);
    ok := WriteNext(w, base, done + b[..8], Le32(e.vOff), whole);
    if !ok { return; }
    assert done + b == done + b[..12] + Le32(e.vLen);
    ok := WriteNext(w, base, done + b[..12], Le32(e.vLen), whole);
  }

  /** Writes the whole image, or stops at the first error with a prefix of it
      accepted and the file full. */
  method WriteCompiled(w: BufWriter, d: Dataset) returns (ok: bool)
    requires w.Valid()
    modifies w
    ensures w.Valid()
    ensures ok ==> w.Stream() == old(w.Stream()) + Image(d)
    ensures !ok ==> w.Stream() <= old(w.Stream()) + Image(d)
    ensures !ok ==> |w.file| == w.limit && |old(w.Stream()) + Image(d)| > w.limit
  {
    ghost var base := w.Stream();
    ghost var whole := Image(d);
    ImageUpToIsPrefix(d, 0);
    ok := WriteHeader(w, base, d.flags, CastU32(|d.entries|), CastU32(|d.arena|), whole);
    if !ok { return; }
    assert ImageUpTo(d, 0) == Header(d.flags, CastU32(|d.entries|), CastU32(|d.arena|));
    var i := 0;
    while i < |d.entries|
      invariant 0 <= i <= |d.entries| && w.Valid()
      invariant w.Stream() == base + ImageUpTo(d, i)
    {
      ImageUpToIsPrefix(d, i);
      ImageUpToIsPrefix(d, i + 1);
      ok := WriteEntry(w, base, ImageUpTo(d, i), d.entries[i], whole);
      if !ok { return; }
      i := i + 1;
    }
    assert d.entries[..i] == d.entries;
    assert ImageUpTo(d, i) + d.arena == whole;
    ok := WriteNext(w, base, ImageUpTo(d, i), d.arena, whole);
  }

  // ---- Reading, as a specification ----

  predicate IsCompiled(data: Bytes) {
    |data| >= |MAGIC| && data[..|MAGIC|] == MAGIC
  }

  function WordAt(data: Bytes, off: nat): U32
    requires off + 4 <= |data|
  {
    LeU32(data[off..off + 4])
  }

  function CountOf(data: Bytes): U32
    requires |data| >= HEADER_LEN
  {
    WordAt(data, 12)
  }

  function ArenaLenOf(data: Bytes): U32
    requires |data| >= HEADER_LEN
  {
    WordAt(data, 16)
  }

  function EntriesEnd(data: Bytes): nat
    requires |data| >= HEADER_LEN
  {
    HEADER_LEN + CountOf(data) * 16
  }

  function TotalOf(data: Bytes): nat
    requires |data| >= HEADER_LEN
  {
    EntriesEnd(data) + ArenaLenOf(data)
  }

  predicate Complete(data: Bytes) {
    |data| >= HEADER_LEN && |data| >= TotalOf(data)
  }

  function EntryAt(data: Bytes, i: nat): Entry
    requires HEADER_LEN + i * 16 + 16 <= |data|
  {
    var o := HEADER_LEN + i * 16;
    Entry(WordAt(data, o), WordAt(data, o + 4), WordAt(data, o + 8), WordAt(data, o + 12))
  }

  /** A key or value window of entry `i` leaves the arena. */
  predicate Escapes(e: Entry, arenaLen: nat) {
    e.kOff + e.kLen > arenaLen || e.vOff + e.vLen > arenaLen
  }

  function Entries(data: Bytes, n: nat): (entries: seq<Entry>)
    requires HEADER_LEN + n * 16 <= |data|
    ensures |entries| == n
  {
    if n == 0 then [] else Entries(data, n - 1) + [EntryAt(data, n - 1)]
  }

  lemma {:induction false} EntriesAt(data: Bytes, n: nat, i: nat)
    requires HEADER_LEN + n * 16 <= |data| && i < n
    ensures Entries(data, n)[i] == EntryAt(data, i)
  {
    if i < n - 1 {
      EntriesAt(data, n - 1, i);
    }
  }

  /** The least escaping index. */
  function FirstEscape(entries: seq<Entry>, arenaLen: nat): (r: Option<nat>)
    ensures r.Some? ==>
              && r.value < |entries| && Escapes(entries[r.value], arenaLen)
              && forall j | 0 <= j < r.value :: !Escapes(entries[j], arenaLen)
    ensures r.None? ==> forall j | 0 <= j < |entries| :: !Escapes(entries[j], arenaLen)
  {
    if entries == [] then None
    else
      match FirstEscape(entries[..|entries| - 1], arenaLen)
      case Some(i) => Some(i)
      case None => if Escapes(entries[|entries| - 1], arenaLen) then Some(|entries| - 1) else None
  }

  lemma FirstEscapeIs(entries: seq<Entry>, arenaLen: nat, i: nat)
    requires i < |entries| && Escapes(entries[i], arenaLen)
    requires forall j | 0 <= j < i :: !Escapes(entries[j], arenaLen)
    ensures FirstEscape(entries, arenaLen) == Some(i)
  {
  }

  function ReadSpec(data: Bytes): Result<Dataset, CompiledError> {
    if |data| < |MAGIC| then Err(Truncated)
    else if !IsCompiled(data) then Err(BadMagic)
    else if !Complete(data) then Err(Truncated)
    else
      var entries := Entries(data, CountOf(data));
      match FirstEscape(entries, ArenaLenOf(data))
      case Some(i) => Err(OutOfBounds(i))
      case None => Ok(Dataset(data[EntriesEnd(data)..TotalOf(data)], entries, WordAt(data, 8)))
  }

  // ---- Reading, as the code does it ----

  function CheckedAdd(a: nat, b: nat, usizeMax: nat): Option<nat> {
    if a + b <= usizeMax then Some(a + b) else None
  }

  function CheckedMul(a: nat, b: nat, usizeMax: nat): Option<nat> {
    if a * b <= usizeMax then Some(a * b) else None
  }

  /** The bounds test with checked sums; an overflow counts as an escape. */
  predicate EscapesChecked(e: Entry, arenaLen: nat, usizeMax: nat): (bad: bool)
    requires arenaLen <= usizeMax
    ensures bad <==> Escapes(e, arenaLen)
  {
    var kEnd := CheckedAdd(e.kOff, e.kLen, usizeMax);
    var vEnd := CheckedAdd(e.vOff, e.vLen, usizeMax);
    kEnd.None? || vEnd.None? || kEnd.value > arenaLen || vEnd.value > arenaLen
  }

  /** The size named by the header, or `None` when a checked sum overflows. */
  method CheckedSizes(data: Bytes, usizeMax: nat) returns (r: Option<(nat, nat)>)
    requires |data| >= HEADER_LEN && U32_MAX <= usizeMax && |data| <= usizeMax
    ensures r.Some? ==> r.value == (EntriesEnd(data), TotalOf(data))
    ensures r.None? ==> TotalOf(data) > usizeMax
  {
    var table := CheckedMul(CountOf(data), 16, usizeMax);
    if table.None? { return None; }
    var entriesEnd := CheckedAdd(HEADER_LEN, table.value, usizeMax);
    if entriesEnd.None? { return None; }
    var total := CheckedAdd(entriesEnd.value, ArenaLenOf(data), usizeMax);
    if total.None? { return None; }
    return Some((entriesEnd.value, total.value));
  }

  /** The entry loop: decode, bounds-check with checked sums, push. */
  method ReadEntries(data: Bytes, usizeMax: nat) returns (r: Result<seq<Entry>, CompiledError>)
    requires U32_MAX <= usizeMax && Complete(data)
    ensures var entries := Entries(data, CountOf(data));
            r == match FirstEscape(entries, ArenaLenOf(data))
                 case Some(i) => Err(OutOfBounds(i))
                 case None => Ok(entries)
  {
    var count, arenaLen := CountOf(data), ArenaLenOf(data);
    ghost var all := Entries(data, count);
    var entries: seq<Entry> := [];
    var i := 0;
    while i < count
      invariant 0 <= i <= count
      invariant entries == all[..i]
      invariant forall j | 0 <= j < i :: !Escapes(all[j], arenaLen)
    {
      var e := EntryAt(data, i);
      EntriesAt(data, count, i);
      if EscapesChecked(e, arenaLen, usizeMax) {
        FirstEscapeIs(all, arenaLen, i);
        return Err(OutOfBounds(i));
      }
      entries := entries + [e];
      i := i + 1;
    }
    assert all[..i] == all;
    r := Ok(entries);
  }

  /** Reads an image on a machine whose `usize` reaches `usizeMax`, which holds
      any `u32` and any buffer length. The result does not depend on it. */
  method ReadCompiled(data: Bytes, usizeMax: nat) returns (r: Result<Dataset, CompiledError>)
    requires U32_MAX <= usizeMax && |data| <= usizeMax
    ensures r == ReadSpec(data)
  {
    if !IsCompiled(data) {
      return Err(if |data| < |MAGIC| then Truncated else BadMagic);
    }
    if |data| < HEADER_LEN {
      return Err(Truncated);
    }
    var sizes := CheckedSizes(data, usizeMax);
    if sizes.None? || |data| < sizes.value.1 {
      return Err(Truncated);
    }
    var (entriesEnd, total) := sizes.value;
    var entries := ReadEntries(data, usizeMax);
    match entries {
      case Err(e) => r := Err(e);
      case Ok(es) => r := Ok(Dataset(data[entriesEnd..total], es, WordAt(data, 8)));
    }
  }
}
