/** Arena windows and the immutable store built over them. */
module Stores {
  import opened Basics
  import opened HashTables

  datatype Entry = Entry(kOff: U32, kLen: U32, vOff: U32, vLen: U32)

  /** `&arena[off as usize..(off + len) as usize]` with a 32-bit sum that wraps;
      `None` is the panic of an ill-formed slice. A wrapped sum lies below `off`,
      so a window is either exactly right or a panic, never other bytes. */
  function Window(arena: Bytes, off: U32, len: U32): (r: Option<Bytes>)
    ensures r.Some? <==> off + len <= U32_MAX && off + len <= |arena|
    ensures r.Some? ==> r.value == arena[off..off + len]
  {
    var end := AddU32(off, len);
    if off <= end <= |arena| then Some(arena[off..end]) else None
  }

  /** What the callers of `from_parts` owe for each entry. */
  predicate InRange(arena: Bytes, e: Entry) {
    && e.kOff + e.kLen <= U32_MAX && e.kOff + e.kLen <= |arena|
    && e.vOff + e.vLen <= U32_MAX && e.vOff + e.vLen <= |arena|
  }

  function Key(arena: Bytes, e: Entry): Bytes
    requires InRange(arena, e)
  {
    Window(arena, e.kOff, e.kLen).value
  }

  function Value(arena: Bytes, e: Entry): Bytes
    requires InRange(arena, e)
  {
    Window(arena, e.vOff, e.vLen).value
  }

  ghost predicate AllInRange(arena: Bytes, entries: seq<Entry>) {
    forall i | 0 <= i < |entries| :: InRange(arena, entries[i])
  }

  ghost predicate DistinctKeys(arena: Bytes, entries: seq<Entry>)
    requires AllInRange(arena, entries)
  {
    forall i, j | 0 <= i < j < |entries| :: Key(arena, entries[i]) != Key(arena, entries[j])
  }

  /** The closure `from_parts` hands to the table: rehash an entry from the arena. */
  function EntryHasher(arena: Bytes, hash: Bytes -> U64): Entry --> U64 {
    (e: Entry) requires InRange(arena, e) => hash(Key(arena, e))
  }

  /** The closure `get` hands to the table. */
  function KeyIs(arena: Bytes, key: Bytes): Entry --> bool {
    (e: Entry) requires InRange(arena, e) => Key(arena, e) == key
  }

  /** The finite map a list of entries denotes. */
  ghost function Contents(arena: Bytes, entries: seq<Entry>): map<Bytes, Bytes>
    requires AllInRange(arena, entries)
  {
    if entries == [] then map[]
    else
      var last := entries[|entries| - 1];
      Contents(arena, entries[..|entries| - 1])[Key(arena, last) := Value(arena, last)]
  }

  ghost predicate HasKey(arena: Bytes, entries: seq<Entry>, k: Bytes)
    requires AllInRange(arena, entries)
  {
    exists i | 0 <= i < |entries| :: Key(arena, entries[i]) == k
  }

  lemma {:induction false} ContentsKeys(arena: Bytes, entries: seq<Entry>, k: Bytes)
    requires AllInRange(arena, entries)
    ensures k in Contents(arena, entries) <==> HasKey(arena, entries, k)
  {
    if entries != [] {
      var n := |entries| - 1;
      ContentsKeys(arena, entries[..n], k);
      if HasKey(arena, entries, k) && Key(arena, entries[n]) != k {
        var i :| 0 <= i < |entries| && Key(arena, entries[i]) == k;
        assert Key(arena, entries[..n][i]) == k;
      }
    }
  }

  lemma {:induction false} ContentsAt(arena: Bytes, entries: seq<Entry>, i: nat)
    requires AllInRange(arena, entries) && DistinctKeys(arena, entries)
    requires i < |entries|
    ensures MapGet(Contents(arena, entries), Key(arena, entries[i])) == Some(Value(arena, entries[i]))
  {
    var n := |entries| - 1;
    if i < n {
      ContentsAt(arena, entries[..n], i);
      assert Key(arena, entries[i]) != Key(arena, entries[n]);
    }
  }

  lemma {:induction false} ContentsSize(arena: Bytes, entries: seq<Entry>)
    requires AllInRange(arena, entries) && DistinctKeys(arena, entries)
    ensures |Contents(arena, entries)| == |entries|
  {
    if entries != [] {
      var n := |entries| - 1;
      ContentsSize(arena, entries[..n]);
      ContentsKeys(arena, entries[..n], Key(arena, entries[n]));
    }
  }

  class Store {
    const arena: Bytes
    const hash: Bytes -> U64
    const table: HashTable<Entry>

    ghost predicate Valid()
      reads this, table, table.buckets
    {
      && table.Valid()
      && (forall e | e in table.Items() :: InRange(arena, e))
      && table.FiledBy(EntryHasher(arena, hash))
    }

    /** Repeated keys are accepted: neither this constructor nor the table checks. */
    constructor FromParts(arena: Bytes, entries: seq<Entry>, hash: Bytes -> U64)
      requires AllInRange(arena, entries)
      ensures Valid() && fresh(table) && fresh(table.buckets)
      ensures this.arena == arena && this.hash == hash
      ensures table.Items() == multiset(entries)
    {
      var t := new HashTable<Entry>.WithCapacity(|entries|);
      var i := 0;
      while i < |entries|
        invariant 0 <= i <= |entries|
        invariant fresh(t) && fresh(t.buckets) && t.Valid()
        invariant t.Items() == multiset(entries[..i])
        invariant t.FiledBy(EntryHasher(arena, hash))
      {
        assert entries[..i + 1] == entries[..i] + [entries[i]];
        var h := hash(Key(arena, entries[i]));
        t.InsertUnique(h, entries[i], EntryHasher(arena, hash));
        i := i + 1;
      }
      assert entries[..i] == entries;
      this.arena := arena;
      this.hash := hash;
      this.table := t;
    }

    /** Whatever the entries are, even with repeated keys: a miss means that no
        entry has the key, and a hit is the value of some entry that has it. */
    function Get(key: Bytes): (r: Option<Bytes>)
      requires Valid()
      reads this, table, table.buckets
      ensures r.None? <==> forall e | e in table.Items() :: Key(arena, e) != key
      ensures r.Some? ==> exists e | e in table.Items() :: Key(arena, e) == key && r.value == Value(arena, e)
    {
      table.FindMissesExactly(hash(key), KeyIs(arena, key), EntryHasher(arena, hash));
      match table.Find(hash(key), KeyIs(arena, key))
      case None => None
      case Some(e) => Window(arena, e.vOff, e.vLen)
    }

    function Len(): nat
      reads this, table
    {
      table.count
    }
  }

  /** What a lookup returns, for any entries at all: nothing exactly when no entry
      has the key, otherwise the value of one that has it. */
  lemma GetFindsSomeEntry(s: Store, entries: seq<Entry>, key: Bytes)
    requires s.Valid() && s.table.Items() == multiset(entries) && AllInRange(s.arena, entries)
    ensures s.Get(key).None? <==> !HasKey(s.arena, entries, key)
    ensures s.Get(key).Some? ==> exists i | 0 <= i < |entries| ::
              Key(s.arena, entries[i]) == key && s.Get(key) == Some(Value(s.arena, entries[i]))
  {
    if s.Get(key).Some? {
      var e :| e in s.table.Items() && Key(s.arena, e) == key && s.Get(key).value == Value(s.arena, e);
      var i :| 0 <= i < |entries| && entries[i] == e;
      assert Key(s.arena, entries[i]) == key;
    }
    forall i | 0 <= i < |entries|
      ensures entries[i] in s.table.Items()
    {
    }
  }

  /** A store over entries with distinct keys is a finite map, for every hash. */
  lemma StoreRefinesMap(s: Store, entries: seq<Entry>, key: Bytes)
    requires s.Valid() && s.table.Items() == multiset(entries)
    requires AllInRange(s.arena, entries) && DistinctKeys(s.arena, entries)
    ensures s.Get(key) == MapGet(Contents(s.arena, entries), key)
    ensures s.Len() == |Contents(s.arena, entries)|
  {
    ContentsSize(s.arena, entries);
    ContentsKeys(s.arena, entries, key);
    GetFindsSomeEntry(s, entries, key);
    if s.Get(key).Some? {
      var i :| 0 <= i < |entries| && Key(s.arena, entries[i]) == key && s.Get(key) == Some(Value(s.arena, entries[i]));
      ContentsAt(s.arena, entries, i);
    }
  }

  /** Neither the order of the entries nor the hash can be observed. */
  lemma OrderAndHashAreInvisible(s: Store, t: Store, entries: seq<Entry>, permuted: seq<Entry>, key: Bytes)
    requires s.Valid() && s.table.Items() == multiset(entries)
    requires t.Valid() && t.table.Items() == multiset(permuted)
    requires s.arena == t.arena && multiset(entries) == multiset(permuted)
    requires AllInRange(s.arena, entries) && DistinctKeys(s.arena, entries)
    ensures s.Get(key) == t.Get(key) && s.Len() == t.Len()
  {
    StoreRefinesMap(s, entries, key);
    StoreRefinesMap(t, entries, key);
  }
}
