/** Why an entry count always fits 32 bits: distinct keys cannot all be short. */
module EntryCount {
  import opened Basics
  import opened Datasets

  const MAX_ENTRIES: nat := 0x8000_0080

  ghost predicate DistinctRows(rows: seq<Row>) {
    forall i, j | 0 <= i < j < |rows| :: rows[i].key != rows[j].key
  }

  ghost function OneByteKeys(rows: seq<Row>): set<Byte> {
    if rows == [] then {}
    else
      var last := rows[|rows| - 1].key;
      OneByteKeys(rows[..|rows| - 1]) + (if |last| == 1 then {last[0]} else {})
  }

  ghost function EmptyKeys(rows: seq<Row>): nat {
    if exists i | 0 <= i < |rows| :: rows[i].key == [] then 1 else 0
  }

  lemma {:induction false} OneByteKeyHasRow(rows: seq<Row>, b: Byte)
    requires b in OneByteKeys(rows)
    ensures exists i | 0 <= i < |rows| :: rows[i].key == [b]
  {
    var n := |rows| - 1;
    if rows[n].key != [b] {
      OneByteKeyHasRow(rows[..n], b);
      var i :| 0 <= i < n && rows[..n][i].key == [b];
      assert rows[i].key == [b];
    }
  }

  lemma LastKeyIsNew(init: seq<Row>, last: Row)
    requires DistinctRows(init + [last])
    ensures forall i | 0 <= i < |init| :: init[i].key != last.key
  {
    var rows := init + [last];
    assert rows[|init|] == last;
    assert forall i | 0 <= i < |init| :: rows[i] == init[i];
  }

  lemma OneByteKeysGrow(init: seq<Row>, last: Row)
    requires DistinctRows(init + [last])
    ensures |OneByteKeys(init + [last])| == |OneByteKeys(init)| + (if |last.key| == 1 then 1 else 0)
  {
    assert (init + [last])[..|init|] == init;
    LastKeyIsNew(init, last);
    if |last.key| == 1 {
      assert last.key == [last.key[0]];
      if last.key[0] in OneByteKeys(init) {
        OneByteKeyHasRow(init, last.key[0]);
      }
    }
  }

  lemma EmptyKeysGrow(init: seq<Row>, last: Row)
    requires DistinctRows(init + [last])
    ensures EmptyKeys(init + [last]) == EmptyKeys(init) + (if last.key == [] then 1 else 0)
  {
    var rows := init + [last];
    assert rows[|init|] == last;
    LastKeyIsNew(init, last);
    assert forall i | 0 <= i < |init| :: rows[i] == init[i];
  }

  /** Each key pays for two bytes, except one empty key and the one-byte keys. */
  lemma {:induction false} KeysPayForEntries(rows: seq<Row>)
    requires DistinctRows(rows)
    ensures 2 * |rows| <= |Packed(rows)| + |OneByteKeys(rows)| + 2 * EmptyKeys(rows)
  {
    if rows != [] {
      var init, last := rows[..|rows| - 1], rows[|rows| - 1];
      KeysPayForEntries(init);
      assert rows == init + [last];
      OneByteKeysGrow(init, last);
      EmptyKeysGrow(init, last);
    }
  }

  lemma {:induction false} BytesBelow(s: set<Byte>, n: nat)
    requires n <= 256 && forall b | b in s :: b < n
    ensures |s| <= n
  {
    if n == 0 {
      assert s == {};
    } else {
      BytesBelow(s - {n - 1}, n - 1);
    }
  }

  /** An arena below 4 GiB holds at most 2^31 + 128 distinct keys. */
  lemma CountFitsU32(rows: seq<Row>)
    requires Fits(rows) && DistinctRows(rows)
    ensures |rows| <= MAX_ENTRIES < TWO32
  {
    KeysPayForEntries(rows);
    BytesBelow(OneByteKeys(rows), 256);
  }
}
