/** Rows packed into an arena: what the loader builds, stated without a loop. */
module Datasets {
  import opened Basics
  import opened Stores

  datatype Row = Row(line: nat, key: Bytes, val: Bytes)

  /** Keys and values back to back, in row order. */
  function Packed(rows: seq<Row>): Bytes {
    if rows == [] then []
    else
      var last := rows[|rows| - 1];
      Packed(rows[..|rows| - 1]) + last.key + last.val
  }

  ghost predicate Fits(rows: seq<Row>) {
    |Packed(rows)| <= U32_MAX
  }

  /** The window of each row inside `Packed(rows)`. */
  ghost function Layout(rows: seq<Row>): (entries: seq<Entry>)
    requires Fits(rows)
    ensures |entries| == |rows|
  {
    if rows == [] then []
    else
      var init, last := rows[..|rows| - 1], rows[|rows| - 1];
      var off := |Packed(init)|;
      Layout(init) + [Entry(off, |last.key|, off + |last.key|, |last.val|)]
  }

  /** The entries cover the arena from its first byte to its last, key then
      value, without gap or overlap. */
  ghost predicate Tiles(arena: Bytes, entries: seq<Entry>) {
    && (entries == [] ==> arena == [])
    && (entries != [] ==>
          var last := entries[|entries| - 1];
          entries[0].kOff == 0 && last.vOff + last.vLen == |arena|)
    && (forall i | 0 <= i < |entries| :: entries[i].vOff == entries[i].kOff + entries[i].kLen)
    && (forall i | 0 < i < |entries| :: entries[i].kOff == entries[i - 1].vOff + entries[i - 1].vLen)
  }

  lemma {:induction false} LayoutTiles(rows: seq<Row>)
    requires Fits(rows)
    ensures Tiles(Packed(rows), Layout(rows))
  {
    if rows != [] {
      LayoutTiles(rows[..|rows| - 1]);
    }
  }

  /** Two windows over a longer arena read the same bytes: appending never
      changes a key that is already there. */
  lemma AppendKeepsWindows(arena: Bytes, suffix: Bytes, e: Entry)
    requires InRange(arena, e)
    ensures InRange(arena + suffix, e)
    ensures Key(arena + suffix, e) == Key(arena, e) && Value(arena + suffix, e) == Value(arena, e)
  {
  }

  lemma NewestWindows(arena: Bytes, key: Bytes, val: Bytes)
    requires |arena| + |key| + |val| <= U32_MAX
    ensures var e, whole := Entry(|arena|, |key|, |arena| + |key|, |val|), arena + (key + val);
            InRange(whole, e) && Key(whole, e) == key && Value(whole, e) == val
  {
  }

  lemma LayoutEnds(rows: seq<Row>)
    requires Fits(rows) && rows != []
    ensures var init, last := rows[..|rows| - 1], rows[|rows| - 1];
            && Fits(init) && Packed(rows) == Packed(init) + (last.key + last.val)
            && Layout(rows)[..|rows| - 1] == Layout(init)
            && Layout(rows)[|rows| - 1]
               == Entry(|Packed(init)|, |last.key|, |Packed(init)| + |last.key|, |last.val|)
  {
  }

  lemma {:induction false} LayoutReadsBack(rows: seq<Row>, i: nat)
    requires Fits(rows) && i < |rows|
    ensures InRange(Packed(rows), Layout(rows)[i])
    ensures Key(Packed(rows), Layout(rows)[i]) == rows[i].key
    ensures Value(Packed(rows), Layout(rows)[i]) == rows[i].val
  {
    var n := |rows| - 1;
    var init, last := rows[..n], rows[n];
    LayoutEnds(rows);
    if i < n {
      LayoutReadsBack(init, i);
      assert Layout(rows)[i] == Layout(init)[i];
      AppendKeepsWindows(Packed(init), last.key + last.val, Layout(init)[i]);
    } else {
      NewestWindows(Packed(init), last.key, last.val);
    }
  }

  lemma LayoutInRange(rows: seq<Row>)
    requires Fits(rows)
    ensures AllInRange(Packed(rows), Layout(rows))
  {
    forall i | 0 <= i < |rows|
      ensures InRange(Packed(rows), Layout(rows)[i])
    {
      LayoutReadsBack(rows, i);
    }
  }

  lemma {:induction false} PackedPrefix(rows: seq<Row>, n: nat)
    requires n <= |rows|
    ensures |Packed(rows[..n])| <= |Packed(rows)|
  {
    if n < |rows| {
      PackedPrefix(rows[..|rows| - 1], n);
      assert rows[..|rows| - 1][..n] == rows[..n];
    } else {
      assert rows[..n] == rows;
    }
  }
}
