/** Delimited text: the quoting printer, and a decoder that follows the grammar
    of section 2 of RFC 4180 one byte at a time. A row may also end in a bare LF,
    which is how the printer ends its rows. */
module Rfc4180 {
  import opened Basics
  import opened CsvSpec

  const QUOTE: Byte := 0x22
  const COMMA: Byte := 0x2C
  const CR: Byte := 0x0D
  const LF: Byte := 0x0A

  /** Where the decoder stands: at the start of a field, inside an unquoted or a
      quoted field, just after a quote inside a quoted field, after a CR that
      must be followed by LF, or past a byte the grammar does not allow. */
  datatype Mode = FieldStart | Unquoted | Quoted | QuoteSeen | CrSeen | Broken

  datatype Decoder = Decoder(rows: seq<seq<Bytes>>, row: seq<Bytes>, field: Bytes, mode: Mode) {
    function EndField(): Decoder {
      Decoder(rows, row + [field], [], FieldStart)
    }

    function EndRow(): Decoder {
      Decoder(rows + [row + [field]], [], [], FieldStart)
    }

    function Step(b: Byte, delimiter: Byte): Decoder {
      match mode
      case Broken => this
      case CrSeen => if b == LF then EndRow() else this.(mode := Broken)
      case Quoted => if b == QUOTE then this.(mode := QuoteSeen) else this.(field := field + [b])
      case QuoteSeen =>
        if b == QUOTE then this.(field := field + [QUOTE], mode := Quoted)
        else if b == delimiter then EndField()
        else if b == LF then EndRow()
        else if b == CR then this.(mode := CrSeen)
        else this.(mode := Broken)
      case FieldStart =>
        if b == QUOTE then this.(mode := Quoted)
        else Plain(b, delimiter)
      case Unquoted => if b == QUOTE then this.(mode := Broken) else Plain(b, delimiter)
    }

    function Plain(b: Byte, delimiter: Byte): Decoder {
      if b == delimiter then EndField()
      else if b == LF then EndRow()
      else if b == CR then this.(mode := CrSeen)
      else this.(field := field + [b], mode := Unquoted)
    }

    function Run(data: Bytes, delimiter: Byte): Decoder
      decreases |data|
    {
      if data == [] then this else Step(data[0], delimiter).Run(data[1..], delimiter)
    }
  }

  datatype Decoded = Decoded(rows: seq<seq<Bytes>>, malformed: bool)

  const START := Decoder([], [], [], FieldStart)

  /** The last row may lack its line break; an open quote or a lone CR is an error. */
  function Finish(d: Decoder): Decoded {
    match d.mode
    case Broken => Decoded(d.rows, true)
    case CrSeen => Decoded(d.rows, true)
    case Quoted => Decoded(d.rows, true)
    case _ => if d.mode == FieldStart && d.row == [] then Decoded(d.rows, false) else Decoded(d.EndRow().rows, false)
  }

  function Decode(data: Bytes, delimiter: Byte): Decoded {
    Finish(START.Run(data, delimiter))
  }

  /** What the record reader answers: the rows, without a header if there is one,
      each with the line the reader attaches, then a malformed event if any. */
  function ReaderEvents(data: Bytes, opts: LoadOptions, lines: nat -> Option<nat>): seq<Event> {
    var d := Decode(data, opts.delimiter);
    var rows := if opts.hasHeader && d.rows != [] then d.rows[1..] else d.rows;
    seq(|rows|, i requires 0 <= i < |rows| => Record(lines(i), rows[i]))
      + (if d.malformed then [Malformed("not a valid quoted record")] else [])
  }

  // ---- The printer ----

  /** `replace('"', "\"\"")`. */
  function Doubled(s: Bytes): Bytes {
    if s == [] then []
    else if s[0] == QUOTE then [QUOTE, QUOTE] + Doubled(s[1..])
    else [s[0]] + Doubled(s[1..])
  }

  function QuotedField(s: Bytes): Bytes {
    [QUOTE] + Doubled(s) + [QUOTE]
  }

  function PairLine(p: (Bytes, Bytes)): Bytes {
    QuotedField(p.0) + [COMMA] + QuotedField(p.1) + [LF]
  }

  ghost function CsvOf(pairs: seq<(Bytes, Bytes)>): Bytes {
    if pairs == [] then [] else CsvOf(pairs[..|pairs| - 1]) + PairLine(pairs[|pairs| - 1])
  }

  lemma LinePieces(before: Bytes, k: Bytes, v: Bytes)
    ensures before + [QUOTE] + k + [QUOTE, COMMA, QUOTE] + v + [QUOTE, LF]
            == before + ([QUOTE] + k + [QUOTE] + [COMMA] + ([QUOTE] + v + [QUOTE]) + [LF])
  {
  }

  method ToCsv(pairs: seq<(Bytes, Bytes)>) returns (out: Bytes)
    ensures out == CsvOf(pairs)
  {
    out := [];
    var i := 0;
    while i < |pairs|
      invariant 0 <= i <= |pairs|
      invariant out == CsvOf(pairs[..i])
    {
      ghost var before := out;
      var (k, v) := pairs[i];
      out := out + [QUOTE];
      out := out + Doubled(k);
      out := out + [QUOTE, COMMA, QUOTE];
      out := out + Doubled(v);
      out := out + [QUOTE, LF];
      LinePieces(before, Doubled(k), Doubled(v));
      assert pairs[..i + 1][..i] == pairs[..i];
      i := i + 1;
    }
    assert pairs[..i] == pairs;
  }

  // ---- Decoding what was printed ----

  lemma {:induction false} RunConcat(d: Decoder, a: Bytes, b: Bytes, delimiter: Byte)
    ensures d.Run(a + b, delimiter) == d.Run(a, delimiter).Run(b, delimiter)
    decreases |a|
  {
    if a == [] {
      assert a + b == b;
    } else {
      RunConcat(d.Step(a[0], delimiter), a[1..], b, delimiter);
      assert (a + b)[1..] == a[1..] + b;
    }
  }

  lemma {:induction false} RunDoubled(d: Decoder, s: Bytes, delimiter: Byte)
    requires d.mode == Quoted
    ensures d.Run(Doubled(s), delimiter) == d.(field := d.field + s)
    decreases |s|
  {
    if s == [] {
      assert d.field + [] == d.field;
    } else {
      var head := if s[0] == QUOTE then [QUOTE, QUOTE] else [s[0]];
      var next := d.(field := d.field + [s[0]]);
      RunHead(d, s[0], delimiter);
      RunConcat(d, head, Doubled(s[1..]), delimiter);
      RunDoubled(next, s[1..], delimiter);
      assert d.field + [s[0]] + s[1..] == d.field + s;
    }
  }

  lemma RunHead(d: Decoder, b: Byte, delimiter: Byte)
    requires d.mode == Quoted
    ensures d.Run(if b == QUOTE then [QUOTE, QUOTE] else [b], delimiter) == d.(field := d.field + [b])
  {
    if b == QUOTE {
      var s: Bytes := [QUOTE, QUOTE];
      assert s[1..] == [QUOTE];
      assert d.Run(s, delimiter) == d.(mode := QuoteSeen).Run([QUOTE], delimiter);
    }
  }

  lemma RunOne(d: Decoder, b: Byte, delimiter: Byte)
    ensures d.Run([b], delimiter) == d.Step(b, delimiter)
  {
  }

  /** A quoted field is read back whatever bytes it holds. */
  lemma RunQuotedField(d: Decoder, s: Bytes, delimiter: Byte)
    requires d.mode == FieldStart && d.field == []
    ensures d.Run(QuotedField(s), delimiter) == d.(field := s, mode := QuoteSeen)
  {
    var inside := d.(mode := Quoted);
    RunOne(d, QUOTE, delimiter);
    RunConcat(d, [QUOTE], Doubled(s), delimiter);
    RunDoubled(inside, s, delimiter);
    assert inside.field + s == s;
    RunConcat(d, [QUOTE] + Doubled(s), [QUOTE], delimiter);
    RunOne(inside.(field := s), QUOTE, delimiter);
  }

  /** Bytes that may stand in a field without quotes. */
  predicate Bare(s: Bytes, delimiter: Byte) {
    forall i | 0 <= i < |s| :: s[i] != QUOTE && s[i] != delimiter && s[i] != CR && s[i] != LF
  }

  /** An unquoted field is read back too, if no byte in it needs quoting. */
  lemma {:induction false} RunBareField(d: Decoder, s: Bytes, delimiter: Byte)
    requires d.mode == FieldStart || d.mode == Unquoted
    requires s != [] && Bare(s, delimiter)
    ensures d.Run(s, delimiter) == d.(field := d.field + s, mode := Unquoted)
    decreases |s|
  {
    var next := d.(field := d.field + [s[0]], mode := Unquoted);
    assert d.Step(s[0], delimiter) == next;
    if |s| > 1 {
      RunBareField(next, s[1..], delimiter);
      assert d.field + [s[0]] + s[1..] == d.field + s;
    } else {
      assert s == [s[0]];
      assert next.Run(s[1..], delimiter) == next;
    }
  }

  // ---- Every rendering the grammar allows ----

  function FieldText(s: Bytes, quoted: bool): Bytes {
    if quoted then QuotedField(s) else s
  }

  /** How a row is written: which fields are quoted, and how the line ends. */
  datatype Style = Style(quoted: seq<bool>, crlf: bool)

  ghost predicate Renders(row: seq<Bytes>, quoted: seq<bool>, delimiter: Byte) {
    && row != [] && |quoted| == |row|
    && forall i | 0 <= i < |row| :: quoted[i] || Bare(row[i], delimiter)
  }

  function RowText(row: seq<Bytes>, quoted: seq<bool>, delimiter: Byte): Bytes
    requires row != [] && |quoted| == |row|
  {
    if |row| == 1 then FieldText(row[0], quoted[0])
    else FieldText(row[0], quoted[0]) + [delimiter] + RowText(row[1..], quoted[1..], delimiter)
  }

  function Break(crlf: bool): Bytes {
    if crlf then [CR, LF] else [LF]
  }

  ghost predicate AllRender(rows: seq<seq<Bytes>>, styles: seq<Style>, delimiter: Byte) {
    |styles| == |rows| && forall i | 0 <= i < |rows| :: Renders(rows[i], styles[i].quoted, delimiter)
  }

  ghost function FileText(rows: seq<seq<Bytes>>, styles: seq<Style>, delimiter: Byte): Bytes
    requires AllRender(rows, styles, delimiter)
  {
    if rows == [] then []
    else
      var n := |rows| - 1;
      FileText(rows[..n], styles[..n], delimiter)
        + RowText(rows[n], styles[n].quoted, delimiter) + Break(styles[n].crlf)
  }

  predicate Separates(delimiter: Byte) {
    delimiter != QUOTE && delimiter != CR && delimiter != LF
  }

  function AfterField(s: Bytes, quoted: bool): Mode {
    if quoted then QuoteSeen else if s == [] then FieldStart else Unquoted
  }

  lemma RunField(d: Decoder, s: Bytes, quoted: bool, delimiter: Byte)
    requires d.mode == FieldStart && d.field == [] && (quoted || Bare(s, delimiter))
    ensures d.Run(FieldText(s, quoted), delimiter) == d.(field := s, mode := AfterField(s, quoted))
  {
    if quoted {
      RunQuotedField(d, s, delimiter);
    } else if s != [] {
      RunBareField(d, s, delimiter);
      assert d.field + s == s;
    }
  }

  lemma RunBreak(d: Decoder, crlf: bool, delimiter: Byte)
    requires d.mode in {FieldStart, Unquoted, QuoteSeen} && Separates(delimiter)
    ensures d.Run(Break(crlf), delimiter) == d.EndRow()
  {
    RunOne(d, LF, delimiter);
    if crlf {
      RunConcat(d, [CR], [LF], delimiter);
      RunOne(d, CR, delimiter);
      RunOne(d.(mode := CrSeen), LF, delimiter);
      assert [CR] + [LF] == [CR, LF];
    }
  }

  lemma RunCell(d: Decoder, s: Bytes, quoted: bool, rest: Bytes, delimiter: Byte)
    requires d.mode == FieldStart && d.field == [] && (quoted || Bare(s, delimiter)) && Separates(delimiter)
    ensures d.Run(FieldText(s, quoted) + [delimiter] + rest, delimiter)
            == d.(row := d.row + [s]).Run(rest, delimiter)
  {
    var text := FieldText(s, quoted);
    RunField(d, s, quoted, delimiter);
    RunConcat(d, text, [delimiter], delimiter);
    RunOne(d.(field := s, mode := AfterField(s, quoted)), delimiter, delimiter);
    RunConcat(d, text + [delimiter], rest, delimiter);
  }

  lemma {:induction false} RunRow(d: Decoder, row: seq<Bytes>, quoted: seq<bool>, delimiter: Byte)
    requires d.mode == FieldStart && d.field == [] && Renders(row, quoted, delimiter) && Separates(delimiter)
    ensures var n := |row| - 1;
            d.Run(RowText(row, quoted, delimiter), delimiter)
            == d.(row := d.row + row[..n], field := row[n], mode := AfterField(row[n], quoted[n]))
    decreases |row|
  {
    if |row| == 1 {
      RunField(d, row[0], quoted[0], delimiter);
      assert d.row + row[..0] == d.row;
    } else {
      RunCell(d, row[0], quoted[0], RowText(row[1..], quoted[1..], delimiter), delimiter);
      RunRow(d.(row := d.row + [row[0]]), row[1..], quoted[1..], delimiter);
      assert d.row + [row[0]] + row[1..][..|row| - 2] == d.row + row[..|row| - 1];
    }
  }

  lemma RunLine(d: Decoder, row: seq<Bytes>, quoted: seq<bool>, crlf: bool, delimiter: Byte)
    requires d.mode == FieldStart && d.field == [] && d.row == []
    requires Renders(row, quoted, delimiter) && Separates(delimiter)
    ensures d.Run(RowText(row, quoted, delimiter) + Break(crlf), delimiter) == d.(rows := d.rows + [row])
  {
    var n := |row| - 1;
    RunRow(d, row, quoted, delimiter);
    RunConcat(d, RowText(row, quoted, delimiter), Break(crlf), delimiter);
    RunBreak(d.(row := d.row + row[..n], field := row[n], mode := AfterField(row[n], quoted[n])), crlf, delimiter);
    assert d.row + row[..n] + [row[n]] == row;
  }

  lemma {:induction false} RunFile(rows: seq<seq<Bytes>>, styles: seq<Style>, delimiter: Byte)
    requires AllRender(rows, styles, delimiter) && Separates(delimiter)
    ensures START.Run(FileText(rows, styles, delimiter), delimiter) == START.(rows := rows)
  {
    if rows != [] {
      var n := |rows| - 1;
      var before := FileText(rows[..n], styles[..n], delimiter);
      var text, eol := RowText(rows[n], styles[n].quoted, delimiter), Break(styles[n].crlf);
      RunFile(rows[..n], styles[..n], delimiter);
      LineAtEnd(before, text, eol);
      RunConcat(START, before, text + eol, delimiter);
      RunLine(START.(rows := rows[..n]), rows[n], styles[n].quoted, styles[n].crlf, delimiter);
      assert rows[..n] + [rows[n]] == rows;
    }
  }

  /** Whatever fields are quoted and however lines end, decoding gives back the
      rows. */
  lemma DecodesEveryRendering(rows: seq<seq<Bytes>>, styles: seq<Style>, delimiter: Byte)
    requires AllRender(rows, styles, delimiter) && Separates(delimiter)
    ensures Decode(FileText(rows, styles, delimiter), delimiter) == Decoded(rows, false)
  {
    RunFile(rows, styles, delimiter);
  }

  /** So the record reader hands on the rows of any rendering, in order, all but a
      header. */
  lemma RenderingIsRead(rows: seq<seq<Bytes>>, styles: seq<Style>, opts: LoadOptions, lines: nat -> Option<nat>)
    requires AllRender(rows, styles, opts.delimiter) && Separates(opts.delimiter)
    ensures var events := ReaderEvents(FileText(rows, styles, opts.delimiter), opts, lines);
            var kept := if opts.hasHeader && rows != [] then rows[1..] else rows;
            |events| == |kept| && forall i | 0 <= i < |kept| :: events[i] == Record(lines(i), kept[i])
  {
    DecodesEveryRendering(rows, styles, opts.delimiter);
  }

  /** The line break after the last row may be missing, unless the row is one
      empty unquoted field, which nothing else would show. */
  lemma DecodesWithoutLastBreak(rows: seq<seq<Bytes>>, styles: seq<Style>, last: seq<Bytes>, quoted: seq<bool>,
                                delimiter: Byte)
    requires AllRender(rows, styles, delimiter) && Separates(delimiter)
    requires Renders(last, quoted, delimiter) && (last != [[]] || quoted[0])
    ensures Decode(FileText(rows, styles, delimiter) + RowText(last, quoted, delimiter), delimiter)
            == Decoded(rows + [last], false)
  {
    RunFileAndRow(rows, styles, last, quoted, delimiter);
    EndInRow(FileText(rows, styles, delimiter) + RowText(last, quoted, delimiter), rows, last, quoted, delimiter);
  }

  lemma EndInRow(text: Bytes, rows: seq<seq<Bytes>>, last: seq<Bytes>, quoted: seq<bool>, delimiter: Byte)
    requires last != [] && |quoted| == |last| && (last != [[]] || quoted[0])
    requires var n := |last| - 1;
             START.Run(text, delimiter) == Decoder(rows, last[..n], last[n], AfterField(last[n], quoted[n]))
    ensures Decode(text, delimiter) == Decoded(rows + [last], false)
  {
    var n := |last| - 1;
    assert last[..n] + [last[n]] == last;
    EndOfText(text, delimiter, Decoder(rows, last[..n], last[n], AfterField(last[n], quoted[n])), last);
  }

  lemma RunFileAndRow(rows: seq<seq<Bytes>>, styles: seq<Style>, last: seq<Bytes>, quoted: seq<bool>, delimiter: Byte)
    requires AllRender(rows, styles, delimiter) && Renders(last, quoted, delimiter) && Separates(delimiter)
    ensures var n := |last| - 1;
            START.Run(FileText(rows, styles, delimiter) + RowText(last, quoted, delimiter), delimiter)
            == Decoder(rows, last[..n], last[n], AfterField(last[n], quoted[n]))
  {
    var n := |last| - 1;
    RunFile(rows, styles, delimiter);
    RunConcat(START, FileText(rows, styles, delimiter), RowText(last, quoted, delimiter), delimiter);
    RunRow(START.(rows := rows), last, quoted, delimiter);
    assert [] + last[..n] == last[..n];
  }

  lemma EndOfText(text: Bytes, delimiter: Byte, d: Decoder, last: seq<Bytes>)
    requires START.Run(text, delimiter) == d
    requires d.row + [d.field] == last && d.mode in {FieldStart, Unquoted, QuoteSeen}
    requires d.mode == FieldStart ==> last != [[]] && d.field == []
    ensures Decode(text, delimiter) == Decoded(d.rows + [last], false)
  {
    if d.row == [] {
      assert last == [d.field];
    }
  }

  /** What the grammar excludes is reported: text after a closing quote. */
  lemma TextAfterQuoteIsMalformed(s: Bytes, b: Byte, rest: Bytes, delimiter: Byte)
    requires b != QUOTE && b != delimiter && b != CR && b != LF
    ensures Decode(QuotedField(s) + [b] + rest, delimiter).malformed
  {
    RunQuotedField(START, s, delimiter);
    RunConcat(START, QuotedField(s), [b], delimiter);
    RunOne(START.(field := s, mode := QuoteSeen), b, delimiter);
    RunConcat(START, QuotedField(s) + [b], rest, delimiter);
    BrokenStays(START.(field := s, mode := Broken), rest, delimiter);
  }

  lemma {:induction false} BrokenStays(d: Decoder, data: Bytes, delimiter: Byte)
    requires d.mode == Broken
    ensures d.Run(data, delimiter) == d
    decreases |data|
  {
    if data != [] {
      BrokenStays(d, data[1..], delimiter);
    }
  }

  // ---- The quoting printer is one of the renderings ----

  ghost function PairRows(pairs: seq<(Bytes, Bytes)>): (rows: seq<seq<Bytes>>)
    ensures |rows| == |pairs|
  {
    seq(|pairs|, i requires 0 <= i < |pairs| => [pairs[i].0, pairs[i].1])
  }

  ghost function PairStyles(n: nat): (styles: seq<Style>)
    ensures |styles| == n
  {
    seq(n, _ => Style([true, true], false))
  }

  lemma PairLineIsRowText(p: (Bytes, Bytes))
    ensures PairLine(p) == RowText([p.0, p.1], [true, true], COMMA) + Break(false)
  {
    var row, quoted := [p.0, p.1], [true, true];
    assert row[1..] == [p.1] && quoted[1..] == [true];
  }

  lemma FileTextPush(rows: seq<seq<Bytes>>, styles: seq<Style>, row: seq<Bytes>, style: Style, delimiter: Byte)
    requires AllRender(rows, styles, delimiter) && Renders(row, style.quoted, delimiter)
    ensures AllRender(rows + [row], styles + [style], delimiter)
    ensures FileText(rows + [row], styles + [style], delimiter)
            == FileText(rows, styles, delimiter) + RowText(row, style.quoted, delimiter) + Break(style.crlf)
  {
    assert (rows + [row])[..|rows|] == rows && (styles + [style])[..|rows|] == styles;
  }

  lemma RowsAndStylesPush(init: seq<(Bytes, Bytes)>, p: (Bytes, Bytes))
    ensures PairRows(init + [p]) == PairRows(init) + [[p.0, p.1]]
    ensures PairStyles(|init| + 1) == PairStyles(|init|) + [Style([true, true], false)]
  {
  }

  lemma CsvStep(init: seq<(Bytes, Bytes)>, p: (Bytes, Bytes), rows: seq<seq<Bytes>>, styles: seq<Style>)
    requires AllRender(rows, styles, COMMA) && CsvOf(init) == FileText(rows, styles, COMMA)
    ensures var rows', styles' := rows + [[p.0, p.1]], styles + [Style([true, true], false)];
            AllRender(rows', styles', COMMA) && CsvOf(init + [p]) == FileText(rows', styles', COMMA)
  {
    FileTextPush(rows, styles, [p.0, p.1], Style([true, true], false), COMMA);
    CsvPush(init, p);
  }

  lemma {:induction false} CsvIsFileText(pairs: seq<(Bytes, Bytes)>)
    ensures AllRender(PairRows(pairs), PairStyles(|pairs|), COMMA)
    ensures CsvOf(pairs) == FileText(PairRows(pairs), PairStyles(|pairs|), COMMA)
  {
    if pairs != [] {
      var init, p := pairs[..|pairs| - 1], pairs[|pairs| - 1];
      assert pairs == init + [p];
      CsvIsFileText(init);
      RowsAndStylesPush(init, p);
      CsvStep(init, p, PairRows(init), PairStyles(|init|));
    }
  }

  lemma CsvPush(init: seq<(Bytes, Bytes)>, p: (Bytes, Bytes))
    ensures CsvOf(init + [p]) == CsvOf(init) + RowText([p.0, p.1], [true, true], COMMA) + Break(false)
  {
    PairLineIsRowText(p);
    assert (init + [p])[..|init|] == init;
    LineAtEnd(CsvOf(init), RowText([p.0, p.1], [true, true], COMMA), Break(false));
  }

  lemma LineAtEnd(a: Bytes, b: Bytes, c: Bytes)
    ensures a + (b + c) == a + b + c
  {
  }

  /** The bytes themselves: `"a","b""c"` and a line feed. */
  lemma PrintedBytes()
    ensures PairLine(([0x61], [0x62, 0x22, 0x63]))
            == [0x22, 0x61, 0x22, 0x2C, 0x22, 0x62, 0x22, 0x22, 0x63, 0x22, 0x0A]
    ensures Break(true) == [0x0D, 0x0A]
  {
    var c: Bytes := [0x63];
    var qc: Bytes := [0x22, 0x63];
    assert c[1..] == [] && qc[1..] == c && [0x62, 0x22, 0x63][1..] == qc;
    assert Doubled(c) == c;
    assert Doubled(qc) == [0x22, 0x22, 0x63];
    assert [0x61][1..] == [];
  }

  /** Printing then decoding is the identity on every list of byte pairs. */
  lemma PrintThenDecode(pairs: seq<(Bytes, Bytes)>)
    ensures Decode(CsvOf(pairs), COMMA) == Decoded(PairRows(pairs), false)
  {
    CsvIsFileText(pairs);
    RunFile(PairRows(pairs), PairStyles(|pairs|), COMMA);
  }
}
