/** Files the loader could take either way: texts that begin with the magic bytes,
    and pieces of images that do not reach past them. */
module ImageOrText {
  import opened Basics
  import opened Datasets
  import opened CsvSpec
  import opened Rfc4180
  import opened Compiled
  import opened CompiledProofs
  import opened Loading

  // ---- How long a text can be for what it holds ----

  function Quotes(data: Bytes): nat {
    if data == [] then 0 else (if data[0] == QUOTE then 1 else 0) + Quotes(data[1..])
  }

  function FieldsSize(row: seq<Bytes>): nat {
    if row == [] then 0 else FieldsSize(row[..|row| - 1]) + |row[|row| - 1]|
  }

  /** A row's fields, a separator between them and the longest line break. */
  function RowWeight(row: seq<Bytes>): nat {
    FieldsSize(row) + |row| + 1
  }

  function RowsWeight(rows: seq<seq<Bytes>>): nat {
    if rows == [] then 0 else RowsWeight(rows[..|rows| - 1]) + RowWeight(rows[|rows| - 1])
  }

  /** What the decoder has seen, quotes aside. */
  function Weight(d: Decoder): nat {
    RowsWeight(d.rows) + FieldsSize(d.row) + |d.row| + |d.field| + (if d.mode == CrSeen then 1 else 0)
  }

  lemma EndWeights(d: Decoder)
    ensures Weight(d.EndField()) == RowsWeight(d.rows) + FieldsSize(d.row) + |d.row| + |d.field| + 1
    ensures Weight(d.EndRow()) == RowsWeight(d.rows) + FieldsSize(d.row) + |d.row| + |d.field| + 2
  {
    assert (d.row + [d.field])[..|d.row|] == d.row;
    assert (d.rows + [d.row + [d.field]])[..|d.rows|] == d.rows;
  }

  /** Every byte but a quote adds at least one, unless the text is malformed. */
  lemma StepWeight(d: Decoder, b: Byte, delimiter: Byte)
    requires d.mode == FieldStart ==> d.field == []
    ensures var d' := d.Step(b, delimiter);
            && (d'.mode == FieldStart ==> d'.field == [])
            && (d'.mode == Broken || Weight(d') + (if b == QUOTE then 1 else 0) >= Weight(d) + 1)
  {
    EndWeights(d);
  }

  lemma {:induction false} RunWeight(d: Decoder, data: Bytes, delimiter: Byte)
    requires d.mode == FieldStart ==> d.field == []
    ensures var d' := d.Run(data, delimiter);
            && (d'.mode == FieldStart ==> d'.field == [])
            && (d'.mode == Broken || Weight(d') + Quotes(data) >= Weight(d) + |data|)
    decreases |data|
  {
    if data != [] {
      var next := d.Step(data[0], delimiter);
      StepWeight(d, data[0], delimiter);
      RunWeight(next, data[1..], delimiter);
      if next.mode == Broken {
        BrokenStays(next, data[1..], delimiter);
      }
    }
  }

  lemma FinishWeight(d: Decoder)
    requires d.mode == FieldStart ==> d.field == []
    requires !Finish(d).malformed
    ensures Weight(d) <= RowsWeight(Finish(d).rows)
  {
    EndWeights(d);
  }

  /** A well-formed text is no longer than its rows weigh plus its quotes. */
  lemma TextIsNoLongerThanItsRows(data: Bytes, delimiter: Byte)
    requires !Decode(data, delimiter).malformed
    ensures |data| <= RowsWeight(Decode(data, delimiter).rows) + Quotes(data)
  {
    RunWeight(START, data, delimiter);
    FinishWeight(START.Run(data, delimiter));
  }

  lemma {:induction false} FirstRowWeight(rows: seq<seq<Bytes>>)
    requires rows != []
    ensures RowsWeight(rows) == RowWeight(rows[0]) + RowsWeight(rows[1..])
  {
    if |rows| > 1 {
      FirstRowWeight(rows[..|rows| - 1]);
      assert rows[..|rows| - 1][1..] == rows[1..][..|rows| - 2];
    }
  }

  lemma PairWeight(k: Bytes, v: Bytes)
    ensures RowWeight([k, v]) == |k| + |v| + 3
  {
    assert [k, v][..1] == [k] && [k][..0] == [];
    assert FieldsSize([k]) == |k|;
  }

  lemma {:induction false} PairsWeight(rows: seq<seq<Bytes>>, kept: seq<Row>)
    requires |rows| == |kept|
    requires forall i | 0 <= i < |rows| :: rows[i] == [kept[i].key, kept[i].val]
    ensures RowsWeight(rows) == |Packed(kept)| + 3 * |rows|
  {
    if rows != [] {
      var n := |rows| - 1;
      PairsWeight(rows[..n], kept[..n]);
      PairWeight(kept[n].key, kept[n].val);
    }
  }

  // ---- Texts that begin with the magic bytes ----

  /** What a text spends on quotes and on a header the loader skips. */
  ghost function Overhead(source: Bytes, opts: LoadOptions): nat {
    var rows := Decode(source, opts.delimiter).rows;
    Quotes(source) + if opts.hasHeader && rows != [] then RowWeight(rows[0]) else 0
  }

  lemma ParsedTextIsShort(source: Bytes, opts: LoadOptions, env: Env)
    requires ParseText(source, opts, env).Ok?
    ensures var d := Built(source, opts, env);
            |source| <= |d.arena| + 3 * |d.entries| + Overhead(source, opts)
  {
    var rows := Decode(source, opts.delimiter).rows;
    WellFormedIfParsed(source, opts, env);
    DataRowsWeigh(source, opts, env);
    TextIsNoLongerThanItsRows(source, opts.delimiter);
    if opts.hasHeader && rows != [] {
      FirstRowWeight(rows);
    }
  }

  function DataRows(rows: seq<seq<Bytes>>, opts: LoadOptions): seq<seq<Bytes>> {
    if opts.hasHeader && rows != [] then rows[1..] else rows
  }

  lemma DataRowsWeigh(source: Bytes, opts: LoadOptions, env: Env)
    requires ParseText(source, opts, env).Ok?
    ensures var d := Built(source, opts, env);
            RowsWeight(DataRows(Decode(source, opts.delimiter).rows, opts)) == |d.arena| + 3 * |d.entries|
  {
    var events := ReaderEvents(source, opts, env.lines);
    WellFormedIfParsed(source, opts, env);
    SucceedsExactlyWhenClean(events, Rule(opts, env));
    EventsAreRows(source, opts, env.lines);
    PairsWeight(DataRows(Decode(source, opts.delimiter).rows, opts), AllRows(events));
  }

  lemma EventsAreRows(source: Bytes, opts: LoadOptions, lines: nat -> Option<nat>)
    requires !Decode(source, opts.delimiter).malformed && AllPairs(ReaderEvents(source, opts, lines))
    ensures var events, rows := ReaderEvents(source, opts, lines), DataRows(Decode(source, opts.delimiter).rows, opts);
            && |rows| == |events|
            && forall i | 0 <= i < |rows| :: rows[i] == [AllRows(events)[i].key, AllRows(events)[i].val]
  {
    var events, rows := ReaderEvents(source, opts, lines), DataRows(Decode(source, opts.delimiter).rows, opts);
    forall i | 0 <= i < |rows|
      ensures rows[i] == [AllRows(events)[i].key, AllRows(events)[i].val]
    {
      assert events[i] == Record(lines(i), rows[i]) && IsPair(events[i]);
    }
  }

  lemma MalformedIsNoPair(source: Bytes, opts: LoadOptions, env: Env)
    requires Decode(source, opts.delimiter).malformed
    ensures !AllPairs(ReaderEvents(source, opts, env.lines))
  {
    var events := ReaderEvents(source, opts, env.lines);
    assert !IsPair(events[|events| - 1]);
  }

  lemma WellFormedIfParsed(source: Bytes, opts: LoadOptions, env: Env)
    requires ParseText(source, opts, env).Ok?
    ensures !Decode(source, opts.delimiter).malformed
    ensures AllPairs(ReaderEvents(source, opts, env.lines))
  {
    SucceedsExactlyWhenClean(ReaderEvents(source, opts, env.lines), Rule(opts, env));
    if Decode(source, opts.delimiter).malformed {
      MalformedIsNoPair(source, opts, env);
    }
  }

  /** Loading the file gives this arena, these entries and these flags. */
  ghost predicate LoadsAs(file: Bytes, opts: LoadOptions, env: Env, d: Dataset) {
    var r := LoadSpec(file, opts, env);
    r.Ok? && r.value.dataset == d
  }

  /** A text that spends less on quotes and a skipped header than the 24 and 13
      bytes by which an image of its rows is longer loads as what `build` makes of
      it if and only if it does not begin with the magic bytes. */
  lemma AgreementExactly(source: Bytes, opts: LoadOptions, env: Env)
    requires ParseText(source, opts, env).Ok?
    requires Overhead(source, opts) < 24 + 13 * |Built(source, opts, env).entries|
    ensures LoadsAs(source, opts, env, Built(source, opts, env)) <==> !IsCompiled(source)
  {
    PathsAgreeUnlessMagic(source, opts, env, opts, env);
    ParsedTextIsShort(source, opts, env);
    if IsCompiled(source) && ReadSpec(source).Ok? {
      AcceptedIsAsLong(source);
    }
  }

  lemma AcceptedIsAsLong(data: Bytes)
    requires ReadSpec(data).Ok?
    ensures var d := ReadSpec(data).value; |data| >= 24 + 16 * |d.entries| + |d.arena|
  {
    AcceptedSizes(data);
  }

  /** No quotes and no header is a plain case of that. */
  lemma UnquotedTextNeverAgreesWithMagic(source: Bytes, opts: LoadOptions, env: Env)
    requires ParseText(source, opts, env).Ok? && !opts.hasHeader && QUOTE !in source
    ensures LoadsAs(source, opts, env, Built(source, opts, env)) <==> !IsCompiled(source)
  {
    NoQuotes(source);
    AgreementExactly(source, opts, env);
  }

  lemma {:induction false} NoQuotes(data: Bytes)
    requires QUOTE !in data
    ensures Quotes(data) == 0
    decreases |data|
  {
    if data != [] {
      NoQuotes(data[1..]);
    }
  }

  /** A skipped header can hide a whole image: this file begins with the magic,
      parses as a text without data rows, and loads as that same dataset. */
  lemma HeaderHidesImage(opts: LoadOptions, env: Env)
    requires opts.delimiter == COMMA && opts.hasHeader
    ensures var source := Image(Dataset([], [], FlagsFor(opts)));
            && IsCompiled(source) && ParseText(source, opts, env).Ok?
            && LoadsAs(source, opts, env, Built(source, opts, env))
  {
    var d := Dataset([], [], FlagsFor(opts));
    var source := Image(d);
    WriteThenRead(d, []);
    ImageShape(d, []);
    assert source + [] == source;
    EmptyImageIsBare(d.flags);
    SingleFieldDecodes(source, COMMA);
    OneRowText(source, [source], opts, env);
  }

  lemma BareConcat(a: Bytes, b: Bytes, delimiter: Byte)
    requires Bare(a, delimiter) && Bare(b, delimiter)
    ensures Bare(a + b, delimiter)
  {
  }

  lemma SmallWordIsBare(w: U32)
    requires w <= 1
    ensures Bare(Le32(w), COMMA)
  {
    Le32Is(w);
  }

  lemma EmptyImageIsBare(flags: U32)
    requires flags <= 1
    ensures Bare(Image(Dataset([], [], flags)), COMMA) && Image(Dataset([], [], flags)) != []
  {
    SmallWordIsBare(flags);
    SmallWordIsBare(0);
    BareConcat(MAGIC, Le32(flags), COMMA);
    BareConcat(MAGIC + Le32(flags), Le32(0), COMMA);
    BareConcat(MAGIC + Le32(flags) + Le32(0), Le32(0), COMMA);
    BareConcat(MAGIC + Le32(flags) + Le32(0) + Le32(0), Le32(0), COMMA);
    assert Image(Dataset([], [], flags)) == Header(flags, 0, 0);
  }

  lemma SingleFieldDecodes(text: Bytes, delimiter: Byte)
    requires text != [] && Bare(text, delimiter)
    ensures Decode(text, delimiter) == Decoded([[text]], false)
  {
    RunBareField(START, text, delimiter);
    var d := START.(field := text, mode := Unquoted);
    assert START.field + text == text;
    assert d.row + [d.field] == [text];
    assert d.rows + [[text]] == [[text]];
  }

  /** What becomes of a text of one row. */
  lemma OneRowText(text: Bytes, row: seq<Bytes>, opts: LoadOptions, env: Env)
    requires Decode(text, opts.delimiter) == Decoded([row], false)
    requires |row| == 2 ==> |row[0]| + |row[1]| <= U32_MAX
    ensures ParseText(text, opts, env).Ok? <==>
              opts.hasHeader || (|row| == 2 && (opts.allowBinary || env.isUtf8(row[1])))
    ensures opts.hasHeader ==> ParseText(text, opts, env) == Ok(Parts([], []))
  {
    var events := ReaderEvents(text, opts, env.lines);
    SucceedsExactlyWhenClean(events, Rule(opts, env));
    if opts.hasHeader {
      assert events == [];
    } else {
      assert events == [Record(env.lines(0), row)];
      if |row| == 2 {
        PackedOne(RowAt(events, 0));
        assert AllRows(events) == [RowAt(events, 0)];
      }
    }
  }

  lemma PackedOne(r: Row)
    ensures |Packed([r])| == |r.key| + |r.val|
  {
    assert [r][..0] == [];
  }

  ghost function MagicKeyText(): Bytes {
    MAGIC + [COMMA] + [0x31]
  }

  /** The guard matters the other way too: this one-row text is a valid dataset
      whose key is the magic, and the loader refuses it as a truncated image. */
  lemma MagicKeyIsRefused(opts: LoadOptions, env: Env)
    requires opts.delimiter == COMMA && !opts.hasHeader && (opts.allowBinary || env.isUtf8([0x31]))
    ensures ParseText(MagicKeyText(), opts, env).Ok?
    ensures LoadSpec(MagicKeyText(), opts, env) == Err(BadImage(Truncated))
  {
    TwoFieldsDecode(MAGIC, [0x31], COMMA);
    OneRowText(MagicKeyText(), [MAGIC, [0x31]], opts, env);
    assert MagicKeyText()[..8] == MAGIC;
  }

  lemma TwoFieldsDecode(a: Bytes, b: Bytes, delimiter: Byte)
    requires Bare(a, delimiter) && Bare(b, delimiter) && Separates(delimiter)
    ensures Decode(a + [delimiter] + b, delimiter) == Decoded([[a, b]], false)
  {
    var row, quoted := [a, b], [false, false];
    assert row[1..] == [b] && quoted[1..] == [false];
    assert RowText(row, quoted, delimiter) == a + [delimiter] + b;
    DecodesWithoutLastBreak([], [], row, quoted, delimiter);
    assert FileText([], [], delimiter) + RowText(row, quoted, delimiter) == a + [delimiter] + b;
    assert [] + [row] == [row];
  }

  // ---- Pieces of an image ----

  const TAB: Byte := 0x09

  /** What follows the first delimiter. */
  function After(s: Bytes, delimiter: Byte): Bytes {
    if s == [] then [] else if s[0] == delimiter then s[1..] else After(s[1..], delimiter)
  }

  lemma {:induction false} AfterAt(s: Bytes, delimiter: Byte, p: nat)
    requires p < |s| && s[p] == delimiter && delimiter !in s[..p]
    ensures After(s, delimiter) == s[p + 1..]
    decreases p
  {
    if p > 0 {
      assert s[0] in s[..p];
      assert s[1..][..p - 1] == s[..p][1..];
      AfterAt(s[1..], delimiter, p - 1);
    }
  }

  lemma MagicNeedsNoQuotes(i: nat)
    requires i < 8
    ensures Separates(MAGIC[i])
  {
  }

  lemma MagicLettersDiffer(i: nat, j: nat)
    requires i < 8 && j < 8 && i != j
    ensures MAGIC[i] != MAGIC[j]
  {
  }

  lemma MagicIsBare(from: nat, to: nat, delimiter: Byte)
    requires from <= to <= 8
    requires forall i | from <= i < to :: MAGIC[i] != delimiter
    ensures Bare(MAGIC[from..to], delimiter)
  {
    forall i | from <= i < to
      ensures Separates(MAGIC[i])
    {
      MagicNeedsNoQuotes(i);
    }
    assert forall i | 0 <= i < to - from :: MAGIC[from..to][i] == MAGIC[from + i];
  }

  /** A delimiter that is a letter of the magic splits the piece once. */
  lemma PieceSplits(n: nat, delimiter: Byte) returns (p: nat)
    requires n <= 8 && delimiter in MAGIC[..n]
    ensures p < n && MAGIC[..n] == MAGIC[..p] + [delimiter] + MAGIC[p + 1..n]
    ensures Bare(MAGIC[..p], delimiter) && Bare(MAGIC[p + 1..n], delimiter) && Separates(delimiter)
    ensures After(MAGIC[..n], delimiter) == MAGIC[p + 1..n]
  {
    p :| 0 <= p < n && MAGIC[..n][p] == delimiter;
    forall i | 0 <= i < 8 && i != p
      ensures MAGIC[i] != delimiter
    {
      MagicLettersDiffer(i, p);
    }
    MagicNeedsNoQuotes(p);
    MagicIsBare(0, p, delimiter);
    assert MAGIC[0..p] == MAGIC[..p];
    MagicIsBare(p + 1, n, delimiter);
    assert MAGIC[..n][..p] == MAGIC[..p] && MAGIC[..n][p + 1..] == MAGIC[p + 1..n];
    AfterAt(MAGIC[..n], delimiter, p);
  }

  /** Which short pieces the text parser accepts. */
  lemma ShortPieceParses(n: nat, opts: LoadOptions, env: Env)
    requires n < 8
    ensures ParseText(MAGIC[..n], opts, env).Ok? <==>
              || opts.hasHeader || n == 0
              || (opts.delimiter in MAGIC[..n]
                  && (opts.allowBinary || env.isUtf8(After(MAGIC[..n], opts.delimiter))))
  {
    var piece := MAGIC[..n];
    if n == 0 {
      EmptyTextParses(opts, env);
    } else if opts.delimiter in piece {
      var p := PieceSplits(n, opts.delimiter);
      TwoFieldsDecode(MAGIC[..p], MAGIC[p + 1..n], opts.delimiter);
      OneRowText(piece, [MAGIC[..p], MAGIC[p + 1..n]], opts, env);
    } else {
      assert forall i | 0 <= i < n :: MAGIC[..n][i] == MAGIC[i];
      MagicIsBare(0, n, opts.delimiter);
      assert MAGIC[0..n] == piece;
      SingleFieldDecodes(piece, opts.delimiter);
      OneRowText(piece, [piece], opts, env);
    }
  }

  lemma EmptyTextParses(opts: LoadOptions, env: Env)
    ensures ParseText([], opts, env) == Ok(Parts([], []))
  {
    var events := ReaderEvents([], opts, env.lines);
    assert events == [];
    SucceedsExactlyWhenClean(events, Rule(opts, env));
  }

  /** The empty file is a dataset without rows. */
  lemma EmptyFileLoadsEmpty(opts: LoadOptions, env: Env)
    ensures LoadSpec([], opts, env) == Ok(Loaded(Dataset([], [], FlagsFor(opts)), Csv))
  {
    EmptyTextParses(opts, env);
  }

  /** What is left of a half-written image is refused as truncated exactly when it
      still holds the magic. */
  lemma PartialImageIsTruncated(d: Dataset, n: nat, opts: LoadOptions, env: Env)
    requires SizesFit(d) && n < |Image(d)|
    ensures n >= 8 ==> LoadSpec(Image(d)[..n], opts, env) == Err(BadImage(Truncated))
    ensures n < 8 ==> Image(d)[..n] == MAGIC[..n] && !IsCompiled(Image(d)[..n])
  {
    StrictPrefixIsTruncated(d, n);
    ImageShape(d, []);
    assert Image(d) + [] == Image(d);
    PrefixKeepsHeader(Image(d), n);
    if n < 8 {
      assert Image(d)[..n] == Image(d)[..8][..n];
    }
  }

  /** A half-written image is refused, rather than loaded, if and only if it still
      holds the magic, or else is a non-empty row that is no header and either has
      no delimiter in it or a rejected value after it. */
  lemma PartialImageRefusedExactly(d: Dataset, n: nat, opts: LoadOptions, env: Env)
    requires SizesFit(d) && n < |Image(d)|
    ensures LoadSpec(Image(d)[..n], opts, env).Err? <==>
              || n >= 8
              || (&& !opts.hasHeader && n > 0
                  && (|| opts.delimiter !in MAGIC[..n]
                      || (!opts.allowBinary && !env.isUtf8(After(MAGIC[..n], opts.delimiter)))))
    ensures LoadSpec(Image(d)[..n], opts, env) == Err(BadImage(Truncated)) <==> n >= 8
  {
    PartialImageIsTruncated(d, n, opts, env);
    if n < 8 {
      ShortPieceParses(n, opts, env);
    }
  }

  lemma UsualDelimitersAreForeign(n: nat)
    requires n <= 8
    ensures COMMA !in MAGIC[..n] && TAB !in MAGIC[..n]
  {
    assert forall b | b in MAGIC[..n] :: b in MAGIC;
  }

  /** With a comma or a tab and no header, only the empty piece is loaded. */
  lemma UsualOptionsRefusePieces(d: Dataset, n: nat, opts: LoadOptions, env: Env)
    requires SizesFit(d) && n < |Image(d)|
    requires (opts.delimiter == COMMA || opts.delimiter == TAB) && !opts.hasHeader
    ensures LoadSpec(Image(d)[..n], opts, env).Err? <==> n > 0
  {
    PartialImageRefusedExactly(d, n, opts, env);
    if n < 8 {
      UsualDelimitersAreForeign(n);
    }
  }
}
