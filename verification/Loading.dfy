/** Loading a dataset from its file, and the two claims the loaders rest on:
    printing, loading and looking up agree, and both file formats load alike. */
module Loading {
  import opened Basics
  import opened Stores
  import opened Datasets
  import opened EntryCount
  import opened CsvSpec
  import opened CsvLoader
  import opened Rfc4180
  import opened Compiled
  import opened CompiledProofs

  datatype SourceFormat = Csv | CompiledImage

  datatype LoadFailure = Io | Data(errors: seq<DataError>) | BadImage(error: CompiledError)

  datatype Loaded = Loaded(dataset: Dataset, format: SourceFormat)

  /** What the code takes from its surroundings while loading: the UTF-8 check,
      the lines its record reader attaches and the hash it draws. */
  datatype Env = Env(isUtf8: Bytes -> bool, lines: nat -> Option<nat>, hash: Bytes -> U64)

  function Rule(opts: LoadOptions, env: Env): ValueRule {
    ValueRule(opts.allowBinary, env.isUtf8)
  }

  function FlagsFor(opts: LoadOptions): U32 {
    if opts.allowBinary then FLAG_BINARY else 0
  }

  ghost function ParseText(data: Bytes, opts: LoadOptions, env: Env): Result<Parts, seq<DataError>> {
    ParseSpec(ReaderEvents(data, opts, env.lines), Rule(opts, env))
  }

  ghost function LoadSpec(data: Bytes, opts: LoadOptions, env: Env): Result<Loaded, LoadFailure> {
    if IsCompiled(data) then
      match ReadSpec(data)
      case Ok(d) => Ok(Loaded(d, CompiledImage))
      case Err(e) => Err(BadImage(e))
    else
      match ParseText(data, opts, env)
      case Ok(p) => Ok(Loaded(Dataset(p.arena, p.entries, FlagsFor(opts)), Csv))
      case Err(errors) => Err(Data(errors))
  }

  // ---- Parsed parts are always good input for everything downstream ----

  lemma KeptRowsDistinct(events: seq<Event>)
    ensures DistinctRows(Kept(events, |events|))
  {
    forall i, j | 0 <= i < j < |Kept(events, |events|)|
      ensures Kept(events, |events|)[i].key != Kept(events, |events|)[j].key
    {
      KeptDistinct(events, |events|, i, j);
    }
  }

  lemma LayoutDistinct(rows: seq<Row>)
    requires Fits(rows) && DistinctRows(rows)
    ensures AllInRange(Packed(rows), Layout(rows)) && DistinctKeys(Packed(rows), Layout(rows))
  {
    LayoutInRange(rows);
    forall i, j | 0 <= i < j < |rows|
      ensures Key(Packed(rows), Layout(rows)[i]) != Key(Packed(rows), Layout(rows)[j])
    {
      LayoutReadsBack(rows, i);
      LayoutReadsBack(rows, j);
    }
  }

  /** A successful parse yields entries that tile the arena, have distinct keys
      and are few enough for the count field of the compiled header. */
  lemma ParsedPartsAreSound(events: seq<Event>, rule: ValueRule)
    requires ParseSpec(events, rule).Ok?
    ensures var p := ParseSpec(events, rule).value;
            && Tiles(p.arena, p.entries) && |p.arena| <= U32_MAX && |p.entries| <= MAX_ENTRIES
            && AllInRange(p.arena, p.entries) && DistinctKeys(p.arena, p.entries)
  {
    var rows := Kept(events, |events|);
    KeptFits(events, |events|, rule);
    KeptRowsDistinct(events);
    LayoutTiles(rows);
    LayoutDistinct(rows);
    CountFitsU32(rows);
  }

  // ---- The loader ----

  /** Chooses the reader by the magic bytes and builds the store. `file` is
      `None` when the file cannot be read. */
  method Load(file: Option<Bytes>, opts: LoadOptions, env: Env, usizeMax: nat)
    returns (r: Result<(Store, SourceFormat, U32), LoadFailure>)
    requires U32_MAX <= usizeMax && (file.Some? ==> |file.value| <= usizeMax)
    ensures r == Err(Io) <==> file.None?
    ensures file.Some? && r.Err? ==> LoadSpec(file.value, opts, env) == Err(r.error)
    ensures r.Ok? ==>
              && LoadSpec(file.value, opts, env).Ok?
              && var (store, format, flags) := r.value;
                 var l := LoadSpec(file.value, opts, env).value;
                 && fresh(store) && store.Valid() && store.arena == l.dataset.arena
                 && store.table.Items() == multiset(l.dataset.entries)
                 && format == l.format && flags == l.dataset.flags
  {
    if file.None? {
      return Err(Io);
    }
    var data := file.value;
    var arena, entries, format, flags;
    if IsCompiled(data) {
      var image := ReadCompiled(data, usizeMax);
      if image.Err? { return Err(BadImage(image.error)); }
      AcceptedIsInRange(data);
      arena, entries, format, flags := image.value.arena, image.value.entries, CompiledImage, image.value.flags;
    } else {
      var events := ReaderEvents(data, opts, env.lines);
      var parts := ParseCsv(events, Rule(opts, env), env.hash);
      if parts.Err? { return Err(Data(parts.error)); }
      ParsedPartsAreSound(events, Rule(opts, env));
      arena, entries, format, flags := parts.value.arena, parts.value.entries, Csv, FlagsFor(opts);
    }
    var store := new Store.FromParts(arena, entries, env.hash);
    r := Ok((store, format, flags));
  }

  // ---- Print, load, look up ----

  /** Pairs a dataset can have: distinct keys, values that are valid or need not
      be, and everything within 32-bit offsets. */
  ghost predicate GoodPairs(pairs: seq<(Bytes, Bytes)>, opts: LoadOptions, env: Env) {
    && (forall i, j | 0 <= i < j < |pairs| :: pairs[i].0 != pairs[j].0)
    && (forall i | 0 <= i < |pairs| :: opts.allowBinary || env.isUtf8(pairs[i].1))
    && PairBytes(pairs) <= 0xFFFF_FFFF
  }

  ghost function PairBytes(pairs: seq<(Bytes, Bytes)>): nat {
    if pairs == [] then 0
    else
      var last := pairs[|pairs| - 1];
      PairBytes(pairs[..|pairs| - 1]) + |last.0| + |last.1|
  }

  /** The pairs that are data: all of them, or all but a header. */
  ghost function DataPairs(pairs: seq<(Bytes, Bytes)>, opts: LoadOptions): seq<(Bytes, Bytes)> {
    if opts.hasHeader && pairs != [] then pairs[1..] else pairs
  }

  lemma {:induction false} PackedSize(rows: seq<Row>, pairs: seq<(Bytes, Bytes)>)
    requires |rows| == |pairs|
    requires forall i | 0 <= i < |rows| :: rows[i].key == pairs[i].0 && rows[i].val == pairs[i].1
    ensures |Packed(rows)| == PairBytes(pairs)
  {
    if rows != [] {
      PackedSize(rows[..|rows| - 1], pairs[..|pairs| - 1]);
    }
  }

  lemma RenderedEvents(pairs: seq<(Bytes, Bytes)>, styles: seq<Style>, opts: LoadOptions, lines: nat -> Option<nat>)
    requires AllRender(PairRows(pairs), styles, opts.delimiter) && Separates(opts.delimiter)
    ensures var events := ReaderEvents(FileText(PairRows(pairs), styles, opts.delimiter), opts, lines);
            var data := DataPairs(pairs, opts);
            |events| == |data| &&
            forall i | 0 <= i < |data| :: events[i] == Record(lines(i), [data[i].0, data[i].1])
  {
    var rows := PairRows(pairs);
    RenderingIsRead(rows, styles, opts, lines);
    var data := DataPairs(pairs, opts);
    var kept := if opts.hasHeader && rows != [] then rows[1..] else rows;
    assert |kept| == |data| && forall i | 0 <= i < |data| :: kept[i] == [data[i].0, data[i].1];
  }

  lemma RenderedRows(events: seq<Event>, pairs: seq<(Bytes, Bytes)>, opts: LoadOptions, env: Env)
    requires |events| == |pairs|
    requires forall i | 0 <= i < |pairs| ::
               events[i].Record? && events[i].fields == [pairs[i].0, pairs[i].1]
    ensures GoodPairs(pairs, opts, env) <==> Clean(events, Rule(opts, env))
  {
    var rows := AllRows(events);
    PackedSize(rows, pairs);
    forall i | 0 <= i < |pairs|
      ensures events[i].fields[0] == pairs[i].0 && events[i].fields[1] == pairs[i].1
    {
    }
  }

  /** Any text that renders a list of pairs, whatever it quotes and wherever a line
      ends in CRLF, loads exactly when the data pairs are good; the entry windows
      then read the pairs back in order. */
  lemma RenderThenParse(pairs: seq<(Bytes, Bytes)>, styles: seq<Style>, opts: LoadOptions, env: Env)
    requires AllRender(PairRows(pairs), styles, opts.delimiter) && Separates(opts.delimiter)
    ensures var data := DataPairs(pairs, opts);
            var r := ParseText(FileText(PairRows(pairs), styles, opts.delimiter), opts, env);
            && (r.Ok? <==> GoodPairs(data, opts, env))
            && (r.Ok? ==> ReadsBack(r.value, data))
  {
    var events := ReaderEvents(FileText(PairRows(pairs), styles, opts.delimiter), opts, env.lines);
    var data := DataPairs(pairs, opts);
    RenderedEvents(pairs, styles, opts, env.lines);
    RenderedRows(events, data, opts, env);
    SucceedsExactlyWhenClean(events, Rule(opts, env));
    if GoodPairs(data, opts, env) {
      var p := ParseSpec(events, Rule(opts, env)).value;
      forall i | 0 <= i < |data|
        ensures InRange(p.arena, p.entries[i])
        ensures Key(p.arena, p.entries[i]) == data[i].0 && Value(p.arena, p.entries[i]) == data[i].1
      {
        LoadedRowsReadBack(events, Rule(opts, env), i);
        assert events[i].fields == [data[i].0, data[i].1];
      }
    }
  }

  /** The entries, in order, are windows on these pairs. */
  ghost predicate ReadsBack(p: Parts, pairs: seq<(Bytes, Bytes)>) {
    && |p.entries| == |pairs| && AllInRange(p.arena, p.entries)
    && forall i | 0 <= i < |pairs| ::
         Key(p.arena, p.entries[i]) == pairs[i].0 && Value(p.arena, p.entries[i]) == pairs[i].1
  }

  /** The printed form is one of those texts. */
  lemma PrintThenParse(pairs: seq<(Bytes, Bytes)>, opts: LoadOptions, env: Env)
    requires opts.delimiter == COMMA
    ensures var data := DataPairs(pairs, opts);
            var r := ParseText(CsvOf(pairs), opts, env);
            && (r.Ok? <==> GoodPairs(data, opts, env))
            && (r.Ok? ==> ReadsBack(r.value, data))
  {
    CsvIsFileText(pairs);
    RenderThenParse(pairs, PairStyles(|pairs|), opts, env);
  }

  // ---- What the value check does ----

  /** Unless binary values are allowed every value that can be read back is valid
      UTF-8; if they are allowed none is ever reported. */
  lemma ValuesAreChecked(data: Bytes, opts: LoadOptions, env: Env)
    ensures var r := ParseText(data, opts, env);
            r.Ok? && !opts.allowBinary ==>
              forall i | 0 <= i < |r.value.entries| ::
                InRange(r.value.arena, r.value.entries[i]) && env.isUtf8(Value(r.value.arena, r.value.entries[i]))
    ensures var r := ParseText(data, opts, env);
            r.Err? && opts.allowBinary ==> forall e | e in r.error :: e.kind != InvalidUtf8Value
  {
    var events, rule := ReaderEvents(data, opts, env.lines), Rule(opts, env);
    SucceedsExactlyWhenClean(events, rule);
    var r := ParseSpec(events, rule);
    if r.Ok? {
      forall i | 0 <= i < |r.value.entries|
        ensures InRange(r.value.arena, r.value.entries[i])
        ensures !opts.allowBinary ==> env.isUtf8(Value(r.value.arena, r.value.entries[i]))
      {
        LoadedRowsReadBack(events, rule, i);
      }
    } else {
      forall e | e in r.error
        ensures opts.allowBinary ==> e.kind != InvalidUtf8Value
      {
        ErrorsAreExact(events, e, rule);
      }
    }
  }

  /** A text that does not load is answered with the whole list: exactly the errors
      its rows cause under these options, in row order. */
  lemma FailedTextListsEverything(data: Bytes, opts: LoadOptions, env: Env) returns (n: nat, rows: seq<nat>)
    requires !IsCompiled(data) && LoadSpec(data, opts, env).Err?
    ensures var events := ReaderEvents(data, opts, env.lines);
            && n <= |events| && (forall i | 0 <= i < |events| :: i < n <==> IsRead(events, i))
            && LoadSpec(data, opts, env).error.Data?
            && var errors := LoadSpec(data, opts, env).error.errors;
               && errors != []
               && Listing(events, n, ValueRule(opts.allowBinary, env.isUtf8), errors, rows)
  {
    n, rows := ErrorsAreListedInOrder(ReaderEvents(data, opts, env.lines), Rule(opts, env));
  }

  /** In particular a row that is read and has an invalid value has that error. */
  lemma InvalidValueIsListed(data: Bytes, opts: LoadOptions, env: Env, i: nat)
    requires !IsCompiled(data) && !opts.allowBinary && i < |ReaderEvents(data, opts, env.lines)|
    requires var events := ReaderEvents(data, opts, env.lines);
             && IsRead(events, i) && events[i].Record? && |events[i].fields| == 2
             && !env.isUtf8(events[i].fields[1])
    ensures var r := LoadSpec(data, opts, env);
            && r.Err? && r.error.Data?
            && exists e | e in r.error.errors ::
                 e.kind == InvalidUtf8Value && ShownAt(ReaderEvents(data, opts, env.lines), i, e.line)
  {
    var events := ReaderEvents(data, opts, env.lines);
    var e := DataError(LineOf(events, i), InvalidUtf8Value);
    assert Causes(events, i, e, Rule(opts, env));
    ErrorsAreExact(events, e, Rule(opts, env));
  }

  /** `s` was built by `from_parts` from these parts, with whatever hash. */
  ghost predicate Serves(s: Store, arena: Bytes, entries: seq<Entry>)
    reads s, s.table, s.table.buckets
  {
    s.Valid() && s.arena == arena && s.table.Items() == multiset(entries)
  }

  /** A store whose entry windows read `pairs` answers from `pairs`. */
  lemma ServesPairs(s: Store, arena: Bytes, entries: seq<Entry>, pairs: seq<(Bytes, Bytes)>, key: Bytes)
    requires Serves(s, arena, entries) && |entries| == |pairs| && AllInRange(arena, entries)
    requires forall i | 0 <= i < |pairs| ::
               Key(arena, entries[i]) == pairs[i].0 && Value(arena, entries[i]) == pairs[i].1
    requires forall i, j | 0 <= i < j < |pairs| :: pairs[i].0 != pairs[j].0
    ensures s.Get(key).None? <==> forall i | 0 <= i < |pairs| :: pairs[i].0 != key
    ensures forall i | 0 <= i < |pairs| && pairs[i].0 == key :: s.Get(key) == Some(pairs[i].1)
  {
    assert DistinctKeys(arena, entries);
    StoreRefinesMap(s, entries, key);
    ContentsKeys(arena, entries, key);
    forall i | 0 <= i < |pairs| && pairs[i].0 == key
      ensures s.Get(key) == Some(pairs[i].1)
    {
      ContentsAt(arena, entries, i);
    }
  }

  /** Print, parse, build the store, look up: a listed key returns exactly its
      value and every other key returns nothing. */
  lemma PrintThenLookup(pairs: seq<(Bytes, Bytes)>, opts: LoadOptions, env: Env, s: Store, key: Bytes)
    requires opts.delimiter == COMMA && GoodPairs(DataPairs(pairs, opts), opts, env)
    requires var r := ParseText(CsvOf(pairs), opts, env);
             r.Ok? ==> Serves(s, r.value.arena, r.value.entries)
    ensures ParseText(CsvOf(pairs), opts, env).Ok?
    ensures var data := DataPairs(pairs, opts);
            && (s.Get(key).None? <==> forall i | 0 <= i < |data| :: data[i].0 != key)
            && (forall i | 0 <= i < |data| && data[i].0 == key :: s.Get(key) == Some(data[i].1))
  {
    PrintThenParse(pairs, opts, env);
    var p := ParseText(CsvOf(pairs), opts, env).value;
    ServesPairs(s, p.arena, p.entries, DataPairs(pairs, opts), key);
  }

  // ---- The two load paths ----

  /** What `build` writes for a source that parses. */
  ghost function Built(source: Bytes, opts: LoadOptions, env: Env): Dataset
    requires ParseText(source, opts, env).Ok?
  {
    var p := ParseText(source, opts, env).value;
    Dataset(p.arena, p.entries, FlagsFor(opts))
  }

  lemma BuiltFits(source: Bytes, opts: LoadOptions, env: Env)
    requires ParseText(source, opts, env).Ok?
    ensures EntriesFit(Built(source, opts, env))
    ensures var d := Built(source, opts, env); DistinctKeys(d.arena, d.entries)
  {
    ParsedPartsAreSound(ReaderEvents(source, opts, env.lines), Rule(opts, env));
  }

  /** Loading the built image gives the arena, entries and flags of the parsed
      source, whatever options the loader is given. Loading the source directly
      gives the same if it does not begin with the magic bytes; if it does, the
      text is never parsed and the outcome is the compiled reader's. */
  lemma PathsAgreeUnlessMagic(source: Bytes, opts: LoadOptions, env: Env, opts': LoadOptions, env': Env)
    requires ParseText(source, opts, env).Ok?
    ensures LoadSpec(Image(Built(source, opts, env)), opts', env')
            == Ok(Loaded(Built(source, opts, env), CompiledImage))
    ensures !IsCompiled(source) ==> LoadSpec(source, opts, env) == Ok(Loaded(Built(source, opts, env), Csv))
    ensures IsCompiled(source) ==>
              LoadSpec(source, opts, env) == match ReadSpec(source)
                                             case Ok(d) => Ok(Loaded(d, CompiledImage))
                                             case Err(e) => Err(BadImage(e))
  {
    ImageReadsBack(source, opts, env);
  }

  lemma ImageReadsBack(source: Bytes, opts: LoadOptions, env: Env)
    requires ParseText(source, opts, env).Ok?
    ensures var d := Built(source, opts, env); IsCompiled(Image(d)) && ReadSpec(Image(d)) == Ok(d)
  {
    var d := Built(source, opts, env);
    BuiltFits(source, opts, env);
    WriteThenRead(d, []);
    ImageShape(d, []);
    assert Image(d) + [] == Image(d);
  }

  /** A loaded dataset is flagged as binary exactly when it was parsed with values
      unchecked, whether it comes from the source or from the built image. */
  lemma BinaryFlagExactly(source: Bytes, opts: LoadOptions, env: Env, opts': LoadOptions, env': Env)
    requires ParseText(source, opts, env).Ok?
    ensures var viaImage := LoadSpec(Image(Built(source, opts, env)), opts', env');
            viaImage.Ok? && (viaImage.value.dataset.flags % 2 == 1 <==> opts.allowBinary)
    ensures !IsCompiled(source) ==>
              var direct := LoadSpec(source, opts, env);
              direct.Ok? && (direct.value.dataset.flags % 2 == 1 <==> opts.allowBinary)
  {
    PathsAgreeUnlessMagic(source, opts, env, opts', env');
    FlagBit(opts);
  }

  lemma FlagBit(opts: LoadOptions)
    ensures FlagsFor(opts) % 2 == 1 <==> opts.allowBinary
  {
  }

  /** Stores loaded along the two paths cannot be told apart by any lookup. */
  lemma PathsServeAlike(source: Bytes, opts: LoadOptions, env: Env, opts': LoadOptions, env': Env,
                        a: Dataset, b: Dataset, direct: Store, viaImage: Store, key: Bytes)
    requires LoadSpec(source, opts, env) == Ok(Loaded(a, Csv))
    requires ParseText(source, opts, env).Ok?
    requires LoadSpec(Image(Built(source, opts, env)), opts', env') == Ok(Loaded(b, CompiledImage))
    requires Serves(direct, a.arena, a.entries) && Serves(viaImage, b.arena, b.entries)
    ensures direct.Get(key) == viaImage.Get(key) && direct.Len() == viaImage.Len()
  {
    PathsAgreeUnlessMagic(source, opts, env, opts', env');
    BuiltFits(source, opts, env);
    OrderAndHashAreInvisible(direct, viaImage, a.entries, b.entries, key);
  }

  // ---- Buffers nobody should trust ----

  /** Any buffer the reader accepts can be served, even one with repeated keys: a
      miss means no entry has the key, a hit is the value of one that has it. */
  lemma AcceptedBufferIsServed(data: Bytes, s: Store, key: Bytes)
    requires ReadSpec(data).Ok? && Serves(s, ReadSpec(data).value.arena, ReadSpec(data).value.entries)
    ensures var d := ReadSpec(data).value;
            && AllInRange(d.arena, d.entries)
            && (s.Get(key).None? <==> !HasKey(d.arena, d.entries, key))
            && (s.Get(key).Some? ==> exists i | 0 <= i < |d.entries| ::
                  Key(d.arena, d.entries[i]) == key && s.Get(key) == Some(Value(d.arena, d.entries[i])))
  {
    AcceptedIsInRange(data);
    GetFindsSomeEntry(s, ReadSpec(data).value.entries, key);
  }
}
