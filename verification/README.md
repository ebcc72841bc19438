# A verified model of justkv's dataset pipeline

justkv turns delimited text into a read-only key-value store. This project models
the path of a dataset through the program and proves what the program promises
about it:

1. **Loading text** (`Rfc4180`, `CsvSpec`, `Datasets`, `EntryCount`, `CsvLoader`).
   Reader events become an append-only arena, entries over it and a hash index of
   entry positions, or a complete list of errors. `CsvSpec` says what the errors
   must be by looking at rows alone; `CsvLoader.ParseCsv` is the loop.
2. **The compiled format** (`Compiled`, `CompiledProofs`). A writer over a buffered
   file that can fill up, a reader with checked sums and bounds checks, and their
   relation.
3. **The store** (`HashTables`, `Stores`). A bucket array that grows by re-filing
   through its caller's closure, and `from_parts`/`get` over it, for every hash.
4. **Both load paths** (`Loading`, `ImageOrText`). Choosing the reader by the magic
   bytes, print then parse then look up, source versus built image, and the files
   that could be taken either way: texts beginning with the magic, half-written
   images.
5. **`build`** (`BuildProtocol`, `BuildCommand`). Scratch file, write, rename, as
   single file-system steps interleaved between any number of builders, and the
   sequential command, proved to take only those steps.
6. **Serving** (`Queries`, `Metrics`, `MetricsRuns`, `Lookups`). The key in a query
   string, the atomic counters and histogram, and the account of whole runs.

The hash, the UTF-8 check, the lines the reader attaches, the clock and every
failure are parameters, so each result holds for all of them. Byte strings are
sequences of integers below 256; 32-bit and 64-bit wrap-around and narrowing are
written out where the code has them.

Results that are not simply "it works":

- **The magic bytes decide whether a source loads as its own image does.** `build`
  parses any source as text; the loader looks at the magic first. Without the magic
  the source and its image load alike; with it the text is never parsed and the
  outcome is `read_compiled`'s. An image of n rows is at least 24+13n bytes longer
  than their unquoted text, so a source that spends less than that on quotes and a
  skipped header agrees if and only if it lacks the magic (`AgreementExactly`); one
  without quotes and header is always such a source. The bound is needed: a skipped
  header can hide a whole image (`HeaderHidesImage`). `MagicKeyIsRefused` is a valid
  one-row text the loader refuses.
- **`build` is atomic exactly when no builder can come to choose, as its scratch
  name, an output that does not exist yet.** The names counted are those the code
  can reach: the clock part is below 10^9, and an attempt is made only when the
  earlier ones can all meet existing files or a twin builder (same output, same
  process number). `BuildsAreAtomicExactly` is the equivalence, `ClashIsUnsafe` the
  run that fails, `PlainOutputsAreApart` a simple check that is enough.
- **A half-written image is refused in all but a few cases, which are decided
  exactly.** `read_compiled` calls every strict prefix truncated, but a piece
  shorter than the magic is parsed as text. A piece of n bytes is refused if and
  only if n is at least 8, or it is non-empty, headers are off, and it either has no
  delimiter in it or has a rejected value after it. With a comma or tab and no
  header only the empty piece loads; with a header every piece shorter than the
  magic does.

The plan in `docs/superpowers/plans/2026-09-13-justkv.md` (lines 526-540) shows an
older loader that skips the value check after a duplicate. The model follows the
code, `src/store/csv_loader.rs:141-169`, which reports both.

## Model

| member | source | states |
|---|---|---|
| HashTables.HashTable.FindMissesExactly | src/store/csv_loader.rs:137-140 | A probe misses exactly when no element of the whole table is accepted, whatever collides, provided equality implies an equal hash |
| HashTables.HashTable.InsertUnique | src/store/csv_loader.rs:192-198 | Adds one element to the multiset held, growing if needed, and keeps every element where its recomputed hash puts it |
| HashTables.HashTable.Grow | src/store/mod.rs:52 | Growth through the caller's closure loses and repeats nothing and re-files every element for the new size |
| Stores.Window | src/store/mod.rs:20-22 | A slice with a wrapping 32-bit end is either exactly the bytes meant or a panic, and it panics exactly when the true end passes 2^32 or the arena |
| Stores.Store.FromParts | src/store/mod.rs:46-59 | The table holds the given entries, each once per occurrence, filed under its key's hash |
| Stores.Store.Get | src/store/mod.rs:64-71 | None exactly when no entry has the key, otherwise the value of an entry that has it |
| Stores.GetFindsSomeEntry | src/store/mod.rs:64-71 | The same in terms of the entry list the store was built from, repeated keys allowed |
| Stores.StoreRefinesMap | src/store/mod.rs:46-75 | With distinct keys the store is a finite map: lookup and length agree with it for every key and hash |
| Stores.OrderAndHashAreInvisible | src/store/mod.rs:46-75 | Two stores over permuted entries and different hashes answer every lookup alike |
| Datasets.LayoutTiles | src/store/csv_loader.rs:179-190 | Entries cover the arena from first to last byte, key then value, no gap, no overlap |
| Datasets.LayoutReadsBack | src/store/csv_loader.rs:179-190 | Reading the windows back gives each row's key and value |
| Datasets.AppendKeepsWindows | src/store/csv_loader.rs:179-182 | Appending to the arena never changes a key or value already there |
| EntryCount.KeysPayForEntries | src/store/csv_loader.rs:171-184 | Distinct keys cost two bytes each, short of one empty key and the one-byte keys |
| EntryCount.CountFitsU32 | src/store/csv_loader.rs:184 | An arena within 32 bits holds at most 2^31+128 distinct keys, so the index cast is exact |
| CsvSpec.KeptIsEarliest | src/store/csv_loader.rs:161-169 | Each stored row is the earliest two-field row with its key, line included, even if its value was bad |
| CsvSpec.ErrorsAreExact | src/store/csv_loader.rs:109-206 | An error is reported if and only if a row that is read causes it; which rows are read, the line shown, first keys and the 2^32-1 byte limit are all counted from the fields |
| CsvSpec.ErrorsAreListedInOrder | src/store/csv_loader.rs:109-178 | The list covers exactly the rows that are read, row by row, duplicate before bad value before size, each cause exactly once, none suppressed |
| CsvSpec.SmallDatasetIsReadThrough | src/store/csv_loader.rs:125-130 | If nothing is malformed and all two-field rows together fit 2^32-1 bytes, every row without two fields is reported under the reader's line and nothing is reported as too large |
| CsvSpec.TooLargeExactly | src/store/csv_loader.rs:171-177 | Too large is reported exactly when the rows with new keys among some leading well-formed events pass 2^32-1 bytes |
| CsvSpec.LoadedRowsReadBack | src/store/csv_loader.rs:179-190 | Entry i of a loaded dataset reads the two fields of row i back |
| CsvSpec.SucceedsExactlyWhenClean | src/store/csv_loader.rs:201-206 | Loading succeeds exactly when every row has two fields, keys are distinct, values acceptable and everything fits, and then every row is kept |
| CsvLoader.IndexAgreesWithScan | src/store/csv_loader.rs:136-140 | The hash index answers like a linear scan of the earlier keys |
| CsvLoader.AppendKeepsFiling | src/store/csv_loader.rs:192-198 | Hashes recomputed from the longer arena equal those used when filing |
| CsvLoader.ProbeFindsEarliest | src/store/csv_loader.rs:144-152 | A hit is the earliest row with the key and `lines` gives that row's line |
| CsvLoader.CheckPair | src/store/csv_loader.rs:136-159 | Duplicate and value checks together report exactly the row's errors |
| CsvLoader.AppendPair | src/store/csv_loader.rs:179-191 | Every cast to 32 bits is exact and the new entry's windows are the row's key and value |
| CsvLoader.IndexNewest | src/store/csv_loader.rs:184-198 | The index then holds exactly the positions of all entries |
| CsvLoader.ReadEvent | src/store/csv_loader.rs:110-178 | One reader answer: report, skip, keep or stop, keeping arena, entries, lines and index aligned |
| CsvLoader.ParseCsv | src/store/csv_loader.rs:93-207 | The whole loop returns the packed dataset or every expected error, independent of the hash |
| Rfc4180.ToCsv | tests/format_equivalence.rs:5-15 | The printing loop writes one quoted line per pair |
| Rfc4180.DecodesEveryRendering | src/store/csv_loader.rs:94-98 | Whatever fields are quoted and whichever line break ends each row, decoding returns the rows (RFC 4180, section 2) |
| Rfc4180.DecodesWithoutLastBreak | src/store/csv_loader.rs:94-98 | The break after the last row may be missing |
| Rfc4180.PrintThenDecode | tests/format_equivalence.rs:3-15 | Printing then decoding is the identity on all pairs of byte strings |
| Compiled.WordRoundTrip | src/store/compiled.rs:57-60 | A 32-bit word survives its four bytes |
| Compiled.WordOfBytes | src/store/compiled.rs:57-60 | Four bytes survive their word |
| Compiled.BufWriter.WriteAll | src/main.rs:135-138 | Accepted bytes arrive in order, buffered or not; an error means the file is full and a prefix was taken |
| Compiled.BufWriter.FlushBuf | src/main.rs:137 | Flushing neither loses nor repeats a byte, even when it fails part way |
| Compiled.WriteCompiled | src/store/compiled.rs:36-55 | Writes the whole image, or fails with a prefix of it accepted and the file full |
| Compiled.ReadEntries | src/store/compiled.rs:96-115 | Stops at the least entry with a window outside the arena, or returns all entries |
| Compiled.ReadCompiled | src/store/compiled.rs:66-119 | The reader's result is the specified one on every pointer width that holds a u32 |
| CompiledProofs.FormatLayout | src/store/compiled.rs:42-53 | Magic, flags, count, arena length, zero word and arena stand at their offsets |
| CompiledProofs.EntryLayout | src/store/compiled.rs:47-52 | Entry i is four words in field order at 24+16i |
| CompiledProofs.WriteThenRead | src/store/compiled.rs:36-119 | Reading a written image followed by anything returns the same arena, entries and flags |
| CompiledProofs.WriteThenReadOutOfRange | src/store/compiled.rs:105-113 | An image with a bad entry is refused with the least bad index |
| CompiledProofs.StrictPrefixIsTruncated | src/store/compiled.rs:67-94 | Every strict prefix of an image is refused as truncated |
| CompiledProofs.ReadThenWrite | src/store/compiled.rs:66-119 | Rewriting an accepted dataset reproduces the buffer up to the reserved word and trailing bytes |
| CompiledProofs.AcceptedWindowsNeverPanic | src/store/compiled.rs:105-113 | For any accepted buffer no later 32-bit sum wraps and no slice leaves the arena |
| CompiledProofs.RejectionIsExact | src/store/compiled.rs:96-119 | A complete buffer is refused exactly for its least entry leaving the arena, and accepted exactly when there is none |
| Loading.ParsedPartsAreSound | src/store/csv_loader.rs:171-206 | A successful parse tiles the arena with distinct in-range keys, few enough for the header's count field |
| Loading.Load | src/store/mod.rs:147-173 | Reads, dispatches on the magic, builds a store over the specified dataset with its flags, or returns the specified failure |
| Rfc4180.RenderingIsRead | src/store/csv_loader.rs:94-98 | The record reader hands on the rows of any rendering with any delimiter, in order, all but a header |
| Loading.RenderThenParse | src/store/csv_loader.rs:93-207 | Any text that renders pairs, however quoted and ended, loads exactly when keys are distinct, values valid UTF-8 or binary allowed, and sizes fit; the windows read the pairs back |
| Loading.PrintThenParse | tests/format_equivalence.rs:33-38 | The same for the printed form of pairs |
| Loading.ValuesAreChecked | src/store/csv_loader.rs:154-159 | Unless binary is allowed every value of a loaded text is valid UTF-8; if it is allowed no value is ever reported |
| Loading.InvalidValueIsListed | src/store/csv_loader.rs:154-159 | Unless binary is allowed a row that is read with an invalid value has that error, under its line, in the failed load |
| Loading.FailedTextListsEverything | src/store/mod.rs:154-161 | A text that does not load is answered with the whole ordered list for these options |
| Loading.PrintThenLookup | tests/format_equivalence.rs:47-58 | After print, parse and build every listed key returns exactly its value and every other key nothing |
| Loading.PathsAgreeUnlessMagic | src/store/mod.rs:151-162 | The built image loads as the parsed source under any options; so does the source itself when it does not begin with the magic, and otherwise the outcome is the compiled reader's |
| ImageOrText.AgreementExactly | src/store/mod.rs:151-162 | A parsable source that spends under 24+13n bytes on quotes and a skipped header gives the arena, entries and flags of its image if and only if it lacks the magic |
| ImageOrText.UnquotedTextNeverAgreesWithMagic | src/store/mod.rs:151-162 | The same equivalence for every source without quotes and header |
| ImageOrText.HeaderHidesImage | src/store/mod.rs:151-153 | A file beginning with the magic that parses as text and still loads as that same dataset: its header is a whole image |
| ImageOrText.MagicKeyIsRefused | src/store/mod.rs:151-153 | A valid text whose first key is the magic is refused as a truncated image |
| ImageOrText.PartialImageRefusedExactly | src/store/mod.rs:151-162 | A strict prefix of an image is refused if and only if it holds the magic, or is non-empty, headerless and without a delimiter or with a rejected value after it |
| ImageOrText.UsualOptionsRefusePieces | src/main.rs:124-125 | With comma or tab and no header every strict prefix of an image but the empty one is refused |
| Loading.PathsServeAlike | tests/format_equivalence.rs:40-58 | No lookup distinguishes the stores of the two paths |
| Loading.BinaryFlagExactly | src/main.rs:118-122 | A loaded dataset is flagged binary exactly when the options it was parsed with allow binary values, along both paths |
| Loading.AcceptedBufferIsServed | src/store/mod.rs:46-71 | Any accepted buffer, even with repeated keys, is served without inventing or hiding a key |
| BuildProtocol.ScratchNameDetermines | src/main.rs:91-96 | A scratch name belongs to one output, one process number and one nonce |
| BuildProtocol.OccupiedIsReachable | src/main.rs:90-103 | When a candidate is occupied during a run, a twin exists or each attempt so far has a candidate among the original files, so the next attempt is one the condition counts |
| BuildProtocol.ScratchesStayBeside | src/main.rs:69-96 | In every reachable state every held scratch file is in its output's own directory, under a dotted name that carries the output's and ends in `.tmp` |
| BuildProtocol.ScratchIsNotOwnOutput | src/main.rs:96 | A scratch name is never its own output |
| BuildProtocol.StepKeepsInv | src/main.rs:90-148 | Every step of any builder, failing or not, keeps the protocol invariant |
| BuildProtocol.BuildsAreAtomicExactly | src/main.rs:69-148 | In every state of every interleaving outputs are old or whole, other files unchanged, scratch files exclusive and accounted for, if and only if no scratch name a builder can come to choose is a missing output |
| BuildProtocol.ClashIsUnsafe | src/main.rs:96-102 | If a builder can come to choose a missing output's name, at any attempt, some run shows an empty file there |
| BuildProtocol.PlainOutputsAreApart | src/main.rs:96 | Outputs not named `.tmp` never clash |
| BuildProtocol.NothingLeftBehind | src/main.rs:139-148 | When all builds have ended and removals worked, only the original files and finished outputs remain |
| BuildProtocol.ScratchIsPrivate | src/main.rs:97-104 | No step of one builder changes another's scratch file |
| BuildCommand.CreateScratchFile | src/main.rs:80-111 | Creates the first free candidate, empty and in the output's own directory, or changes nothing; it fails exactly when an attempt errors or all thousand names are taken |
| BuildCommand.FailsExactlyWhenAllOccupied | src/main.rs:90-110 | While the clock stands still and creating works, creation fails exactly when the thousand names from there on are all occupied |
| BuildCommand.GivingUpTakesAThousandFiles | src/main.rs:76-78 | So giving up takes a thousand different files in the output's directory: an occupied name costs one attempt |
| BuildCommand.WriteScratch | src/main.rs:135-138 | The scratch file gets the whole image exactly when the disk takes it, otherwise as much as fits |
| BuildCommand.Conclude | src/main.rs:139-148 | Renames after a good write; otherwise removes the scratch file or, if that fails, leaves a prefix |
| BuildCommand.BuildImage | src/main.rs:124-148 | Succeeds exactly when a scratch file can be created, the disk takes the image and the rename works |
| BuildCommand.CmdBuild | src/main.rs:113-157 | On success the output is the image and nothing else changed; on failure nothing changed but a leftover whose removal failed; exit code 0 on success, 1 for invalid data, 2 otherwise |
| BuildCommand.BuiltFileLoads | src/main.rs:113-148 | The built file loads as the parsed source whatever the load options |
| BuildCommand.OutputsAlwaysLoadWhole | src/main.rs:124-148 | In every state of every interleaving an output is as before or loads as a complete finished dataset |
| Metrics.FirstBound | src/metrics.rs:73-76 | The first bound not exceeded, or the overflow bucket |
| Metrics.Metrics.Record | src/metrics.rs:55-81 | A call makes exactly its additions, modulo 2^64 |
| Metrics.Metrics.RenderHistogram | src/metrics.rs:133-145 | The lines are the running sums of the buckets |
| MetricsRuns.AnyInterleavingTallies | src/metrics.rs:55-81 | Every interleaving of the single additions ends in the same counters: the sum of the calls |
| MetricsRuns.SequenceTallies | src/metrics.rs:55-81 | Calls in sequence end in those counters too |
| MetricsRuns.CountersAddUp | src/metrics.rs:55-81 | requests = hits + misses, defaults at most misses, buckets sum to timed, nanoseconds modulo 2^64 |
| MetricsRuns.BucketMeans | src/metrics.rs:6-8 | A duration lands at or below bucket j exactly when it is within bound j |
| Metrics.BoundsByDecade | src/metrics.rs:6-8 | The bounds begin at 25, 50 and 100 microseconds and grow tenfold every three |
| MetricsRuns.HistogramMeans | src/metrics.rs:133-152 | Each line counts the durations within its bound, lines never decrease, +Inf equals the count line |
| MetricsRuns.HistogramByDuration | src/metrics.rs:6-8 | The thirteen lines one by one: calls within 25 microseconds up to a tenth of a second, then all timed calls |
| Lookups.AppState.Lookup | src/server/handlers.rs:57-90 | A present key is answered 200 with exactly its value, a missing one with the default, marked as such, or 404 without a body; the counters stay the account of all requests served |
| MetricsRuns.InterleavingIsInvisible | src/metrics.rs:55-81 | Any interleaving leaves the counters a sequential run leaves |
| Lookups.WholeRunAccounting | src/server/handlers.rs:60-77 | Hits are the requests for present keys, misses the rest, defaults all misses or none; bytes are the lengths of the values or defaults of all but HEAD requests, modulo 2^64; each histogram line the requests within its bound |
| Lookups.AppState.ServedIsAccounted | src/server/handlers.rs:57-90 | The counters of a running server, field by field, say exactly that about all requests it has served |
| Lookups.ConcurrentLookupsAccount | src/server/handlers.rs:57-90 | So do the counters after lookups in flight together, however their additions interleave |
| Queries.SplitOfJoin | src/server/handlers.rs:16 | Splitting recovers the parameters a query was joined from |
| Queries.JoinOfSplit | src/server/handlers.rs:16 | Every query is the join of what it splits into |
| Queries.NamedKExactly | src/server/handlers.rs:17-21 | A parameter is named k exactly when it is `k` or begins with `k=` |
| Queries.DecodeEncoded | src/server/handlers.rs:22-28 | Any allowed mix of literal, percent-encoded and plus forms decodes to the key (RFC 3986, section 2.1) |
| Queries.StrayPercentIsKept | src/server/handlers.rs:22-28 | A percent sign that two hex digits do not follow is kept, and what follows decodes as if it stood alone |
| Queries.EveryKeyIsReachable | src/server/handlers.rs:14-32 | Every byte string can be asked for among any parameters of which no earlier one is named k |
| Queries.NoKeyExactly | src/server/handlers.rs:16-31 | No key exactly when no parameter is named k; a bare or empty k is the empty key |

## Left out

- HTTP routing, the runtime, sockets, signals, the health check client, JSON statistics, command-line parsing and message texts: plumbing without a property of this kind.
- Internals of the `csv`, `hashbrown`, `foldhash`, `bytes`, `percent-encoding` and UTF-8 code, which are not in the repository: a decoder after RFC 4180, a bucket array with its own growth rule, an arbitrary hash and an arbitrary validity predicate stand in.
- The decoder is strict where the grammar is: a stray quote is malformed and a blank line is a row of one empty field.
- The line numbers a record reader attaches are part of each event, as unbounded numbers.
- Duplicate errors carry the key's bytes; the lossy conversion for display is not modelled.
- The path form of the key, whose decoding happens in the web framework.
- Delimiter inference from the file extension and the content type chosen from the flags: single conditionals.
- Floating point: durations and bounds are whole nanoseconds, and the rendered sum line is absent.
- What a scrape sees while additions are in flight: the code uses relaxed atomics and promises nothing there.
- Durability across power loss: nothing is synced; a builder that crashes is one that takes no further step.
- Paths are a directory and a name; an output without a file name is not modelled, nor is any process other than builders.
- An open file is identified with its path. Nobody else touches a held scratch path (ScratchIsPrivate), so the difference cannot be seen when names are apart.
- Capacity hints, `shrink_to_fit` and timing of the load.
