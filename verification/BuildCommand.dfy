/** The `build` command run from beginning to end on a disk nobody else uses,
    proved to take only steps of the protocol. */
module BuildCommand {
  import opened Basics
  import opened CsvSpec
  import opened CsvLoader
  import opened Rfc4180
  import opened Compiled
  import opened CompiledProofs
  import opened Loading
  import opened BuildProtocol

  const EXIT_OK: nat := 0
  const EXIT_INVALID_DATA: nat := 1
  const EXIT_IO: nat := 2
  const BUFFER: nat := 8192

  /** What the surroundings decide during one build: the clock at each attempt,
      which creations, renames and removals fail, how much the disk takes. */
  datatype Faults = Faults(
    readFails: bool,
    clock: nat -> Nanos,
    createFails: nat -> bool,
    diskLimit: nat,
    renameFails: bool,
    removeFails: bool)

  class Disk {
    var files: FileSystem

    /** `create_new`: never opens what already exists. */
    method CreateNew(p: Path, fails: bool) returns (ok: bool, occupied: bool)
      modifies this
      ensures occupied <==> !fails && p in old(files)
      ensures ok <==> !fails && p !in old(files)
      ensures files == if ok then old(files)[p := []] else old(files)
    {
      occupied := !fails && p in files;
      ok := !fails && p !in files;
      if ok {
        files := files[p := []];
      }
    }

    method Remove(p: Path, fails: bool)
      modifies this
      ensures files == if fails then old(files) else old(files) - {p}
    {
      if !fails {
        files := files - {p};
      }
    }

    method Rename(p: Path, to: Path, fails: bool) returns (ok: bool)
      requires p in files
      modifies this
      ensures ok <==> !fails
      ensures files == if ok then (old(files) - {p})[to := old(files)[p]] else old(files)
    {
      ok := !fails;
      if ok {
        files := (files - {p})[to := files[p]];
      }
    }

    /** A file written so far, as its writer has it. */
    method SetContent(p: Path, content: Bytes)
      modifies this
      ensures files == old(files)[p := content]
    {
      files := files[p := content];
    }
  }

  /** One builder alone. */
  function Alone(files: FileSystem, out: Path, pid: nat, image: Bytes, phase: Phase): System {
    System(files, [Builder(out, pid, image, phase)])
  }

  lemma AloneMoves(files: FileSystem, out: Path, pid: nat, image: Bytes, phase: Phase,
                   files': FileSystem, phase': Phase)
    ensures Moved(Alone(files, out, pid, image, phase), 0, files', phase') == Alone(files', out, pid, image, phase')
  {
  }

  /** Extends a run of one builder by one step. */
  lemma Extend(trace: seq<System>, s: System, files: FileSystem, b: Builder, step: Step,
               files': FileSystem, phase': Phase)
    returns (longer: seq<System>)
    requires Leads(trace, s, Alone(files, b.out, b.pid, b.image, b.phase))
    requires var here := Alone(files, b.out, b.pid, b.image, b.phase);
             Apply(here, 0, step) == Some(Moved(here, 0, files', phase'))
    ensures Leads(longer, s, Alone(files', b.out, b.pid, b.image, phase'))
  {
    var here := Alone(files, b.out, b.pid, b.image, b.phase);
    var next := Alone(files', b.out, b.pid, b.image, phase');
    AloneMoves(files, b.out, b.pid, b.image, b.phase, files', phase');
    LeadsOn(trace, s, here, 0, step, next);
    longer := trace + [next];
  }

  function CandidateAt(out: Path, pid: nat, faults: Faults, k: nat): Path {
    ScratchPath(out, pid, (faults.clock(k) + k) % 0x1_0000_0000)
  }

  /** The first `k` attempts all found their name taken. */
  ghost predicate AllTaken(files: FileSystem, out: Path, pid: nat, faults: Faults, k: nat) {
    forall j | 0 <= j < k :: !faults.createFails(j) && CandidateAt(out, pid, faults, j) in files
  }

  /** Attempt `k` is the one that decides: nothing is wrong with it or before it,
      and its name is free. */
  ghost predicate CreatesAt(files: FileSystem, out: Path, pid: nat, faults: Faults, k: nat) {
    && k < ATTEMPTS && AllTaken(files, out, pid, faults, k)
    && !faults.createFails(k) && CandidateAt(out, pid, faults, k) !in files
  }

  ghost predicate CanCreate(files: FileSystem, out: Path, pid: nat, faults: Faults) {
    exists k: nat :: CreatesAt(files, out, pid, faults, k)
  }

  lemma NoLaterCreation(files: FileSystem, out: Path, pid: nat, faults: Faults, k: nat)
    requires AllTaken(files, out, pid, faults, k)
    requires k >= ATTEMPTS || faults.createFails(k)
    ensures !CanCreate(files, out, pid, faults)
  {
    forall l: nat
      ensures !CreatesAt(files, out, pid, faults, l)
    {
      if l < k && l < ATTEMPTS {
        assert CandidateAt(out, pid, faults, l) in files;
      }
    }
  }

  ghost predicate SteadyClock(faults: Faults, nanos: Nanos) {
    forall k: nat :: faults.clock(k) == nanos && !faults.createFails(k)
  }

  /** An occupied name costs one attempt and no more: while the clock stands still
      and creating works, creation fails exactly when the thousand names from there
      on are all occupied. */
  lemma FailsExactlyWhenAllOccupied(files: FileSystem, out: Path, pid: nat, faults: Faults, nanos: Nanos)
    requires SteadyClock(faults, nanos)
    ensures !CanCreate(files, out, pid, faults) <==>
              forall nonce: U32 | nanos <= nonce < nanos + 1000 :: ScratchPath(out, pid, nonce) in files
  {
    forall k: nat | k < 1000
      ensures CandidateAt(out, pid, faults, k) == ScratchPath(out, pid, nanos + k)
    {
      assert faults.clock(k) == nanos;
    }
    if AllTaken(files, out, pid, faults, 1000) {
      NoLaterCreation(files, out, pid, faults, 1000);
      forall nonce: U32 | nanos <= nonce < nanos + 1000
        ensures ScratchPath(out, pid, nonce) in files
      {
        assert CandidateAt(out, pid, faults, nonce - nanos) in files;
      }
    } else {
      var k := FirstFree(files, out, pid, faults, 1000);
      assert CreatesAt(files, out, pid, faults, k);
      assert ScratchPath(out, pid, nanos + k) !in files;
    }
  }

  lemma {:induction false} FirstFree(files: FileSystem, out: Path, pid: nat, faults: Faults, n: nat) returns (k: nat)
    requires !AllTaken(files, out, pid, faults, n) && forall j: nat :: !faults.createFails(j)
    ensures k < n && AllTaken(files, out, pid, faults, k) && CandidateAt(out, pid, faults, k) !in files
  {
    if AllTaken(files, out, pid, faults, n - 1) {
      k := n - 1;
    } else {
      k := FirstFree(files, out, pid, faults, n - 1);
    }
  }

  /** So giving up takes a thousand different files beside the output. */
  lemma GivingUpTakesAThousandFiles(files: FileSystem, out: Path, pid: nat, faults: Faults, nanos: Nanos)
    returns (occupied: set<Path>)
    requires SteadyClock(faults, nanos) && !CanCreate(files, out, pid, faults)
    ensures |occupied| == 1000 && occupied <= files.Keys && forall p | p in occupied :: p.dir == out.dir
  {
    FailsExactlyWhenAllOccupied(files, out, pid, faults, nanos);
    occupied := NamesFrom(files, out, pid, nanos, 1000);
  }

  lemma {:induction false} NamesFrom(files: FileSystem, out: Path, pid: nat, nanos: Nanos, n: nat)
    returns (names: set<Path>)
    requires n <= 1000
    requires forall nonce: U32 | nanos <= nonce < nanos + n :: ScratchPath(out, pid, nonce) in files
    ensures |names| == n && forall p | p in names :: p in files && p.dir == out.dir
    ensures forall p | p in names :: exists nonce: U32 :: nonce < nanos + n && p == ScratchPath(out, pid, nonce)
  {
    names := {};
    if n > 0 {
      var shorter := NamesFrom(files, out, pid, nanos, n - 1);
      var next := ScratchPath(out, pid, nanos + n - 1);
      if next in shorter {
        var nonce: U32 :| nonce < nanos + n - 1 && next == ScratchPath(out, pid, nonce);
        ScratchNameDetermines(out, pid, nanos + n - 1, out, pid, nonce);
        assert false;
      }
      CandidateIsSibling(out, pid, nanos + n - 1);
      names := shorter + {next};
    }
  }

  /** Tries up to a thousand candidate names next to the output. */
  method CreateScratchFile(disk: Disk, out: Path, pid: nat, faults: Faults, ghost image: Bytes)
    returns (r: Option<Path>, ghost trace: seq<System>)
    modifies disk
    ensures r.Some? ==>
              && r.value !in old(disk.files) && r.value != out && r.value.dir == out.dir && IsSibling(r.value, out)
              && (exists nonce: U32 :: r.value == ScratchPath(out, pid, nonce))
              && disk.files == old(disk.files)[r.value := []]
    ensures r.None? ==> disk.files == old(disk.files)
    ensures r.Some? <==> CanCreate(old(disk.files), out, pid, faults)
    ensures r.Some? ==> exists k: nat ::
              CreatesAt(old(disk.files), out, pid, faults, k) && r.value == CandidateAt(out, pid, faults, k)
    ensures Leads(trace, Alone(old(disk.files), out, pid, image, Opening(0)),
                  Alone(disk.files, out, pid, image, if r.Some? then Writing(r.value, 0) else Failed(None)))
  {
    ghost var start := Alone(disk.files, out, pid, image, Opening(0));
    trace := [start];
    var attempt := 0;
    while attempt < ATTEMPTS
      invariant 0 <= attempt <= ATTEMPTS && disk.files == old(disk.files)
      invariant AllTaken(disk.files, out, pid, faults, attempt)
      invariant Leads(trace, start, Alone(disk.files, out, pid, image, Opening(attempt)))
    {
      ghost var before := disk.files;
      ghost var here := Builder(out, pid, image, Opening(attempt));
      var candidate := CandidateAt(out, pid, faults, attempt);
      ScratchIsNotOwnOutput(out, pid, (faults.clock(attempt) + attempt) % 0x1_0000_0000);
      var ok, occupied := disk.CreateNew(candidate, faults.createFails(attempt));
      if ok {
        assert CreatesAt(before, out, pid, faults, attempt);
        CandidateIsSibling(out, pid, (faults.clock(attempt) + attempt) % 0x1_0000_0000);
        trace := Extend(trace, start, before, here, Create(faults.clock(attempt)), disk.files, Writing(candidate, 0));
        return Some(candidate), trace;
      }
      if !occupied {
        NoLaterCreation(before, out, pid, faults, attempt);
        trace := Extend(trace, start, before, here, CreateError, disk.files, Failed(None));
        return None, trace;
      }
      trace := Extend(trace, start, before, here, Create(faults.clock(attempt)), disk.files, Opening(attempt + 1));
      attempt := attempt + 1;
    }
    NoLaterCreation(disk.files, out, pid, faults, attempt);
    trace := Extend(trace, start, disk.files, Builder(out, pid, image, Opening(attempt)), CreateError,
                     disk.files, Failed(None));
    r := None;
  }

  /** Writes the image through a buffer into the scratch file: all of it, or as
      much as the disk takes. */
  method WriteScratch(disk: Disk, p: Path, d: Dataset, limit: nat) returns (ok: bool)
    modifies disk
    ensures ok <==> |Image(d)| <= limit
    ensures disk.files == old(disk.files)[p := if ok then Image(d) else Image(d)[..limit]]
  {
    var w := new BufWriter(BUFFER, limit);
    ok := WriteCompiled(w, d);
    assert [] + Image(d) == Image(d);
    if ok {
      ok := w.FlushBuf();
    }
    assert w.file <= w.Stream() <= Image(d);
    assert ok ==> w.file + w.buf == w.file;
    assert !ok ==> w.file == Image(d)[..limit];
    disk.SetContent(p, w.file);
  }

  /** After the write ended, well or badly: rename the scratch file, or remove it. */
  method Conclude(disk: Disk, p: Path, out: Path, pid: nat, ghost image: Bytes, ghost n: nat, wrote: bool,
                  faults: Faults, ghost before: FileSystem, ghost start: System, ghost trace0: seq<System>)
    returns (code: nat, ghost trace: seq<System>)
    requires n <= |image| && (wrote ==> n == |image|)
    requires p in before && before[p] == [] && p != out && disk.files == before[p := image[..n]]
    requires Leads(trace0, start, Alone(before, out, pid, image, Writing(p, 0)))
    modifies disk
    ensures code == (if wrote && !faults.renameFails then EXIT_OK else EXIT_IO)
    ensures code == EXIT_OK ==> disk.files == (before - {p})[out := image]
    ensures code != EXIT_OK ==>
              disk.files == if faults.removeFails then before[p := image[..n]] else before - {p}
    ensures Leads(trace, start,
                  Alone(disk.files, out, pid, image,
                        if code == EXIT_OK then Done else Failed(if faults.removeFails then Some(p) else None)))
  {
    ghost var written := disk.files;
    assert [] + image[0..n] == image[..n];
    trace := Extend(trace0, start, before, Builder(out, pid, image, Writing(p, 0)), Write(n),
                     written, Writing(p, n));
    if wrote {
      assert image[..n] == image;
      trace := Extend(trace, start, written, Builder(out, pid, image, Writing(p, n)), Flush, written, Flushed(p));
      var ok := disk.Rename(p, out, faults.renameFails);
      if ok {
        trace := Extend(trace, start, written, Builder(out, pid, image, Flushed(p)), Rename, disk.files, Done);
        assert disk.files == (before - {p})[out := image];
        return EXIT_OK, trace;
      }
      trace := Extend(trace, start, written, Builder(out, pid, image, Flushed(p)), RenameError, written, Removing(p));
    } else {
      trace := Extend(trace, start, written, Builder(out, pid, image, Writing(p, n)), WriteError,
                       written, Removing(p));
    }
    disk.Remove(p, faults.removeFails);
    trace := Extend(trace, start, written, Builder(out, pid, image, Removing(p)),
                     if faults.removeFails then RemoveError else Remove, disk.files,
                     Failed(if faults.removeFails then Some(p) else None));
    assert !faults.removeFails ==> disk.files == before - {p};
    code := EXIT_IO;
  }

  /** From the parsed dataset to the renamed file. */
  method BuildImage(disk: Disk, out: Path, pid: nat, d: Dataset, faults: Faults)
    returns (code: nat, ghost trace: seq<System>)
    modifies disk
    ensures code == EXIT_OK || code == EXIT_IO
    ensures code == EXIT_OK <==>
              CanCreate(old(disk.files), out, pid, faults) && |Image(d)| <= faults.diskLimit && !faults.renameFails
    ensures BuildOutcome(old(disk.files), disk.files, out, pid, Image(d), code == EXIT_OK, faults.removeFails, trace)
  {
    ghost var image, original := Image(d), disk.files;
    ghost var start := Alone(original, out, pid, image, Opening(0));
    var tmp;
    tmp, trace := CreateScratchFile(disk, out, pid, faults, image);
    if tmp.None? {
      return EXIT_IO, trace;
    }
    var p := tmp.value;
    ghost var before := disk.files;
    var wrote := WriteScratch(disk, p, d, faults.diskLimit);
    ghost var n := if wrote then |image| else faults.diskLimit;
    assert image[..|image|] == image;
    code, trace := Conclude(disk, p, out, pid, image, n, wrote, faults, before, start, trace);
    assert before - {p} == original;
    if code != EXIT_OK && faults.removeFails {
      assert disk.files == original[p := image[..n]];
      assert LeftAt(original, disk.files, p, image);
    }
  }

  /** Read, validate, write aside, rename. On success the output holds the image
      and nothing else changed; on failure nothing changed, unless the removal of
      the scratch file failed too, which leaves a prefix of the image beside it. */
  method CmdBuild(disk: Disk, data: Path, out: Path, pid: nat, opts: LoadOptions, env: Env, faults: Faults)
    returns (code: nat, ghost trace: seq<System>)
    modifies disk
    ensures code in {0, 1, 2}
    ensures (faults.readFails || data !in old(disk.files)) ==> code == 2 && disk.files == old(disk.files)
    ensures !faults.readFails && data in old(disk.files) ==>
              var source := old(disk.files)[data];
              && (code == 1 <==> ParseText(source, opts, env).Err?)
              && (code == 1 ==> disk.files == old(disk.files))
              && (code == 0 <==>
                    && ParseText(source, opts, env).Ok? && CanCreate(old(disk.files), out, pid, faults)
                    && |Image(Built(source, opts, env))| <= faults.diskLimit && !faults.renameFails)
              && (ParseText(source, opts, env).Ok? ==>
                    BuildOutcome(old(disk.files), disk.files, out, pid, Image(Built(source, opts, env)),
                                 code == 0, faults.removeFails, trace))
  {
    if faults.readFails || data !in disk.files {
      return EXIT_IO, [];
    }
    var source := disk.files[data];
    var parsed := ParseCsv(ReaderEvents(source, opts, env.lines), Rule(opts, env), env.hash);
    if parsed.Err? {
      return EXIT_INVALID_DATA, [];
    }
    var d := Dataset(parsed.value.arena, parsed.value.entries, FlagsFor(opts));
    code, trace := BuildImage(disk, out, pid, d, faults);
  }

  /** How one undisturbed build ends, and that it took only protocol steps. */
  ghost predicate BuildOutcome(files: FileSystem, files': FileSystem, out: Path, pid: nat, image: Bytes,
                               ok: bool, removeFails: bool, trace: seq<System>)
  {
    && (ok ==> files' == files[out := image])
    && (!ok && !removeFails ==> files' == files)
    && (!ok ==> files' == files || LeftPrefix(files, files', out, pid, image))
    && exists phase :: Leads(trace, Alone(files, out, pid, image, Opening(0)), Alone(files', out, pid, image, phase))
                       && (ok <==> phase == Done)
  }

  ghost predicate LeftPrefix(files: FileSystem, files': FileSystem, out: Path, pid: nat, image: Bytes) {
    exists nonce: U32 :: LeftAt(files, files', ScratchPath(out, pid, nonce), image)
  }

  ghost predicate LeftAt(files: FileSystem, files': FileSystem, p: Path, image: Bytes) {
    p !in files && p in files' && files'[p] <= image && files' == files[p := files'[p]]
  }

  // ---- What a later stage finds ----

  /** The file a successful build leaves loads as the parsed source, whatever
      options it is loaded with. */
  lemma BuiltFileLoads(files: FileSystem, files': FileSystem, out: Path, pid: nat, source: Bytes, removeFails: bool,
                       trace: seq<System>, opts: LoadOptions, env: Env, opts': LoadOptions, env': Env)
    requires ParseText(source, opts, env).Ok?
    requires BuildOutcome(files, files', out, pid, Image(Built(source, opts, env)), true, removeFails, trace)
    ensures out in files'
    ensures LoadSpec(files'[out], opts', env') == Ok(Loaded(Built(source, opts, env), CompiledImage))
  {
    PathsAgreeUnlessMagic(source, opts, env, opts', env');
  }

  ghost predicate BuildsDatasets(s: System, datasets: seq<Dataset>) {
    && |datasets| == |s.builders|
    && forall i | 0 <= i < |s.builders| :: EntriesFit(datasets[i]) && s.builders[i].image == Image(datasets[i])
  }

  /** Nobody ever loads a half-written output: in every state of every
      interleaving, with every failure, an output is what it was before, or loads
      as the complete dataset of a build that finished there. */
  lemma OutputsAlwaysLoadWhole(trace: seq<System>, k: nat, datasets: seq<Dataset>, j: nat, opts: LoadOptions, env: Env)
    returns (i: nat)
    requires IsRun(trace) && Start(trace[0]) && NamesApart(trace[0]) && k < |trace|
    requires BuildsDatasets(trace[0], datasets) && j < |trace[k].builders|
    ensures var s, q := trace[k], trace[k].builders[j].out;
            MapGet(s.files, q) == MapGet(trace[0].files, q)
            || (i < |datasets| && i < |s.builders| && FinishedAt(s, i, q) && q in s.files
                && LoadSpec(s.files[q], opts, env) == Ok(Loaded(datasets[i], CompiledImage)))
  {
    RunKeepsInv(trace, k);
    InvIsSafe(trace[0], trace[k]);
    var s, q := trace[k], trace[k].builders[j].out;
    i := 0;
    if Finished(s, q) {
      assert HoldsImage(s, q);
      i :| 0 <= i < |s.builders| && FinishedAt(s, i, q) && MapGet(s.files, q) == Some(s.builders[i].image);
      assert s.builders[i].image == trace[0].builders[i].image;
      WriteThenRead(datasets[i], []);
      ImageShape(datasets[i], []);
      assert Image(datasets[i]) + [] == Image(datasets[i]);
    }
  }
}
