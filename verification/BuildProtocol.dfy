/** The write-then-rename protocol of `build`, as single file-system steps that
    any number of builders interleave. A builder that stops stepping has crashed. */
module BuildProtocol {
  import opened Basics

  datatype Path = Path(dir: string, name: string)

  type FileSystem = map<Path, Bytes>

  datatype Phase =
    | Opening(attempt: nat)
    | Writing(scratch: Path, written: nat)
    | Flushed(scratch: Path)
    | Removing(scratch: Path)
    | Done
    | Failed(leftover: Option<Path>)

  datatype Builder = Builder(out: Path, pid: nat, image: Bytes, phase: Phase)

  datatype System = System(files: FileSystem, builders: seq<Builder>)

  datatype Step =
    | Create(nanos: Nanos)
    | CreateError
    | Write(n: nat)
    | WriteError
    | Flush
    | Rename
    | RenameError
    | Remove
    | RemoveError

  const ATTEMPTS: nat := 1000

  /** What the clock's sub-second reading can be. */
  type Nanos = n: int | 0 <= n < 1_000_000_000

  // ---- Scratch names ----

  function Digit(n: nat): char
    requires n < 10
  {
    ('0' as int + n) as char
  }

  function Decimal(n: nat): string {
    if n < 10 then [Digit(n)] else Decimal(n / 10) + [Digit(n % 10)]
  }

  function ScratchPath(out: Path, pid: nat, nonce: U32): Path {
    Path(out.dir, "." + out.name + "." + Decimal(pid) + "." + Decimal(nonce) + ".tmp")
  }

  /** The candidate of one attempt: the clock plus the attempt, wrapping. */
  function Candidate(b: Builder, nanos: Nanos, attempt: nat): Path {
    ScratchPath(b.out, b.pid, (nanos + attempt) % 0x1_0000_0000)
  }

  lemma ScratchIsNotOwnOutput(out: Path, pid: nat, nonce: U32)
    ensures ScratchPath(out, pid, nonce) != out
  {
    assert |ScratchPath(out, pid, nonce).name| > |out.name|;
  }

  /** The number a string of digits spells. */
  function Number(s: string): int {
    if s == "" then 0 else 10 * Number(s[..|s| - 1]) + s[|s| - 1] as int - '0' as int
  }

  lemma {:induction false} DecimalReads(n: nat)
    ensures Number(Decimal(n)) == n && Decimal(n) != []
    ensures forall c | c in Decimal(n) :: '0' <= c <= '9'
  {
    if n >= 10 {
      DecimalReads(n / 10);
      assert Decimal(n)[..|Decimal(n)| - 1] == Decimal(n / 10);
    }
  }

  /** The last dot of a string splits it in one way only. */
  lemma LastDotSplits(a: string, d: string, a': string, d': string)
    requires a + "." + d == a' + "." + d' && '.' !in d && '.' !in d'
    ensures a == a' && d == d'
  {
    var s := a + "." + d;
    assert s[|a|] == '.' && s[|a'|] == '.';
    assert forall k | |a| < k < |s| :: s[k] == d[k - |a| - 1];
    assert forall k | |a'| < k < |s| :: s[k] == d'[k - |a'| - 1];
    assert a == s[..|a|] && a' == s[..|a'|] && d == s[|a| + 1..] && d' == s[|a'| + 1..];
  }

  /** A scratch name tells for which output, and by which process, it was chosen. */
  lemma ScratchNameDetermines(out: Path, pid: nat, nonce: U32, out': Path, pid': nat, nonce': U32)
    requires ScratchPath(out, pid, nonce) == ScratchPath(out', pid', nonce')
    ensures out == out' && pid == pid' && nonce == nonce'
  {
    var stem, stem' := "." + out.name, "." + out'.name;
    var s, s' := stem + "." + Decimal(pid) + "." + Decimal(nonce), stem' + "." + Decimal(pid') + "." + Decimal(nonce');
    assert s == (s + ".tmp")[..|s + ".tmp"| - 4] && s' == (s' + ".tmp")[..|s' + ".tmp"| - 4];
    DecimalReads(nonce);
    DecimalReads(nonce');
    LastDotSplits(stem + "." + Decimal(pid), Decimal(nonce), stem' + "." + Decimal(pid'), Decimal(nonce'));
    DecimalReads(pid);
    DecimalReads(pid');
    LastDotSplits(stem, Decimal(pid), stem', Decimal(pid'));
    assert out.name == stem[1..] && out'.name == stem'[1..];
  }

  // ---- One step ----

  function Append(files: FileSystem, p: Path, chunk: Bytes): FileSystem {
    if p in files then files[p := files[p] + chunk] else files
  }

  /** What a step of builder `i` does, or `None` where it cannot take it. Creation
      is exclusive: an occupied name costs an attempt. */
  function Apply(s: System, i: nat, step: Step): Option<System>
    requires i < |s.builders|
  {
    var b := s.builders[i];
    match (b.phase, step)
    case (Opening(k), Create(nanos)) =>
      var p := Candidate(b, nanos, k);
      if k >= ATTEMPTS then None
      else if p in s.files then Some(Moved(s, i, s.files, Opening(k + 1)))
      else Some(Moved(s, i, s.files[p := []], Writing(p, 0)))
    case (Opening(_), CreateError) => Some(Moved(s, i, s.files, Failed(None)))
    case (Writing(p, w), Write(n)) =>
      if w + n > |b.image| then None
      else Some(Moved(s, i, Append(s.files, p, b.image[w..w + n]), Writing(p, w + n)))
    case (Writing(p, _), WriteError) => Some(Moved(s, i, s.files, Removing(p)))
    case (Writing(p, w), Flush) => if w == |b.image| then Some(Moved(s, i, s.files, Flushed(p))) else None
    case (Flushed(p), Rename) =>
      if p !in s.files then None else Some(Moved(s, i, (s.files - {p})[b.out := s.files[p]], Done))
    case (Flushed(p), RenameError) => Some(Moved(s, i, s.files, Removing(p)))
    case (Removing(p), Remove) => Some(Moved(s, i, s.files - {p}, Failed(None)))
    case (Removing(p), RemoveError) => Some(Moved(s, i, s.files, Failed(Some(p))))
    case _ => None
  }

  function Moved(s: System, i: nat, files: FileSystem, phase: Phase): System
    requires i < |s.builders|
  {
    System(files, s.builders[i := s.builders[i].(phase := phase)])
  }

  // ---- Runs ----

  ghost predicate Steps(s: System, s': System) {
    exists i, step :: 0 <= i < |s.builders| && Apply(s, i, step) == Some(s')
  }

  ghost predicate Start(s: System) {
    forall i | 0 <= i < |s.builders| :: s.builders[i].phase == Opening(0)
  }

  ghost predicate IsRun(trace: seq<System>) {
    && trace != []
    && forall k | 0 < k < |trace| :: Steps(trace[k - 1], trace[k])
  }

  // ---- What must hold at every state ----

  function Scratch(phase: Phase): Option<Path> {
    match phase
    case Writing(p, _) => Some(p)
    case Flushed(p) => Some(p)
    case Removing(p) => Some(p)
    case Failed(leftover) => leftover
    case _ => None
  }

  ghost predicate Holds(s: System, i: nat, p: Path)
    requires i < |s.builders|
  {
    Scratch(s.builders[i].phase) == Some(p)
  }

  ghost predicate Held(s: System, p: Path) {
    exists i | 0 <= i < |s.builders| :: Holds(s, i, p)
  }

  ghost predicate FinishedAt(s: System, i: nat, q: Path)
    requires i < |s.builders|
  {
    s.builders[i].phase == Done && s.builders[i].out == q
  }

  ghost predicate Finished(s: System, q: Path) {
    exists i | 0 <= i < |s.builders| :: FinishedAt(s, i, q)
  }

  /** Path `q` holds the whole image of some builder that finished there. */
  ghost predicate HoldsImage(s: System, q: Path) {
    exists i | 0 <= i < |s.builders| :: FinishedAt(s, i, q) && MapGet(s.files, q) == Some(s.builders[i].image)
  }

  /** An output is untouched until a build of it finishes, and whole afterwards. */
  ghost predicate OutputsAtomic(init: FileSystem, s: System) {
    forall i | 0 <= i < |s.builders| ::
      var q := s.builders[i].out;
      if Finished(s, q) then HoldsImage(s, q) else MapGet(s.files, q) == MapGet(init, q)
  }

  ghost predicate IsOutput(s: System, q: Path) {
    exists i | 0 <= i < |s.builders| :: s.builders[i].out == q
  }

  ghost predicate OthersUnchanged(init: FileSystem, s: System) {
    forall q | q in init && !IsOutput(s, q) :: MapGet(s.files, q) == Some(init[q])
  }

  ghost predicate ScratchesExclusive(s: System) {
    forall i, j, p | 0 <= i < j < |s.builders| && Holds(s, i, p) :: !Holds(s, j, p)
  }

  /** Every new file is a finished output or a scratch file somebody still holds:
      a failed build holds one only if removing it failed. */
  ghost predicate NoStrays(init: FileSystem, s: System) {
    forall q | q in s.files :: q in init || Finished(s, q) || Held(s, q)
  }

  ghost predicate Safe(init: FileSystem, s: System) {
    OutputsAtomic(init, s) && OthersUnchanged(init, s) && ScratchesExclusive(s) && NoStrays(init, s)
  }

  // ---- Which names a builder can come to choose ----

  /** Another builder of the same output under the same process number, as two
      containers sharing a volume can have. */
  ghost predicate Twin(s: System, i: nat)
    requires i < |s.builders|
  {
    exists j | 0 <= j < |s.builders| && j != i ::
      s.builders[j].out == s.builders[i].out && s.builders[j].pid == s.builders[i].pid
  }

  /** Some candidate of this attempt is an existing file. */
  ghost predicate Taken(s: System, i: nat, attempt: nat)
    requires i < |s.builders|
  {
    exists nanos: Nanos :: Candidate(s.builders[i], nanos, attempt) in s.files
  }

  /** The earlier attempts can all fail: on existing files, or on what a twin
      creates. */
  ghost predicate CanReach(s: System, i: nat, attempt: nat)
    requires i < |s.builders|
  {
    Twin(s, i) || forall a | 0 <= a < attempt :: Taken(s, i, a)
  }

  /** What a caller can check beforehand: no builder could come to choose, as its
      scratch name, the output of a build when that output does not exist yet. */
  ghost predicate NamesApart(s: System) {
    forall i, j, attempt: nat, nanos: Nanos
      | 0 <= i < |s.builders| && 0 <= j < |s.builders| && attempt < ATTEMPTS && CanReach(s, i, attempt) ::
      Candidate(s.builders[i], nanos, attempt) == s.builders[j].out ==> s.builders[j].out in s.files
  }

  /** A name builder `i` could come to choose. */
  ghost predicate Choosable(s: System, i: nat, p: Path)
    requires i < |s.builders|
  {
    exists attempt: nat, nanos: Nanos ::
      attempt < ATTEMPTS && CanReach(s, i, attempt) && p == Candidate(s.builders[i], nanos, attempt)
  }

  // ---- Where scratch files are ----

  /** Next to the output, so that the rename stays within one directory, and under
      a name that carries the output's, begins with a dot and ends in `.tmp`. */
  ghost predicate IsSibling(p: Path, out: Path) {
    && p.dir == out.dir
    && "." + out.name + "." <= p.name
    && |p.name| >= 4 && p.name[|p.name| - 4..] == ".tmp"
  }

  lemma CandidateIsSibling(out: Path, pid: nat, nonce: U32)
    ensures IsSibling(ScratchPath(out, pid, nonce), out)
  {
    var p, stem := ScratchPath(out, pid, nonce), "." + out.name + ".";
    assert p.name == stem + (Decimal(pid) + "." + Decimal(nonce) + ".tmp");
    assert p.name[..|stem|] == stem;
  }

  ghost predicate ScratchesBeside(s: System) {
    forall i, p | 0 <= i < |s.builders| && Holds(s, i, p) :: IsSibling(p, s.builders[i].out)
  }

  lemma StepKeepsBeside(s: System, i: nat, step: Step, s': System)
    requires ScratchesBeside(s) && i < |s.builders| && Apply(s, i, step) == Some(s')
    ensures ScratchesBeside(s')
  {
    forall j, p | 0 <= j < |s'.builders| && Holds(s', j, p)
      ensures IsSibling(p, s'.builders[j].out)
    {
      if j == i && s.builders[i].phase.Opening? && step.Create? {
        CandidateIsSibling(s.builders[i].out, s.builders[i].pid, (step.nanos + s.builders[i].phase.attempt) % TWO32);
      } else {
        assert Holds(s, j, p);
      }
    }
  }

  /** In every reachable state, whatever names clash, each scratch file still held
      lies beside its builder's output. */
  lemma {:induction false} ScratchesStayBeside(trace: seq<System>, k: nat)
    requires IsRun(trace) && Start(trace[0]) && k < |trace|
    ensures forall i, p | 0 <= i < |trace[k].builders| && Scratch(trace[k].builders[i].phase) == Some(p) ::
              IsSibling(p, trace[k].builders[i].out)
  {
    BesideAt(trace, k);
    assert forall i, p | 0 <= i < |trace[k].builders| && Scratch(trace[k].builders[i].phase) == Some(p) ::
        Holds(trace[k], i, p);
  }

  lemma {:induction false} BesideAt(trace: seq<System>, k: nat)
    requires IsRun(trace) && Start(trace[0]) && k < |trace|
    ensures ScratchesBeside(trace[k])
  {
    if k > 0 {
      BesideAt(trace, k - 1);
      assert Steps(trace[k - 1], trace[k]);
      var i, step :| 0 <= i < |trace[k - 1].builders| && Apply(trace[k - 1], i, step) == Some(trace[k]);
      StepKeepsBeside(trace[k - 1], i, step, trace[k]);
    }
  }

  // ---- The invariant ----

  ghost predicate SamePlans(s: System, s': System) {
    && |s.builders| == |s'.builders|
    && forall i | 0 <= i < |s.builders| :: s'.builders[i] == s.builders[i].(phase := s'.builders[i].phase)
  }

  /** An attempt number is one the builder can reach. A held scratch file is new,
      has a name its holder can choose, and is a prefix of its image: the whole
      image once flushed. */
  ghost predicate BuilderOk(s0: System, s: System, i: nat)
    requires i < |s.builders| && i < |s0.builders|
  {
    var b := s.builders[i];
    && (b.phase.Opening? ==> CanReach(s0, i, b.phase.attempt))
    && match Scratch(b.phase)
       case None => true
       case Some(p) =>
         && p !in s0.files && p in s.files && Choosable(s0, i, p)
         && (b.phase.Writing? ==> b.phase.written <= |b.image| && s.files[p] == b.image[..b.phase.written])
         && (b.phase.Flushed? ==> s.files[p] == b.image)
         && s.files[p] <= b.image
  }

  ghost predicate PathOk(init: FileSystem, s: System, q: Path) {
    Held(s, q) || if Finished(s, q) then HoldsImage(s, q) else MapGet(s.files, q) == MapGet(init, q)
  }

  ghost predicate Inv(s0: System, s: System) {
    && SamePlans(s0, s)
    && (forall i | 0 <= i < |s.builders| :: BuilderOk(s0, s, i))
    && ScratchesExclusive(s)
    && (forall q :: PathOk(s0.files, s, q))
  }

  lemma InitialInv(s0: System)
    requires Start(s0)
    ensures Inv(s0, s0)
  {
  }

  /** A new scratch file is nobody's output. */
  lemma HeldIsNoOutput(s0: System, s: System, i: nat, p: Path, j: nat)
    requires NamesApart(s0) && SamePlans(s0, s) && i < |s.builders| && j < |s.builders|
    requires Choosable(s0, i, p) && p !in s0.files
    ensures s.builders[j].out != p
  {
    assert s0.builders[j].out == s.builders[j].out;
  }

  lemma InvIsSafe(s0: System, s: System)
    requires NamesApart(s0) && Inv(s0, s)
    ensures Safe(s0.files, s)
  {
    forall i | 0 <= i < |s.builders|
      ensures !Held(s, s.builders[i].out)
    {
      forall j | 0 <= j < |s.builders| && Holds(s, j, s.builders[i].out)
        ensures false
      {
        assert BuilderOk(s0, s, j);
        HeldIsNoOutput(s0, s, j, s.builders[i].out, i);
      }
    }
    forall i | 0 <= i < |s.builders|
      ensures var q := s.builders[i].out;
              if Finished(s, q) then HoldsImage(s, q) else MapGet(s.files, q) == MapGet(s0.files, q)
    {
      assert PathOk(s0.files, s, s.builders[i].out);
    }
    forall q | q in s0.files && !IsOutput(s, q)
      ensures MapGet(s.files, q) == Some(s0.files[q])
    {
      assert PathOk(s0.files, s, q);
      assert !Finished(s, q);
      forall j | 0 <= j < |s.builders|
        ensures !Holds(s, j, q)
      {
        assert BuilderOk(s0, s, j);
      }
    }
    forall q | q in s.files
      ensures q in s0.files || Finished(s, q) || Held(s, q)
    {
      assert PathOk(s0.files, s, q);
    }
  }

  // ---- Every step keeps the invariant ----

  /** A step that leaves the file system alone and gives up no scratch file. */
  lemma IdleStep(s0: System, s: System, i: nat, phase: Phase)
    requires Inv(s0, s) && i < |s.builders|
    requires !s.builders[i].phase.Done? && !phase.Done?
    requires Scratch(phase) == Scratch(s.builders[i].phase)
    requires BuilderOk(s0, Moved(s, i, s.files, phase), i)
    ensures Inv(s0, Moved(s, i, s.files, phase))
  {
    var s' := Moved(s, i, s.files, phase);
    forall j, p | 0 <= j < |s.builders|
      ensures Holds(s', j, p) <==> Holds(s, j, p)
      ensures FinishedAt(s', j, p) <==> FinishedAt(s, j, p)
    {
    }
    forall j | 0 <= j < |s.builders|
      ensures BuilderOk(s0, s', j)
    {
      assert BuilderOk(s0, s, j);
    }
    forall q
      ensures PathOk(s0.files, s', q)
    {
      assert PathOk(s0.files, s, q);
      SameOwners(s, s', q);
    }
  }

  lemma SameOwners(s: System, s': System, q: Path)
    requires |s.builders| == |s'.builders|
    requires MapGet(s.files, q) == MapGet(s'.files, q)
    requires forall j | 0 <= j < |s.builders| ::
               && (Holds(s', j, q) <==> Holds(s, j, q))
               && (FinishedAt(s', j, q) <==> FinishedAt(s, j, q))
               && s'.builders[j].image == s.builders[j].image
    ensures Held(s', q) <==> Held(s, q)
    ensures Finished(s', q) <==> Finished(s, q)
    ensures HoldsImage(s', q) <==> HoldsImage(s, q)
  {
    if Held(s, q) {
      var j :| 0 <= j < |s.builders| && Holds(s, j, q);
      assert Holds(s', j, q);
    }
    if Held(s', q) {
      var j :| 0 <= j < |s.builders| && Holds(s', j, q);
      assert Holds(s, j, q);
    }
    if Finished(s, q) {
      var j :| 0 <= j < |s.builders| && FinishedAt(s, j, q);
      assert FinishedAt(s', j, q);
    }
    if Finished(s', q) {
      var j :| 0 <= j < |s.builders| && FinishedAt(s', j, q);
      assert FinishedAt(s, j, q);
    }
    if HoldsImage(s, q) {
      var j :| 0 <= j < |s.builders| && FinishedAt(s, j, q) && MapGet(s.files, q) == Some(s.builders[j].image);
      assert FinishedAt(s', j, q);
    }
    if HoldsImage(s', q) {
      var j :| 0 <= j < |s.builders| && FinishedAt(s', j, q) && MapGet(s'.files, q) == Some(s'.builders[j].image);
      assert FinishedAt(s, j, q);
    }
  }

  /** A step of builder `i` that changes only path `p`, its scratch file before
      or after the step, and does not finish. */
  lemma ScratchStep(s0: System, s: System, i: nat, p: Path, files: FileSystem, phase: Phase)
    requires NamesApart(s0) && Inv(s0, s) && i < |s.builders|
    requires !s.builders[i].phase.Done? && !phase.Done?
    requires forall q | q != p :: MapGet(files, q) == MapGet(s.files, q)
    requires Choosable(s0, i, p) && p !in s0.files
    requires forall j | 0 <= j < |s.builders| && j != i :: !Holds(s, j, p)
    requires Scratch(s.builders[i].phase) in {None, Some(p)}
    requires Scratch(phase) == if p in files then Some(p) else None
    requires BuilderOk(s0, Moved(s, i, files, phase), i)
    ensures Inv(s0, Moved(s, i, files, phase))
  {
    var s' := Moved(s, i, files, phase);
    forall j | 0 <= j < |s.builders|
      ensures BuilderOk(s0, s', j)
    {
      assert BuilderOk(s0, s, j);
      if j != i && Scratch(s.builders[j].phase).Some? {
        var r := Scratch(s.builders[j].phase).value;
        assert Holds(s, j, r) && r != p;
        assert MapGet(files, r) == MapGet(s.files, r);
      }
    }
    forall j | 0 <= j < |s.builders|
      ensures s'.builders[j].out != p
    {
      HeldIsNoOutput(s0, s, i, p, j);
    }
    forall q
      ensures PathOk(s0.files, s', q)
    {
      assert PathOk(s0.files, s, q);
      if q != p {
        SameOwners(s, s', q);
      } else if p in files {
        assert Holds(s', i, p);
      } else {
        assert !Finished(s', p);
      }
    }
    forall j, k, r | 0 <= j < k < |s.builders| && Holds(s', j, r)
      ensures !Holds(s', k, r)
    {
      assert j != i ==> Holds(s, j, r);
      assert k != i ==> (Holds(s', k, r) <==> Holds(s, k, r));
    }
  }

  /** The rename: the scratch file becomes the output in one step. */
  lemma RenameStep(s0: System, s: System, i: nat)
    requires NamesApart(s0) && Inv(s0, s) && i < |s.builders|
    requires s.builders[i].phase.Flushed? && s.builders[i].phase.scratch in s.files
    ensures var p, out := s.builders[i].phase.scratch, s.builders[i].out;
            Inv(s0, Moved(s, i, (s.files - {p})[out := s.files[p]], Done))
  {
    var p, out := s.builders[i].phase.scratch, s.builders[i].out;
    var s' := Moved(s, i, (s.files - {p})[out := s.files[p]], Done);
    assert BuilderOk(s0, s, i) && Holds(s, i, p);
    forall j | 0 <= j < |s.builders|
      ensures s.builders[j].out != p
    {
      HeldIsNoOutput(s0, s, i, p, j);
    }
    forall j | 0 <= j < |s.builders|
      ensures BuilderOk(s0, s', j)
    {
      assert BuilderOk(s0, s, j);
      if j != i && Scratch(s.builders[j].phase).Some? {
        var r := Scratch(s.builders[j].phase).value;
        assert Holds(s, j, r);
        HeldIsNoOutput(s0, s, j, r, i);
      }
    }
    forall q
      ensures PathOk(s0.files, s', q)
    {
      assert PathOk(s0.files, s, q);
      if q == out {
        assert FinishedAt(s', i, out) && MapGet(s'.files, out) == Some(s'.builders[i].image);
      } else if q == p {
        assert !Finished(s', p) && MapGet(s'.files, p) == None;
      } else {
        SameOwners(s, s', q);
      }
    }
    forall j, k, r | 0 <= j < k < |s.builders| && Holds(s', j, r)
      ensures !Holds(s', k, r)
    {
      assert j != i && Holds(s, j, r);
      assert k != i ==> (Holds(s', k, r) <==> Holds(s, k, r));
    }
  }

  lemma WriteKeepsPrefix(image: Bytes, w: nat, n: nat)
    requires w + n <= |image|
    ensures image[..w] + image[w..w + n] == image[..w + n]
  {
  }

  /** The owner of a scratch file is its only holder, and it is new. */
  lemma OwnScratch(s0: System, s: System, i: nat, p: Path)
    requires Inv(s0, s) && i < |s.builders| && Holds(s, i, p)
    ensures Choosable(s0, i, p) && p !in s0.files && p in s.files
    ensures forall j | 0 <= j < |s.builders| && j != i :: !Holds(s, j, p)
  {
    assert BuilderOk(s0, s, i);
  }

  lemma CreateStep(s0: System, s: System, i: nat, nanos: Nanos)
    requires NamesApart(s0) && Inv(s0, s) && i < |s.builders|
    requires s.builders[i].phase.Opening? && s.builders[i].phase.attempt < ATTEMPTS
    requires Candidate(s.builders[i], nanos, s.builders[i].phase.attempt) !in s.files
    ensures var p := Candidate(s.builders[i], nanos, s.builders[i].phase.attempt);
            Inv(s0, Moved(s, i, s.files[p := []], Writing(p, 0)))
  {
    var p := Candidate(s.builders[i], nanos, s.builders[i].phase.attempt);
    forall j | 0 <= j < |s.builders|
      ensures !Holds(s, j, p)
    {
      assert BuilderOk(s0, s, j);
    }
    assert PathOk(s0.files, s, p);
    assert BuilderOk(s0, s, i) && SamePlans(s0, s);
    assert p == Candidate(s0.builders[i], nanos, s.builders[i].phase.attempt);
    assert Choosable(s0, i, p);
    ScratchStep(s0, s, i, p, s.files[p := []], Writing(p, 0));
  }

  lemma WriteStep(s0: System, s: System, i: nat, n: nat)
    requires NamesApart(s0) && Inv(s0, s) && i < |s.builders|
    requires s.builders[i].phase.Writing? && s.builders[i].phase.written + n <= |s.builders[i].image|
    ensures var b := s.builders[i];
            var p, w := b.phase.scratch, b.phase.written;
            Inv(s0, Moved(s, i, Append(s.files, p, b.image[w..w + n]), Writing(p, w + n)))
  {
    var b := s.builders[i];
    var p, w := b.phase.scratch, b.phase.written;
    assert Holds(s, i, p) && BuilderOk(s0, s, i);
    OwnScratch(s0, s, i, p);
    WriteKeepsPrefix(b.image, w, n);
    ScratchStep(s0, s, i, p, Append(s.files, p, b.image[w..w + n]), Writing(p, w + n));
  }

  lemma RemoveStep(s0: System, s: System, i: nat)
    requires NamesApart(s0) && Inv(s0, s) && i < |s.builders| && s.builders[i].phase.Removing?
    ensures Inv(s0, Moved(s, i, s.files - {s.builders[i].phase.scratch}, Failed(None)))
  {
    var p := s.builders[i].phase.scratch;
    assert Holds(s, i, p);
    OwnScratch(s0, s, i, p);
    ScratchStep(s0, s, i, p, s.files - {p}, Failed(None));
  }

  /** Why an attempt can fail: its name is an original file, or a twin holds it. */
  lemma OccupiedIsReachable(s0: System, s: System, i: nat, nanos: Nanos)
    requires NamesApart(s0) && Inv(s0, s) && i < |s.builders|
    requires s.builders[i].phase.Opening? && s.builders[i].phase.attempt < ATTEMPTS
    requires Candidate(s.builders[i], nanos, s.builders[i].phase.attempt) in s.files
    ensures CanReach(s0, i, s.builders[i].phase.attempt + 1)
  {
    var k := s.builders[i].phase.attempt;
    var p := Candidate(s0.builders[i], nanos, k);
    assert BuilderOk(s0, s, i) && PathOk(s0.files, s, p);
    assert s.builders[i].out == s0.builders[i].out && s.builders[i].pid == s0.builders[i].pid;
    if Held(s, p) {
      var j :| 0 <= j < |s.builders| && Holds(s, j, p);
      HolderIsTwin(s0, s, i, nanos, k, j);
    } else if Finished(s, p) {
      var j :| 0 <= j < |s.builders| && FinishedAt(s, j, p);
      assert s0.builders[j].out == p;
      assert Taken(s0, i, k);
    } else {
      assert Taken(s0, i, k);
    }
  }

  lemma HolderIsTwin(s0: System, s: System, i: nat, nanos: Nanos, k: nat, j: nat)
    requires Inv(s0, s) && i < |s.builders| && j < |s.builders| && s.builders[i].phase.Opening?
    requires Holds(s, j, Candidate(s0.builders[i], nanos, k))
    ensures Twin(s0, i)
  {
    var p := Candidate(s0.builders[i], nanos, k);
    assert BuilderOk(s0, s, j) && Choosable(s0, j, p);
    var a: nat, n: Nanos :| a < ATTEMPTS && CanReach(s0, j, a) && p == Candidate(s0.builders[j], n, a);
    ScratchNameDetermines(s0.builders[i].out, s0.builders[i].pid, (nanos + k) % 0x1_0000_0000,
                          s0.builders[j].out, s0.builders[j].pid, (n + a) % 0x1_0000_0000);
  }

  lemma OpeningStep(s0: System, s: System, i: nat, step: Step, s': System)
    requires NamesApart(s0) && Inv(s0, s) && i < |s.builders| && s.builders[i].phase.Opening?
    requires Apply(s, i, step) == Some(s')
    ensures Inv(s0, s')
  {
    var k := s.builders[i].phase.attempt;
    if step.Create? {
      if Candidate(s.builders[i], step.nanos, k) in s.files {
        OccupiedIsReachable(s0, s, i, step.nanos);
        IdleStep(s0, s, i, Opening(k + 1));
      } else {
        CreateStep(s0, s, i, step.nanos);
      }
    } else {
      IdleStep(s0, s, i, Failed(None));
    }
  }

  lemma WritingStep(s0: System, s: System, i: nat, step: Step, s': System)
    requires NamesApart(s0) && Inv(s0, s) && i < |s.builders| && s.builders[i].phase.Writing?
    requires Apply(s, i, step) == Some(s')
    ensures Inv(s0, s')
  {
    var b := s.builders[i];
    assert BuilderOk(s0, s, i);
    if step.Write? {
      WriteStep(s0, s, i, step.n);
    } else if step.Flush? {
      assert b.image[..b.phase.written] == b.image;
      IdleStep(s0, s, i, Flushed(b.phase.scratch));
    } else {
      IdleStep(s0, s, i, Removing(b.phase.scratch));
    }
  }

  lemma EndingStep(s0: System, s: System, i: nat, step: Step, s': System)
    requires NamesApart(s0) && Inv(s0, s) && i < |s.builders|
    requires s.builders[i].phase.Flushed? || s.builders[i].phase.Removing?
    requires Apply(s, i, step) == Some(s')
    ensures Inv(s0, s')
  {
    var phase := s.builders[i].phase;
    assert BuilderOk(s0, s, i);
    match step {
      case Rename => RenameStep(s0, s, i);
      case RenameError => IdleStep(s0, s, i, Removing(phase.scratch));
      case Remove => RemoveStep(s0, s, i);
      case RemoveError => IdleStep(s0, s, i, Failed(Some(phase.scratch)));
      case _ =>
    }
  }

  lemma StepKeepsInv(s0: System, s: System, i: nat, step: Step, s': System)
    requires NamesApart(s0) && Inv(s0, s) && i < |s.builders| && Apply(s, i, step) == Some(s')
    ensures Inv(s0, s')
  {
    match s.builders[i].phase {
      case Opening(_) => OpeningStep(s0, s, i, step, s');
      case Writing(_, _) => WritingStep(s0, s, i, step, s');
      case Flushed(_) => EndingStep(s0, s, i, step, s');
      case Removing(_) => EndingStep(s0, s, i, step, s');
      case _ =>
    }
  }

  lemma {:induction false} RunKeepsInv(trace: seq<System>, k: nat)
    requires IsRun(trace) && Start(trace[0]) && NamesApart(trace[0]) && k < |trace|
    ensures Inv(trace[0], trace[k])
  {
    if k == 0 {
      InitialInv(trace[0]);
    } else {
      RunKeepsInv(trace, k - 1);
      assert Steps(trace[k - 1], trace[k]);
      var i, step :| 0 <= i < |trace[k - 1].builders| && Apply(trace[k - 1], i, step) == Some(trace[k]);
      StepKeepsInv(trace[0], trace[k - 1], i, step, trace[k]);
    }
  }

  ghost predicate AlwaysSafe(s0: System) {
    forall trace, k | IsRun(trace) && trace[0] == s0 && 0 <= k < |trace| :: Safe(s0.files, trace[k])
  }

  lemma EmptyOutputIsUnsafe(s0: System, s: System, j: nat)
    requires j < |s.builders| && s.builders[j].out !in s0.files
    requires MapGet(s.files, s.builders[j].out) == Some([])
    requires forall i | 0 <= i < |s.builders| :: s.builders[i].phase != Done
    ensures !Safe(s0.files, s)
  {
    var q := s.builders[j].out;
    assert !Finished(s, q) && MapGet(s0.files, q) == None;
    assert !OutputsAtomic(s0.files, s);
  }

  // ---- Runs, put together step by step ----

  /** `trace` is a run from `s` to `s'`. */
  ghost predicate Leads(trace: seq<System>, s: System, s': System) {
    IsRun(trace) && trace[0] == s && trace[|trace| - 1] == s'
  }

  lemma LeadsOn(trace: seq<System>, s: System, mid: System, i: nat, step: Step, s': System)
    requires Leads(trace, s, mid) && i < |mid.builders| && Apply(mid, i, step) == Some(s')
    ensures Leads(trace + [s'], s, s')
  {
    var longer := trace + [s'];
    forall k | 0 < k < |longer|
      ensures Steps(longer[k - 1], longer[k])
    {
      if k < |trace| {
        assert longer[k - 1] == trace[k - 1] && longer[k] == trace[k];
      } else {
        assert longer[k - 1] == mid && longer[k] == s';
      }
    }
  }

  /** Builder `i` uses up `attempt` attempts on names that are taken. */
  lemma {:induction false} Climb(trace: seq<System>, s0: System, s: System, i: nat, attempt: nat)
    returns (longer: seq<System>)
    requires Leads(trace, s0, s) && i < |s.builders| && s.builders[i].phase == Opening(0)
    requires attempt <= ATTEMPTS && forall a | 0 <= a < attempt :: Taken(s, i, a)
    ensures Leads(longer, s0, Moved(s, i, s.files, Opening(attempt)))
  {
    if attempt == 0 {
      longer := trace;
      assert Moved(s, i, s.files, Opening(0)) == s;
    } else {
      longer := Climb(trace, s0, s, i, attempt - 1);
      var here := Moved(s, i, s.files, Opening(attempt - 1));
      assert Taken(s, i, attempt - 1);
      var nanos: Nanos :| Candidate(s.builders[i], nanos, attempt - 1) in s.files;
      var next := Moved(s, i, s.files, Opening(attempt));
      assert next == Moved(here, i, s.files, Opening(attempt));
      LeadsOn(longer, s0, here, i, Create(nanos), next);
      longer := longer + [next];
    }
  }

  /** From a state where a missing output is the next free candidate of builder
      `i`, its creation shows an empty file where the output should be. */
  lemma ClimbAndClash(trace: seq<System>, s0: System, s: System, i: nat, j: nat, attempt: nat, nanos: Nanos)
    returns (longer: seq<System>)
    requires Leads(trace, s0, s) && i < |s.builders| && j < |s.builders| && s.builders[i].phase == Opening(0)
    requires forall b | 0 <= b < |s.builders| :: s.builders[b].phase != Done
    requires attempt < ATTEMPTS && forall a | 0 <= a < attempt :: Taken(s, i, a)
    requires Candidate(s.builders[i], nanos, attempt) == s.builders[j].out
    requires s.builders[j].out !in s0.files && s.builders[j].out !in s.files
    ensures IsRun(longer) && longer[0] == s0 && !Safe(s0.files, longer[|longer| - 1])
  {
    var q := s.builders[j].out;
    var here := Moved(s, i, s.files, Opening(attempt));
    var end := Moved(here, i, s.files[q := []], Writing(q, 0));
    longer := Climb(trace, s0, s, i, attempt);
    assert Apply(here, i, Create(nanos)) == Some(end);
    LeadsOn(longer, s0, here, i, Create(nanos), end);
    longer := longer + [end];
    EmptyOutputIsUnsafe(s0, end, j);
  }

  /** The name every attempt of a builder can hit. */
  function CommonName(b: Builder): Path {
    ScratchPath(b.out, b.pid, 999)
  }

  lemma CommonNameTakesAll(s: System, i: nat, attempt: nat)
    requires i < |s.builders| && CommonName(s.builders[i]) in s.files && attempt <= 999
    ensures Taken(s, i, attempt)
  {
    assert Candidate(s.builders[i], 999 - attempt, attempt) == CommonName(s.builders[i]);
  }

  /** With a twin, which takes the common name first, any attempt is reachable. */
  lemma TwinClash(s0: System, i: nat, j: nat, attempt: nat, nanos: Nanos) returns (trace: seq<System>)
    requires Start(s0) && i < |s0.builders| && j < |s0.builders| && attempt < ATTEMPTS && Twin(s0, i)
    requires CommonName(s0.builders[i]) !in s0.files && CommonName(s0.builders[i]) != s0.builders[j].out
    requires Candidate(s0.builders[i], nanos, attempt) == s0.builders[j].out && s0.builders[j].out !in s0.files
    ensures IsRun(trace) && trace[0] == s0 && !Safe(s0.files, trace[|trace| - 1])
  {
    var p := CommonName(s0.builders[i]);
    var t :| 0 <= t < |s0.builders| && t != i
      && s0.builders[t].out == s0.builders[i].out && s0.builders[t].pid == s0.builders[i].pid;
    var s := Moved(s0, t, s0.files[p := []], Writing(p, 0));
    assert Candidate(s0.builders[t], 999, 0) == p;
    assert Apply(s0, t, Create(999)) == Some(s);
    LeadsOn([s0], s0, s0, t, Create(999), s);
    forall a | 0 <= a < attempt
      ensures Taken(s, i, a)
    {
      CommonNameTakesAll(s, i, a);
    }
    trace := ClimbAndClash([s0] + [s], s0, s, i, j, attempt, nanos);
  }

  /** If a builder can come to choose the name of a missing output, some run shows
      an empty file there. */
  lemma ClashIsUnsafe(s0: System, i: nat, j: nat, attempt: nat, nanos: Nanos) returns (trace: seq<System>)
    requires Start(s0) && i < |s0.builders| && j < |s0.builders|
    requires attempt < ATTEMPTS && CanReach(s0, i, attempt)
    requires Candidate(s0.builders[i], nanos, attempt) == s0.builders[j].out && s0.builders[j].out !in s0.files
    ensures IsRun(trace) && trace[0] == s0 && !Safe(s0.files, trace[|trace| - 1])
  {
    var p := CommonName(s0.builders[i]);
    if forall a | 0 <= a < attempt :: Taken(s0, i, a) {
      trace := ClimbAndClash([s0], s0, s0, i, j, attempt, nanos);
    } else if p == s0.builders[j].out {
      assert Candidate(s0.builders[i], 999, 0) == p;
      trace := ClimbAndClash([s0], s0, s0, i, j, 0, 999);
    } else {
      if p in s0.files {
        var a: nat :| a < attempt && !Taken(s0, i, a);
        CommonNameTakesAll(s0, i, a);
      }
      trace := TwinClash(s0, i, j, attempt, nanos);
    }
  }

  /** `build` is atomic in every state of every interleaving with every failure
      if and only if no builder could come to pick a missing output as its scratch
      name. */
  lemma BuildsAreAtomicExactly(s0: System)
    requires Start(s0)
    ensures AlwaysSafe(s0) <==> NamesApart(s0)
  {
    if NamesApart(s0) {
      forall trace, k | IsRun(trace) && trace[0] == s0 && 0 <= k < |trace|
        ensures Safe(s0.files, trace[k])
      {
        RunKeepsInv(trace, k);
        InvIsSafe(s0, trace[k]);
      }
    } else {
      var i, j, attempt: nat, nanos: Nanos :| 0 <= i < |s0.builders| && 0 <= j < |s0.builders|
        && attempt < ATTEMPTS && CanReach(s0, i, attempt)
        && Candidate(s0.builders[i], nanos, attempt) == s0.builders[j].out
        && s0.builders[j].out !in s0.files;
      var trace := ClashIsUnsafe(s0, i, j, attempt, nanos);
      assert !Safe(s0.files, trace[|trace| - 1]);
    }
  }

  /** Once every builder has ended and every removal worked, the files are the
      original ones and the finished outputs, nothing else. */
  lemma NothingLeftBehind(trace: seq<System>, k: nat)
    requires IsRun(trace) && Start(trace[0]) && NamesApart(trace[0]) && k < |trace|
    requires forall i | 0 <= i < |trace[k].builders| :: trace[k].builders[i].phase in {Done, Failed(None)}
    ensures forall q :: q in trace[k].files <==> q in trace[0].files || Finished(trace[k], q)
  {
    RunKeepsInv(trace, k);
    var s := trace[k];
    forall q
      ensures q in s.files <==> q in trace[0].files || Finished(s, q)
    {
      assert PathOk(trace[0].files, s, q);
      assert !Held(s, q);
    }
  }

  /** A path a held scratch file lies on is written by no other builder: whoever
      else steps, the file keeps its bytes. */
  lemma ScratchIsPrivate(s0: System, s: System, i: nat, step: Step, s': System, j: nat, p: Path)
    requires NamesApart(s0) && Inv(s0, s) && i < |s.builders| && Apply(s, i, step) == Some(s')
    requires j < |s.builders| && j != i && Holds(s, j, p)
    ensures p in s.files && p in s'.files && s'.files[p] == s.files[p] && Holds(s', j, p)
  {
    OwnScratch(s0, s, j, p);
    HeldIsNoOutput(s0, s, j, p, i);
    assert !Holds(s, i, p);
  }

  predicate EndsInTmp(name: string) {
    |name| >= 4 && name[|name| - 4..] == ".tmp"
  }

  /** A check that is enough: no output is itself called something `.tmp`. */
  lemma PlainOutputsAreApart(s: System)
    requires forall j | 0 <= j < |s.builders| :: !EndsInTmp(s.builders[j].out.name)
    ensures NamesApart(s)
  {
    forall i, attempt: nat, nanos: Nanos | 0 <= i < |s.builders|
      ensures EndsInTmp(Candidate(s.builders[i], nanos, attempt).name)
    {
      var b := s.builders[i];
      var stem := "." + b.out.name + "." + Decimal(b.pid) + "." + Decimal((nanos + attempt) % 0x1_0000_0000);
      assert (stem + ".tmp")[|stem|..] == ".tmp";
    }
  }
}
