/**
 * Applying a staged restore: the bundle's files are put in place one atomic
 * rename at a time, the marker is removed last, and a restart begins again.
 */
module Restore {
  import opened Documents

  type Bytes = seq<bv8>

  /** A cleaned path relative to the data root. */
  datatype Path = Path(dir: string, base: string)

  /** Where a bundled name leads once cleaned: the root itself or outside it, or a file inside. */
  datatype Location = Outside | Inside(path: Path)

  /** A bundled file; its data is None when the encoding is broken. */
  datatype File = File(location: Location, checksum: string, length: int, data: Option<Bytes>)

  datatype Bundle = Bundle(schemaVersion: int, description: string, files: seq<File>, manifestHash: string)

  type Disk = map<Path, Bytes>

  const SCHEMA_VERSION := 1
  const DATABASE := Path("database", "controller.db")
  const WAL := Path("database", "controller.db-wal")
  const SHM := Path("database", "controller.db-shm")
  const MARKER := Path("backups", "restore-pending.json")

  function PreRestore(stamp: string): Path {
    Path("database", "controller.db.pre-restore-" + stamp)
  }

  predicate IsPreRestore(p: Path) {
    p.dir == "database" && "controller.db.pre-restore-" <= p.base
  }

  predicate IsTemporary(p: Path) {
    ".restore-" <= p.base
  }

  lemma PreRestoreInjective(a: string, b: string)
    ensures IsPreRestore(PreRestore(a))
    ensures PreRestore(a) == PreRestore(b) ==> a == b
  {
    var front := "controller.db.pre-restore-";
    if PreRestore(a) == PreRestore(b) {
      assert a == (front + a)[|front|..] && b == (front + b)[|front|..];
    }
  }

  lemma NamesApart(p: Path)
    ensures IsTemporary(p) ==> p != DATABASE && p != WAL && p != SHM && p != MARKER && !IsPreRestore(p)
    ensures IsPreRestore(p) ==> p != DATABASE && p != WAL && p != SHM && p != MARKER
  {
    if IsTemporary(p) { assert p.base[0] == '.'; }
    if IsPreRestore(p) { assert p.base[13] == '.'; }
  }

  // --------------------------------------------------------------- validation

  /** The digests the bundle is checked with. */
  datatype Digests = Digests(manifest: Bundle -> string, content: Bytes -> string)

  datatype Report = Report(compatible: bool, files: nat, bytes: int)

  function Stripped(files: seq<File>): (r: seq<File>)
    ensures |r| == |files|
  {
    seq(|files|, i requires 0 <= i < |files| => files[i].(data := Some([])))
  }

  predicate FileIntact(digests: Digests, file: File) {
    file.data.Some? && |file.data.value| == file.length && digests.content(file.data.value) == file.checksum
  }

  predicate Intact(digests: Digests, bundle: Bundle) {
    && digests.manifest(bundle.(files := Stripped(bundle.files), manifestHash := "")) == bundle.manifestHash
    && forall i :: 0 <= i < |bundle.files| ==> FileIntact(digests, bundle.files[i])
  }

  function TotalBytes(files: seq<File>, n: nat): int
    requires n <= |files|
  {
    if n == 0 then 0 else TotalBytes(files, n - 1) + files[n - 1].length
  }

  method ValidateBundle(digests: Digests, bundle: Bundle) returns (r: Result<Report>)
    ensures r.Success? <==> Intact(digests, bundle)
    ensures r.Success? ==>
      (r.value ==
        Report(bundle.schemaVersion == 1, |bundle.files|, TotalBytes(bundle.files, |bundle.files|)))
  {
    if digests.manifest(bundle.(files := Stripped(bundle.files), manifestHash := "")) != bundle.manifestHash {
      return Failure;
    }
    var total := 0;
    for i := 0 to |bundle.files|
      invariant total == TotalBytes(bundle.files, i)
      invariant forall j :: 0 <= j < i ==> FileIntact(digests, bundle.files[j])
    {
      if !FileIntact(digests, bundle.files[i]) {
        return Failure;
      }
      total := total + bundle.files[i].length;
    }
    return Success(Report(bundle.schemaVersion == SCHEMA_VERSION, |bundle.files|, total));
  }

  // ------------------------------------------------------- the disk operations

  /**
   * Operations that are done wholly or not at all.  Opening a temporary file
   * leaves some part of its payload in it; filling it completes the payload.
   */
  datatype Op =
    | SetAside(stamp: string)
    | Drop(path: Path)
    | Open(temp: Path, partial: Bytes)
    | Fill(temp: Path, payload: Bytes)
    | Install(temp: Path, target: Path)

  function Done(disk: Disk, op: Op): Disk {
    match op
    case SetAside(stamp) =>
      if DATABASE in disk then (disk - {DATABASE})[PreRestore(stamp) := disk[DATABASE]] else disk
    case Drop(path) => disk - {path}
    case Open(temp, partial) => disk[temp := partial]
    case Fill(temp, payload) => disk[temp := payload]
    case Install(temp, target) => if temp in disk then (disk - {temp})[target := disk[temp]] else disk
  }

  function Played(disk: Disk, ops: seq<Op>): Disk {
    if ops == [] then disk else Done(Played(disk, ops[..|ops| - 1]), ops[|ops| - 1])
  }

  lemma {:induction false} PlayedTwice(disk: Disk, a: seq<Op>, b: seq<Op>)
    ensures Played(disk, a + b) == Played(Played(disk, a), b)
  {
    if b == [] {
      assert a + b == a;
    } else {
      var n := |b| - 1;
      PlayedTwice(disk, a, b[..n]);
      assert (a + b)[..|a + b| - 1] == a + b[..n];
    }
  }

  /** The disk when the machine stops after so many operations. */
  function Stopped(disk: Disk, ops: seq<Op>, steps: nat): Disk {
    Played(disk, ops[..if steps < |ops| then steps else |ops|])
  }

  /**
   * What an attempt does not choose: the clock and the temporary name for each
   * file, and how much of it was written.
   */
  datatype Choice = Choice(stamp: string, temp: Path, partial: Bytes)

  type Choices = nat -> Choice

  function FileOps(target: Path, data: Bytes, choice: Choice): seq<Op> {
    (if target == DATABASE then [SetAside(choice.stamp), Drop(WAL), Drop(SHM)] else [])
    + [Open(choice.temp, choice.partial), Fill(choice.temp, data), Install(choice.temp, target)]
  }

  /** The operations for the first n files. */
  function FilesOps(files: seq<File>, choices: Choices, n: nat): seq<Op>
    requires n <= |files| && forall i :: 0 <= i < n ==> files[i].location.Inside? && files[i].data.Some?
  {
    if n == 0 then [] else
      FilesOps(files, choices, n - 1) + FileOps(files[n - 1].location.path, files[n - 1].data.value, choices(n - 1))
  }

  /** The number of files before the first that leads outside the root. */
  function Safe(files: seq<File>): (n: nat)
    ensures n <= |files| && forall i :: 0 <= i < n ==> files[i].location.Inside?
    ensures n < |files| ==> files[n].location.Outside?
  {
    if files == [] || files[0].location.Outside? then 0 else 1 + Safe(files[1..])
  }

  /** Everything an attempt would do to the disk if nothing stopped it. */
  function Program(files: seq<File>, choices: Choices): seq<Op>
    requires forall i :: 0 <= i < |files| ==> files[i].data.Some?
  {
    FilesOps(files, choices, Safe(files)) + if Safe(files) == |files| then [Drop(MARKER)] else []
  }

  // ------------------------------------------------------ attempts and crashes

  datatype Reader = Reader(parse: Bytes -> Result<Bundle>, digests: Digests)

  const MAX_BUNDLE_BYTES: nat := 268435456

  /** The files of the staged bundle, when there is one an attempt gets to apply. */
  function Staged(disk: Disk, reader: Reader): (r: Option<seq<File>>)
    ensures r.Some? ==> forall i :: 0 <= i < |r.value| ==> r.value[i].data.Some?
  {
    if MARKER !in disk || |disk[MARKER]| > MAX_BUNDLE_BYTES then None
    else
      match reader.parse(disk[MARKER])
      case Failure => None
      case Success(bundle) => if Intact(reader.digests, bundle) then Some(bundle.files) else None
  }

  /** An attempt that is stopped, by a crash or a failing call, after some of its operations. */
  datatype Attempt = Attempt(choices: Choices, steps: nat)

  function Attempted(disk: Disk, reader: Reader, attempt: Attempt): Disk {
    match Staged(disk, reader)
    case None => disk
    case Some(files) =>
      Stopped(disk, Program(files, attempt.choices), attempt.steps)
  }

  /** The attempt gets to the end: every file leads inside the root and nothing stops it. */
  predicate Completes(files: seq<File>, attempt: Attempt)
    requires forall i :: 0 <= i < |files| ==> files[i].data.Some?
  {
    Safe(files) == |files| && attempt.steps >= |Program(files, attempt.choices)|
  }

  function After(disk: Disk, reader: Reader, attempts: seq<Attempt>): Disk {
    if attempts == [] then disk
    else Attempted(After(disk, reader, attempts[..|attempts| - 1]), reader, attempts[|attempts| - 1])
  }

  /** The bundle restores neither the marker nor a database set aside earlier. */
  predicate Proper(files: seq<File>) {
    forall i :: 0 <= i < |files| && files[i].location.Inside? ==>
      files[i].location.path != MARKER && !IsPreRestore(files[i].location.path)
  }

  ghost predicate Temporary(choices: Choices) {
    forall i: nat :: IsTemporary(choices(i).temp)
  }

  // ------------------------------------------------------------- the marker

  predicate SparesMarker(op: Op) {
    match op
    case SetAside(_) => true
    case Drop(path) => path != MARKER
    case Open(temp, _) => temp != MARKER
    case Fill(temp, _) => temp != MARKER
    case Install(temp, target) => temp != MARKER && target != MARKER
  }

  lemma {:induction false} MarkerSpared(disk: Disk, ops: seq<Op>)
    requires MARKER in disk && forall i :: 0 <= i < |ops| ==> SparesMarker(ops[i])
    ensures MARKER in Played(disk, ops) && Played(disk, ops)[MARKER] == disk[MARKER]
  {
    if ops != [] {
      var n := |ops| - 1;
      MarkerSpared(disk, ops[..n]);
      if ops[n].SetAside? {
        PreRestoreInjective(ops[n].stamp, ops[n].stamp);
        NamesApart(PreRestore(ops[n].stamp));
      }
    }
  }

  lemma {:induction false} FilesSpareMarker(files: seq<File>, choices: Choices, n: nat)
    requires n <= |files| && forall i :: 0 <= i < n ==> files[i].location.Inside? && files[i].data.Some?
    requires Proper(files) && Temporary(choices)
    ensures forall i :: 0 <= i < |FilesOps(files, choices, n)| ==> SparesMarker(FilesOps(files, choices, n)[i])
  {
    if n > 0 {
      FilesSpareMarker(files, choices, n - 1);
      NamesApart(choices(n - 1).temp);
      assert files[n - 1].location.path != MARKER;
    }
  }

  /** The marker goes with the attempt that completes, and only then. */
  lemma {:induction false} AttemptAndMarker(disk: Disk, reader: Reader, files: seq<File>, attempt: Attempt)
    requires Staged(disk, reader) == Some(files) && Proper(files) && Temporary(attempt.choices)
    ensures var after := Attempted(disk, reader, attempt);
      if Completes(files, attempt) then MARKER !in after
      else MARKER in after && after[MARKER] == disk[MARKER]
  {
    var puts, program := FilesOps(files, attempt.choices, Safe(files)), Program(files, attempt.choices);
    FilesSpareMarker(files, attempt.choices, Safe(files));
    if Completes(files, attempt) {
      assert program[..|program|] == program == puts + [Drop(MARKER)];
      PlayedTwice(disk, puts, [Drop(MARKER)]);
      assert Played(Played(disk, puts), [Drop(MARKER)]) == Done(Played(disk, puts), Drop(MARKER)) by {
        assert [Drop(MARKER)][..0] == [];
      }
    } else {
      var done := program[..if attempt.steps < |program| then attempt.steps else |program|];
      assert done <= puts;
      MarkerSpared(disk, done);
    }
  }

  predicate SomeCompletes(files: seq<File>, attempts: seq<Attempt>): (r: bool)
    requires forall i :: 0 <= i < |files| ==> files[i].data.Some?
    ensures r ==> Safe(files) == |files|
  {
    attempts != [] &&
    (SomeCompletes(files, attempts[..|attempts| - 1]) || Completes(files, attempts[|attempts| - 1]))
  }

  /** Until an attempt completes the marker stays as it was; once one has, it is gone. */
  lemma {:induction false} MarkerTellsCompletion(disk: Disk, reader: Reader, files: seq<File>, attempts: seq<Attempt>)
    requires Staged(disk, reader) == Some(files) && Proper(files)
    requires forall i :: 0 <= i < |attempts| ==> Temporary(attempts[i].choices)
    ensures var after := After(disk, reader, attempts);
      && (SomeCompletes(files, attempts) <==> MARKER !in after)
      && (MARKER in after ==> after[MARKER] == disk[MARKER] && Staged(after, reader) == Some(files))
  {
    if attempts != [] {
      var n := |attempts| - 1;
      var rest := attempts[..n];
      MarkerTellsCompletion(disk, reader, files, rest);
      if MARKER in After(disk, reader, rest) {
        AttemptAndMarker(After(disk, reader, rest), reader, files, attempts[n]);
      }
    }
  }

  // ---------------------------------------------------------- what is restored

  datatype Fate = Untouched | Removed | Holds(data: Bytes)

  /** What the first n files of the bundle say about a path; the last word counts. */
  function FateOf(files: seq<File>, n: nat, p: Path): Fate
    requires n <= |files| && forall i :: 0 <= i < n ==> files[i].location.Inside? && files[i].data.Some?
  {
    if n == 0 then Untouched
    else if p == files[n - 1].location.path then Holds(files[n - 1].data.value)
    else if files[n - 1].location.path == DATABASE && (p == WAL || p == SHM) then Removed
    else FateOf(files, n - 1, p)
  }

  /** The path's content in the later disk is what its fate makes of the earlier one. */
  predicate Fated(before: Disk, after: Disk, p: Path, fate: Fate) {
    match fate
    case Untouched => (p in after <==> p in before) && (p in after ==> after[p] == before[p])
    case Removed => p !in after
    case Holds(data) => p in after && after[p] == data
  }

  lemma PlayedThree(disk: Disk, a: Op, b: Op, c: Op)
    ensures Played(disk, [a, b, c]) == Done(Done(Done(disk, a), b), c)
  {
    assert [a, b, c][..2] == [a, b] && [a, b][..1] == [a] && [a][..0] == [];
    assert Played(disk, [a]) == Done(disk, a);
    assert Played(disk, [a, b]) == Done(Done(disk, a), b);
  }

  lemma InstallEffect(disk: Disk, target: Path, data: Bytes, choice: Choice, p: Path)
    requires choice.temp !in disk
    ensures var ops := [Open(choice.temp, choice.partial), Fill(choice.temp, data), Install(choice.temp, target)];
      var after := Played(disk, ops);
      Fated(disk, after, p, if p == target then Holds(data) else Untouched)
  {
    PlayedThree(disk, Open(choice.temp, choice.partial), Fill(choice.temp, data), Install(choice.temp, target));
  }

  lemma AsideEffect(disk: Disk, stamp: string, p: Path)
    requires !IsPreRestore(p)
    ensures var after := Played(disk, [SetAside(stamp), Drop(WAL), Drop(SHM)]);
      Fated(disk, after, p, if p == WAL || p == SHM || p == DATABASE then Removed else Untouched)
  {
    PreRestoreInjective(stamp, stamp);
    NamesApart(PreRestore(stamp));
    PlayedThree(disk, SetAside(stamp), Drop(WAL), Drop(SHM));
  }

  lemma FileEffect(disk: Disk, target: Path, data: Bytes, choice: Choice, p: Path)
    requires IsTemporary(choice.temp) && choice.temp !in disk && !IsPreRestore(p)
    ensures var after := Played(disk, FileOps(target, data, choice));
      Fated(disk, after, p, FateAt(target, data, p))
  {
    var install := [Open(choice.temp, choice.partial), Fill(choice.temp, data), Install(choice.temp, target)];
    if target == DATABASE {
      var aside := [SetAside(choice.stamp), Drop(WAL), Drop(SHM)];
      PlayedTwice(disk, aside, install);
      AsideEffect(disk, choice.stamp, p);
      NamesApart(choice.temp);
      AsideEffect(disk, choice.stamp, choice.temp);
      InstallEffect(Played(disk, aside), target, data, choice, p);
    } else {
      assert FileOps(target, data, choice) == install;
      InstallEffect(disk, target, data, choice, p);
    }
  }

  /** The disk after the first n files have been put in place. */
  function Restored(disk: Disk, files: seq<File>, choices: Choices, n: nat): Disk
    requires n <= |files| && forall i :: 0 <= i < n ==> files[i].location.Inside? && files[i].data.Some?
  {
    if n == 0 then disk else
      Played(Restored(disk, files, choices, n - 1),
             FileOps(files[n - 1].location.path, files[n - 1].data.value, choices(n - 1)))
  }

  lemma {:induction false} RestoredIsPlayed(disk: Disk, files: seq<File>, choices: Choices, n: nat)
    requires n <= |files| && forall i :: 0 <= i < n ==> files[i].location.Inside? && files[i].data.Some?
    ensures Played(disk, FilesOps(files, choices, n)) == Restored(disk, files, choices, n)
  {
    if n > 0 {
      RestoredIsPlayed(disk, files, choices, n - 1);
      PlayedTwice(disk, FilesOps(files, choices, n - 1),
                  FileOps(files[n - 1].location.path, files[n - 1].data.value, choices(n - 1)));
    }
  }

  /** The temporary names of the attempt are free when it gets to them. */
  predicate Fresh(disk: Disk, files: seq<File>, choices: Choices, n: nat)
    requires n <= |files| && forall i :: 0 <= i < n ==> files[i].location.Inside? && files[i].data.Some?
  {
    n == 0 ||
    (Fresh(disk, files, choices, n - 1) && IsTemporary(choices(n - 1).temp) &&
     choices(n - 1).temp !in Restored(disk, files, choices, n - 1))
  }

  lemma FatedTwice(a: Disk, b: Disk, c: Disk, p: Path, first: Fate, second: Fate)
    ensures Fated(a, b, p, first) && Fated(b, c, p, second) ==>
            Fated(a, c, p, if second == Untouched then first else second)
  {
  }

  predicate SameAt(a: Disk, b: Disk, p: Path) {
    (p in a <==> p in b) && (p in a ==> a[p] == b[p])
  }

  lemma SameFate(disk: Disk, a: Disk, b: Disk, p: Path, fate: Fate)
    ensures Fated(disk, a, p, fate) && Fated(disk, b, p, fate) ==> SameAt(a, b, p)
  {
  }

  function FateAt(target: Path, data: Bytes, p: Path): Fate {
    if p == target then Holds(data) else if target == DATABASE && (p == WAL || p == SHM) then Removed else Untouched
  }

  lemma {:induction false} FilesEffect(disk: Disk, files: seq<File>, choices: Choices, n: nat, p: Path)
    requires n <= |files| && forall i :: 0 <= i < n ==> files[i].location.Inside? && files[i].data.Some?
    requires Fresh(disk, files, choices, n) && !IsPreRestore(p)
    ensures Fated(disk, Restored(disk, files, choices, n), p, FateOf(files, n, p))
  {
    if n > 0 {
      var target, data := files[n - 1].location.path, files[n - 1].data.value;
      var before, after := Restored(disk, files, choices, n - 1), Restored(disk, files, choices, n);
      FilesEffect(disk, files, choices, n - 1, p);
      FileEffect(before, target, data, choices(n - 1), p);
      FatedTwice(disk, before, after, p, FateOf(files, n - 1, p), FateAt(target, data, p));
    }
  }

  /** A completed attempt gives every path the fate the bundle has for it, whatever the disk held. */
  lemma {:induction false} CompletionEffect(disk: Disk, reader: Reader, files: seq<File>, attempt: Attempt, p: Path)
    requires Staged(disk, reader) == Some(files) && Completes(files, attempt)
    requires Fresh(disk, files, attempt.choices, |files|) && !IsPreRestore(p) && p != MARKER
    ensures Fated(disk, Attempted(disk, reader, attempt), p, FateOf(files, |files|, p))
  {
    var puts, program := FilesOps(files, attempt.choices, |files|), Program(files, attempt.choices);
    assert program[..|program|] == program == puts + [Drop(MARKER)];
    PlayedTwice(disk, puts, [Drop(MARKER)]);
    assert Played(Played(disk, puts), [Drop(MARKER)]) == Done(Played(disk, puts), Drop(MARKER)) by {
      assert [Drop(MARKER)][..0] == [];
    }
    FilesEffect(disk, files, attempt.choices, |files|, p);
    RestoredIsPlayed(disk, files, attempt.choices, |files|);
  }

  // -------------------------------------------------- interrupted attempts

  predicate Spares(op: Op, p: Path) {
    match op
    case SetAside(_) => p != DATABASE && !IsPreRestore(p)
    case Drop(path) => p != path
    case Open(temp, _) => p != temp
    case Fill(temp, _) => p != temp
    case Install(temp, target) => p != temp && p != target
  }

  lemma {:induction false} PathSpared(disk: Disk, ops: seq<Op>, p: Path)
    requires forall i :: 0 <= i < |ops| ==> Spares(ops[i], p)
    ensures Fated(disk, Played(disk, ops), p, Untouched)
  {
    if ops != [] {
      var n := |ops| - 1;
      PathSpared(disk, ops[..n], p);
      if ops[n].SetAside? { PreRestoreInjective(ops[n].stamp, ops[n].stamp); }
    }
  }

  lemma {:induction false} FilesSpare(files: seq<File>, choices: Choices, n: nat, p: Path)
    requires n <= |files| && forall i :: 0 <= i < n ==> files[i].location.Inside? && files[i].data.Some?
    requires Temporary(choices) && !IsPreRestore(p) && !IsTemporary(p)
    requires FateOf(files, n, p) == Untouched
    ensures forall i :: 0 <= i < |FilesOps(files, choices, n)| ==> Spares(FilesOps(files, choices, n)[i], p)
  {
    if n > 0 {
      FilesSpare(files, choices, n - 1, p);
      assert IsTemporary(choices(n - 1).temp);
    }
  }

  lemma {:induction false} AttemptSpares(disk: Disk, reader: Reader, files: seq<File>, a: Attempt, p: Path)
    requires Staged(disk, reader) == Some(files) && Temporary(a.choices)
    requires !IsPreRestore(p) && !IsTemporary(p) && p != MARKER
    requires FateOf(files, Safe(files), p) == Untouched
    ensures Fated(disk, Attempted(disk, reader, a), p, Untouched)
  {
    var program := Program(files, a.choices);
    FilesSpare(files, a.choices, Safe(files), p);
    var done := program[..if a.steps < |program| then a.steps else |program|];
    assert forall i :: 0 <= i < |done| ==> Spares(done[i], p);
    PathSpared(disk, done, p);
  }

  /** No attempt, stopped or not, changes a path that is neither bundled nor a restore's own. */
  lemma {:induction false} OthersUntouched(
    disk: Disk, reader: Reader, files: seq<File>, attempts: seq<Attempt>, p: Path)
    requires Staged(disk, reader) == Some(files) && Proper(files)
    requires forall i :: 0 <= i < |attempts| ==> Temporary(attempts[i].choices)
    requires !IsPreRestore(p) && !IsTemporary(p) && p != MARKER
    requires FateOf(files, Safe(files), p) == Untouched
    ensures Fated(disk, After(disk, reader, attempts), p, Untouched)
  {
    if attempts != [] {
      var n := |attempts| - 1;
      var before, a := After(disk, reader, attempts[..n]), attempts[n];
      OthersUntouched(disk, reader, files, attempts[..n], p);
      MarkerTellsCompletion(disk, reader, files, attempts[..n]);
      if MARKER in before {
        AttemptSpares(before, reader, files, a, p);
        FatedTwice(disk, before, Attempted(before, reader, a), p, Untouched, Untouched);
      }
    }
  }

  /** The attempt that completes finds its temporary names free. */
  predicate CompletionFresh(disk: Disk, reader: Reader, files: seq<File>, attempts: seq<Attempt>)
    requires forall i :: 0 <= i < |files| ==> files[i].data.Some?
  {
    attempts == [] ||
    (var last, rest := attempts[|attempts| - 1], attempts[..|attempts| - 1];
     && CompletionFresh(disk, reader, files, rest)
     && (Completes(files, last) && MARKER in After(disk, reader, rest) ==>
           Fresh(After(disk, reader, rest), files, last.choices, |files|)))
  }

  /**
   * Once some attempt has completed, every path has the fate the bundle has for it,
   * however often earlier ones were stopped.
   */
  lemma {:induction false} RestoreIsRedone(
    disk: Disk, reader: Reader, files: seq<File>, attempts: seq<Attempt>, p: Path)
    requires Staged(disk, reader) == Some(files) && Proper(files)
    requires forall i :: 0 <= i < |attempts| ==> Temporary(attempts[i].choices)
    requires CompletionFresh(disk, reader, files, attempts)
    requires SomeCompletes(files, attempts)
    requires !IsPreRestore(p) && p != MARKER && (IsTemporary(p) ==> FateOf(files, |files|, p) != Untouched)
    ensures Fated(disk, After(disk, reader, attempts), p, FateOf(files, |files|, p))
  {
    var n := |attempts| - 1;
    var rest := attempts[..n];
    MarkerTellsCompletion(disk, reader, files, rest);
    if MARKER !in After(disk, reader, rest) {
      RestoreIsRedone(disk, reader, files, rest, p);
    } else {
      CompletionEffect(After(disk, reader, rest), reader, files, attempts[n], p);
      if FateOf(files, |files|, p) == Untouched {
        OthersUntouched(disk, reader, files, rest, p);
      }
    }
  }

  /** A run with crashes that completes leaves what one uninterrupted attempt leaves. */
  lemma {:induction false} CrashesDoNotShow(
    disk: Disk, reader: Reader, files: seq<File>, attempts: seq<Attempt>, single: Attempt, p: Path)
    requires Staged(disk, reader) == Some(files) && Proper(files)
    requires forall i :: 0 <= i < |attempts| ==> Temporary(attempts[i].choices)
    requires CompletionFresh(disk, reader, files, attempts) && SomeCompletes(files, attempts)
    requires Completes(files, single) && Fresh(disk, files, single.choices, |files|)
    requires !IsPreRestore(p) && p != MARKER && (IsTemporary(p) ==> FateOf(files, |files|, p) != Untouched)
    ensures SameAt(After(disk, reader, attempts), Attempted(disk, reader, single), p)
  {
    var fate := FateOf(files, |files|, p);
    var crashed, once := After(disk, reader, attempts), Attempted(disk, reader, single);
    SameFate(disk, crashed, once, p, fate);
    RestoreIsRedone(disk, reader, files, attempts, p);
    CompletionEffect(disk, reader, files, single, p);
  }

  // --------------------------------------------------------------- the methods

  function Left(steps: nat, used: nat): nat {
    if steps < used then 0 else steps - used
  }

  lemma {:induction false} StoppedTwice(disk: Disk, a: seq<Op>, b: seq<Op>, steps: nat)
    ensures Stopped(disk, a + b, steps) == Stopped(Stopped(disk, a, steps), b, Left(steps, |a|))
  {
    if steps <= |a| {
      assert (a + b)[..steps] == a[..steps];
      assert b[..0] == [];
    } else {
      var k := if steps < |a + b| then steps - |a| else |b|;
      assert (a + b)[..|a| + k] == a + b[..k] && a[..|a|] == a;
      PlayedTwice(disk, a, b[..k]);
    }
  }

  lemma StoppedOnce(disk: Disk, op: Op, steps: nat)
    ensures Stopped(disk, [op], steps) == if steps == 0 then disk else Done(disk, op)
  {
    assert [op][..0] == [] && [op][..1] == [op];
    assert Played(disk, [op]) == Done(Played(disk, []), op);
  }

  /** The data volume of a machine that stops after a number of operations. */
  class Volume {
    var files: Disk
    var steps: nat

    constructor (disk: Disk, budget: nat)
      ensures files == disk && steps == budget
    {
      files := disk;
      steps := budget;
    }

    method Perform(op: Op) returns (ok: bool)
      modifies this
      ensures files == Stopped(old(files), [op], old(steps)) && steps == Left(old(steps), 1)
      ensures ok <==> old(steps) > 0
    {
      StoppedOnce(files, op, steps);
      if steps == 0 {
        return false;
      }
      files := Done(files, op);
      steps := steps - 1;
      return true;
    }

    method WriteAtomic(target: Path, payload: Bytes, choice: Choice) returns (ok: bool)
      modifies this
      ensures var ops := [Open(choice.temp, choice.partial), Fill(choice.temp, payload), Install(choice.temp, target)];
        files == Stopped(old(files), ops, old(steps)) && steps == Left(old(steps), 3)
      ensures ok <==> old(steps) >= 3
    {
      var open, fill := Open(choice.temp, choice.partial), Fill(choice.temp, payload);
      var install := Install(choice.temp, target);
      StoppedTwice(files, [open], [fill, install], steps);
      assert [open] + [fill, install] == [open, fill, install];
      StoppedTwice(Stopped(files, [open], steps), [fill], [install], Left(steps, 1));
      assert [fill] + [install] == [fill, install];
      ok := Perform(open);
      if !ok {
        StoppedAtZero(files, [fill, install]);
        return false;
      }
      ok := Perform(fill);
      if !ok {
        StoppedAtZero(files, [install]);
        return false;
      }
      ok := Perform(install);
    }

    /** Puts one file in place, setting a database already there aside first. */
    method PutFile(target: Path, data: Bytes, choice: Choice) returns (ok: bool)
      modifies this
      ensures files == Stopped(old(files), FileOps(target, data, choice), old(steps))
      ensures steps == Left(old(steps), |FileOps(target, data, choice)|)
      ensures ok <==> old(steps) >= |FileOps(target, data, choice)|
    {
      var install := [Open(choice.temp, choice.partial), Fill(choice.temp, data), Install(choice.temp, target)];
      if target == DATABASE {
        var aside, wal, shm := SetAside(choice.stamp), Drop(WAL), Drop(SHM);
        assert FileOps(target, data, choice) == [aside] + ([wal] + ([shm] + install));
        StoppedTwice(files, [aside], [wal] + ([shm] + install), steps);
        ok := Perform(aside);
        if !ok {
          StoppedAtZero(files, [wal] + ([shm] + install));
          return false;
        }
        StoppedTwice(files, [wal], [shm] + install, steps);
        var _ := Perform(wal);
        StoppedTwice(files, [shm], install, steps);
        var _ := Perform(shm);
      } else {
        assert FileOps(target, data, choice) == install;
      }
      ok := WriteAtomic(target, data, choice);
    }

    /** One start of the program: what it does to the disk before it finishes or is stopped. */
    method ApplyPending(reader: Reader, choices: Choices) returns (r: Result<bool>)
      modifies this
      ensures files == Attempted(old(files), reader, Attempt(choices, old(steps)))
      ensures r == Success(false) <==> MARKER !in old(files)
      ensures r == Success(true) <==>
        Staged(old(files), reader).Some? &&
        Completes(Staged(old(files), reader).value, Attempt(choices, old(steps)))
    {
      if MARKER !in files {
        return Success(false);
      }
      if |files[MARKER]| > MAX_BUNDLE_BYTES {
        return Failure;
      }
      var parsed := reader.parse(files[MARKER]);
      if parsed.Failure? {
        return Failure;
      }
      var report := ValidateBundle(reader.digests, parsed.value);
      if report.Failure? {
        return Failure;
      }
      var bundled := parsed.value.files;
      var done := PutFiles(bundled, choices);
      if !done {
        return Failure;
      }
      return Success(true);
    }

    /** Puts the bundled files in place one after the other and removes the marker. */
    method PutFiles(bundled: seq<File>, choices: Choices) returns (done: bool)
      requires forall i :: 0 <= i < |bundled| ==> bundled[i].data.Some?
      modifies this
      ensures files == Stopped(old(files), Program(bundled, choices), old(steps))
      ensures done <==> Completes(bundled, Attempt(choices, old(steps)))
    {
      ghost var before, budget := files, steps;
      for i := 0 to |bundled|
        invariant i <= Safe(bundled)
        invariant files == Stopped(before, FilesOps(bundled, choices, i), budget)
        invariant |FilesOps(bundled, choices, i)| <= budget && steps == budget - |FilesOps(bundled, choices, i)|
      {
        SafeIsFirst(bundled, i);
        if bundled[i].location.Outside? {
          assert Safe(bundled) == i && Program(bundled, choices) == FilesOps(bundled, choices, i);
          return false;
        }
        NextFile(before, bundled, choices, i, budget);
        var ok := PutFile(bundled[i].location.path, bundled[i].data.value, choices(i));
        if !ok {
          return false;
        }
      }
      StoppedTwice(before, FilesOps(bundled, choices, |bundled|), [Drop(MARKER)], budget);
      done := Perform(Drop(MARKER));
    }
  }

  lemma StoppedAtZero(disk: Disk, ops: seq<Op>)
    ensures Stopped(disk, ops, 0) == disk
  {
  }

  lemma {:induction false} SafeIsFirst(files: seq<File>, i: nat)
    requires i < |files| && i <= Safe(files)
    ensures files[i].location.Inside? <==> i < Safe(files)
  {
  }

  lemma {:induction false} FilesOpsGrow(files: seq<File>, choices: Choices, n: nat, m: nat)
    requires n <= m <= |files| && forall i :: 0 <= i < m ==> files[i].location.Inside? && files[i].data.Some?
    ensures FilesOps(files, choices, n) <= FilesOps(files, choices, m)
    decreases m
  {
    if n < m { FilesOpsGrow(files, choices, n, m - 1); }
  }

  /** One more file is put in place, or the machine stops and the whole program stops there. */
  lemma {:induction false} NextFile(disk: Disk, files: seq<File>, choices: Choices, i: nat, budget: nat)
    requires i < Safe(files) && forall k :: 0 <= k < |files| ==> files[k].data.Some?
    requires |FilesOps(files, choices, i)| <= budget
    ensures var before, more := FilesOps(files, choices, i), FilesOps(files, choices, i + 1);
      var ops := FileOps(files[i].location.path, files[i].data.value, choices(i));
      && more == before + ops
      && Stopped(disk, more, budget) == Stopped(Stopped(disk, before, budget), ops, budget - |before|)
      && (budget - |before| < |ops| ==>
            budget < |Program(files, choices)| &&
              Stopped(disk, Program(files, choices), budget) == Stopped(disk, more, budget))
  {
    var before, ops := FilesOps(files, choices, i), FileOps(files[i].location.path, files[i].data.value, choices(i));
    StoppedTwice(disk, before, ops, budget);
    if budget - |before| < |ops| { StoppedEarly(disk, files, choices, i + 1, budget); }
  }

  /** A machine stopped among the first files is stopped there in the whole program. */
  lemma {:induction false} StoppedEarly(disk: Disk, files: seq<File>, choices: Choices, n: nat, steps: nat)
    requires n <= Safe(files) && forall i :: 0 <= i < |files| ==> files[i].data.Some?
    requires steps < |FilesOps(files, choices, n)|
    ensures Stopped(disk, Program(files, choices), steps) == Stopped(disk, FilesOps(files, choices, n), steps)
    ensures steps < |Program(files, choices)|
  {
    FilesOpsGrow(files, choices, n, Safe(files));
    var program, ops := Program(files, choices), FilesOps(files, choices, n);
    assert ops <= program;
    assert program[..steps] == ops[..steps];
  }
}
