/**
 * What a bundle's checksums fix and what a restore leaves, said of the bundled
 * files and the places they go to.
 */
module RestoreRules {
  import opened Documents
  import opened Restore

  // --------------------------------------------------------------- checksums

  /** No two inputs have one digest. */
  ghost predicate Injective(digests: Digests) {
    && (forall a, b :: digests.manifest(a) == digests.manifest(b) ==> a == b)
    && (forall a, b :: digests.content(a) == digests.content(b) ==> a == b)
  }

  /** Everything of a file but its data. */
  predicate SameEntry(a: File, b: File) {
    a.location == b.location && a.checksum == b.checksum && a.length == b.length
  }

  predicate SameEntries(a: seq<File>, b: seq<File>) {
    |a| == |b| && forall i :: 0 <= i < |a| ==> SameEntry(a[i], b[i])
  }

  lemma SameStripped(a: seq<File>, b: seq<File>)
    ensures Stripped(a) == Stripped(b) <==> SameEntries(a, b)
  {
    if Stripped(a) == Stripped(b) {
      forall i | 0 <= i < |a| ensures SameEntry(a[i], b[i]) { assert Stripped(a)[i] == Stripped(b)[i]; }
    }
  }

  /** The file decodes to as many bytes as it says, with the digest it says. */
  predicate AsSaid(digests: Digests, file: File) {
    match file.data
    case None => false
    case Some(data) => file.length == |data| && file.checksum == digests.content(data)
  }

  /** Two intact bundles with one manifest hash are one bundle, every byte of every file included. */
  lemma ManifestFixesBundle(digests: Digests, a: Bundle, b: Bundle)
    requires Injective(digests) && Intact(digests, a) && Intact(digests, b) && a.manifestHash == b.manifestHash
    ensures a == b
  {
    var x, y := a.(files := Stripped(a.files), manifestHash := ""), b.(files := Stripped(b.files), manifestHash := "");
    assert digests.manifest(x) == digests.manifest(y);
    assert x.files == y.files && x.schemaVersion == y.schemaVersion && x.description == y.description;
    SameStripped(a.files, b.files);
    forall i | 0 <= i < |a.files| ensures a.files[i] == b.files[i] {
      assert SameEntry(a.files[i], b.files[i]) && FileIntact(digests, a.files[i]) && FileIntact(digests, b.files[i]);
    }
    assert a.files == b.files;
  }

  /** Whatever data an intact bundle's entries are given, it is intact exactly when each is as its entry says. */
  lemma OtherDataIntactIff(digests: Digests, a: Bundle, files: seq<File>)
    requires Intact(digests, a) && SameEntries(files, a.files)
    ensures Intact(digests, a.(files := files)) <==> forall i :: 0 <= i < |files| ==> AsSaid(digests, files[i])
  {
    SameStripped(files, a.files);
    assert a.(files := files).(files := Stripped(files), manifestHash := "") ==
           a.(files := Stripped(a.files), manifestHash := "");
    assert forall i :: 0 <= i < |files| ==> (AsSaid(digests, files[i]) <==> FileIntact(digests, files[i]));
  }

  /** A bundle whose manifest hash is another's is not intact once an entry, the version or the description differs. */
  lemma AlteredIsRefused(digests: Digests, a: Bundle, b: Bundle)
    requires Injective(digests) && Intact(digests, a) && a.manifestHash == b.manifestHash && a != b
    ensures !Intact(digests, b)
  {
    if Intact(digests, b) { ManifestFixesBundle(digests, a, b); }
  }

  function DataBytes(files: seq<File>): nat
    requires forall i :: 0 <= i < |files| ==> files[i].data.Some?
  {
    if files == [] then 0 else DataBytes(files[1..]) + |files[0].data.value|
  }

  lemma {:induction false} DataBytesLast(files: seq<File>)
    requires files != [] && forall i :: 0 <= i < |files| ==> files[i].data.Some?
    ensures DataBytes(files) == DataBytes(files[..|files| - 1]) + |files[|files| - 1].data.value|
  {
    if |files| > 1 {
      DataBytesLast(files[1..]);
      assert files[1..][..|files| - 2] == files[..|files| - 1][1..];
    }
  }

  lemma {:induction false} TotalOfPrefix(files: seq<File>, n: nat, m: nat)
    requires n <= m <= |files|
    ensures TotalBytes(files, n) == TotalBytes(files[..m], n)
  {
    if n > 0 { TotalOfPrefix(files, n - 1, m); }
  }

  /** The bytes reported for an intact bundle are those its files decode to. */
  lemma {:induction false} ReportedBytes(digests: Digests, files: seq<File>)
    requires forall i :: 0 <= i < |files| ==> files[i].data.Some? && FileIntact(digests, files[i])
    ensures TotalBytes(files, |files|) == DataBytes(files)
  {
    if files != [] {
      var n := |files| - 1;
      ReportedBytes(digests, files[..n]);
      TotalOfPrefix(files, n, n);
      DataBytesLast(files);
      assert FileIntact(digests, files[n]);
    }
  }

  // ------------------------------------------------------------ what it leaves

  /** The file is the last that goes to the path. */
  predicate GoesLast(files: seq<File>, i: nat, p: Path)
    requires i < |files|
  {
    files[i].location == Inside(p) && forall j :: i < j < |files| ==> files[j].location != Inside(p)
  }

  /** A file from place i on goes to the database. */
  predicate DatabaseFrom(files: seq<File>, i: nat) {
    exists j :: i <= j < |files| && files[j].location == Inside(Path("database", "controller.db"))
  }

  predicate BesideDatabase(p: Path) {
    p.dir == "database" && p.base in {"controller.db-wal", "controller.db-shm"}
  }

  /** What becomes of a path, told from the bundle alone. */
  predicate FateFits(files: seq<File>, p: Path, fate: Fate) {
    match fate
    case Holds(data) =>
      exists i :: 0 <= i < |files| && GoesLast(files, i, p) && files[i].data == Some(data)
        && (BesideDatabase(p) ==> !DatabaseFrom(files, i + 1))
    case Removed =>
      && BesideDatabase(p)
      && exists i :: 0 <= i < |files| && files[i].location == Inside(Path("database", "controller.db"))
           && forall j :: i < j < |files| ==> files[j].location != Inside(p)
    case Untouched =>
      && (forall i :: 0 <= i < |files| ==> files[i].location != Inside(p))
      && (BesideDatabase(p) ==> !DatabaseFrom(files, 0))
  }

  lemma NamedPlaces(p: Path)
    ensures BesideDatabase(p) <==> p == WAL || p == SHM
    ensures DATABASE == Path("database", "controller.db") && !BesideDatabase(DATABASE)
  {
  }

  lemma FateOfPrefix(files: seq<File>, n: nat, m: nat, p: Path)
    requires n <= m <= |files| && forall i :: 0 <= i < m ==> files[i].location.Inside? && files[i].data.Some?
    ensures FateOf(files, n, p) == FateOf(files[..m], n, p)
  {
    if n > 0 { FateOfPrefix(files, n - 1, m, p); }
  }

  lemma {:induction false} FateFitsBundle(files: seq<File>, p: Path)
    requires forall i :: 0 <= i < |files| ==> files[i].location.Inside? && files[i].data.Some?
    ensures FateFits(files, p, FateOf(files, |files|, p))
  {
    if files != [] {
      var n := |files| - 1;
      var rest, last := files[..n], files[n];
      NamedPlaces(p);
      FateOfPrefix(files, n, n, p);
      FateFitsBundle(rest, p);
      if p == last.location.path {
        assert GoesLast(files, n, p);
      } else if last.location.path == DATABASE && BesideDatabase(p) {
        assert files[n].location == Inside(Path("database", "controller.db"));
      } else {
        FateOneMore(files, p, FateOf(rest, n, p));
      }
    }
  }

  lemma FateOneMore(files: seq<File>, p: Path, fate: Fate)
    requires files != [] && files[|files| - 1].location != Inside(p)
    requires BesideDatabase(p) ==> files[|files| - 1].location != Inside(Path("database", "controller.db"))
    requires FateFits(files[..|files| - 1], p, fate)
    ensures FateFits(files, p, fate)
  {
    var n := |files| - 1;
    var rest := files[..n];
    match fate
    case Holds(data) =>
      var i :| 0 <= i < n && GoesLast(rest, i, p) && rest[i].data == Some(data)
        && (BesideDatabase(p) ==> !DatabaseFrom(rest, i + 1));
      assert GoesLast(files, i, p);
      if DatabaseFrom(files, i + 1) && BesideDatabase(p) { FromStays(files, i + 1); }
    case Removed =>
      var i :| 0 <= i < n && rest[i].location == Inside(Path("database", "controller.db"))
        && forall j :: i < j < n ==> rest[j].location != Inside(p);
      assert files[i].location == Inside(Path("database", "controller.db"));
    case Untouched =>
      assert forall i :: 0 <= i < n ==> files[i].location == rest[i].location;
      if DatabaseFrom(files, 0) && BesideDatabase(p) { FromStays(files, 0); }
  }

  lemma FromStays(files: seq<File>, i: nat)
    requires files != [] && files[|files| - 1].location != Inside(Path("database", "controller.db"))
    requires DatabaseFrom(files, i)
    ensures DatabaseFrom(files[..|files| - 1], i)
  {
    var j :| i <= j < |files| && files[j].location == Inside(Path("database", "controller.db"));
    assert files[..|files| - 1][j] == files[j];
  }

  /** What the later disk holds at the path, the earlier one and the bundle given. */
  predicate LeftAs(files: seq<File>, p: Path, before: Disk, after: Disk) {
    || (exists i :: 0 <= i < |files| && GoesLast(files, i, p) && (BesideDatabase(p) ==> !DatabaseFrom(files, i + 1))
          && p in after && Some(after[p]) == files[i].data)
    || (p !in after && BesideDatabase(p)
          && exists i :: 0 <= i < |files| && files[i].location == Inside(Path("database", "controller.db"))
               && forall j :: i < j < |files| ==> files[j].location != Inside(p))
    || ((p in after <==> p in before) && (p in after ==> after[p] == before[p])
          && (forall i :: 0 <= i < |files| ==> files[i].location != Inside(p))
          && (BesideDatabase(p) ==> !DatabaseFrom(files, 0)))
  }

  lemma FatedIsLeft(files: seq<File>, p: Path, before: Disk, after: Disk, fate: Fate)
    requires FateFits(files, p, fate) && Fated(before, after, p, fate)
    ensures LeftAs(files, p, before, after)
  {
    if fate.Holds? {
      var i :| 0 <= i < |files| && GoesLast(files, i, p) && files[i].data == Some(fate.data)
        && (BesideDatabase(p) ==> !DatabaseFrom(files, i + 1));
      assert p in after && Some(after[p]) == files[i].data;
    }
  }

  /**
   * After any crashes, a restore that completes leaves at each path the data of
   * the last file that goes there, no write-ahead file of an earlier database,
   * and everything else as it was; and the marker is gone.
   */
  lemma RestoreLeavesBundle(disk: Disk, reader: Reader, files: seq<File>, attempts: seq<Attempt>, p: Path)
    requires Staged(disk, reader) == Some(files) && Proper(files)
    requires forall i :: 0 <= i < |attempts| ==> Temporary(attempts[i].choices)
    requires CompletionFresh(disk, reader, files, attempts) && SomeCompletes(files, attempts)
    requires !(p.dir == "database" && "controller.db.pre-restore-" <= p.base) && !(".restore-" <= p.base)
    requires p != Path("backups", "restore-pending.json")
    ensures LeftAs(files, p, disk, After(disk, reader, attempts))
    ensures Path("backups", "restore-pending.json") !in After(disk, reader, attempts)
  {
    RestoreIsRedone(disk, reader, files, attempts, p);
    MarkerTellsCompletion(disk, reader, files, attempts);
    FateFitsBundle(files, p);
    FatedIsLeft(files, p, disk, After(disk, reader, attempts), FateOf(files, |files|, p));
  }

  /** An attempt changes the disk only for a marked bundle of at most 256 MiB that parses and is intact. */
  lemma RefusedLeavesDisk(disk: Disk, reader: Reader, attempt: Attempt)
    requires var marker := Path("backups", "restore-pending.json");
      marker in disk && |disk[marker]| <= 256 * 1024 * 1024 && reader.parse(disk[marker]).Success? ==>
        !Intact(reader.digests, reader.parse(disk[marker]).value)
    ensures Attempted(disk, reader, attempt) == disk
  {
  }

  /** Such a bundle is applied: where all its files lead inside the root, enough steps remove the marker. */
  lemma AcceptedIsApplied(disk: Disk, reader: Reader, bundle: Bundle, attempt: Attempt)
    requires Path("backups", "restore-pending.json") in disk
    requires |disk[Path("backups", "restore-pending.json")]| <= 256 * 1024 * 1024
    requires reader.parse(disk[Path("backups", "restore-pending.json")]) == Success(bundle)
    requires Intact(reader.digests, bundle) && Proper(bundle.files) && Temporary(attempt.choices)
    requires forall i :: 0 <= i < |bundle.files| ==> bundle.files[i].location.Inside?
    requires attempt.steps >= 6 * |bundle.files| + 1
    ensures Path("backups", "restore-pending.json") !in Attempted(disk, reader, attempt)
  {
    ProgramLength(bundle.files, attempt.choices, |bundle.files|);
    AttemptAndMarker(disk, reader, bundle.files, attempt);
  }

  lemma {:induction false} ProgramLength(files: seq<File>, choices: Choices, n: nat)
    requires n <= |files| && forall i :: 0 <= i < n ==> files[i].location.Inside? && files[i].data.Some?
    ensures |FilesOps(files, choices, n)| <= 6 * n
  {
    if n > 0 { ProgramLength(files, choices, n - 1); }
  }
}
