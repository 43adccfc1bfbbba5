/**
 * What becomes of the database that was in place before a restore: which of the
 * set-asides, over all attempts, decide whether a copy of it is left.
 */
module OriginalDatabase {
  import opened Documents
  import opened Restore

  /** The operations an attempt gets to. */
  function Reached(files: seq<File>, attempt: Attempt): seq<Op>
    requires forall i :: 0 <= i < |files| ==> files[i].data.Some?
  {
    var program := Program(files, attempt.choices);
    program[..if attempt.steps < |program| then attempt.steps else |program|]
  }

  /** All operations of the attempts, up to the one that completes. */
  function Executed(files: seq<File>, attempts: seq<Attempt>): seq<Op>
    requires forall i :: 0 <= i < |files| ==> files[i].data.Some?
  {
    if attempts == [] then [] else
      var rest := attempts[..|attempts| - 1];
      Executed(files, rest) + if SomeCompletes(files, rest) then [] else Reached(files, attempts[|attempts| - 1])
  }

  lemma {:induction false} ExecutedIsPlayed(disk: Disk, reader: Reader, files: seq<File>, attempts: seq<Attempt>)
    requires Staged(disk, reader) == Some(files) && Proper(files)
    requires forall i :: 0 <= i < |attempts| ==> Temporary(attempts[i].choices)
    ensures After(disk, reader, attempts) == Played(disk, Executed(files, attempts))
  {
    if attempts != [] {
      var n := |attempts| - 1;
      var rest := attempts[..n];
      ExecutedIsPlayed(disk, reader, files, rest);
      MarkerTellsCompletion(disk, reader, files, rest);
      PlayedTwice(disk, Executed(files, rest), Reached(files, attempts[n]));
      assert Executed(files, rest) + [] == Executed(files, rest);
    }
  }

  // ------------------------------------------------------- the shape of a run

  /** What the operations of a restore are like. */
  predicate Fine(op: Op) {
    match op
    case SetAside(_) => true
    case Drop(path) => path == WAL || path == SHM || path == MARKER
    case Open(temp, _) => IsTemporary(temp)
    case Fill(temp, _) => IsTemporary(temp)
    case Install(temp, target) => IsTemporary(temp) && !IsPreRestore(target)
  }

  /**
   * A file is filled just before it is put in place, and the database has just been
   * set aside when it is the target.
   */
  predicate Prepared(ops: seq<Op>, n: nat)
    requires n < |ops|
  {
    ops[n].Install? ==>
      && n > 0 && ops[n - 1].Fill? && ops[n - 1].temp == ops[n].temp
      && (ops[n].target == DATABASE ==>
            n >= 5 && ops[n - 2].Open? && ops[n - 3].Drop? && ops[n - 4].Drop? && ops[n - 5].SetAside?)
  }

  predicate Steady(ops: seq<Op>) {
    forall n :: 0 <= n < |ops| ==> Fine(ops[n]) && Prepared(ops, n)
  }

  lemma SteadyTwice(a: seq<Op>, b: seq<Op>)
    ensures Steady(a) && Steady(b) ==> Steady(a + b)
  {
    if Steady(a) && Steady(b) {
      forall n | 0 <= n < |a + b| ensures Fine((a + b)[n]) && Prepared(a + b, n) {
        if n < |a| { assert Prepared(a, n); } else { assert Prepared(b, n - |a|); }
      }
    }
  }

  lemma SteadyPrefix(ops: seq<Op>, n: nat)
    requires n <= |ops|
    ensures Steady(ops) ==> Steady(ops[..n])
  {
    if Steady(ops) {
      forall i | 0 <= i < n ensures Fine(ops[..n][i]) && Prepared(ops[..n], i) { assert Prepared(ops, i); }
    }
  }

  lemma FileSteady(target: Path, data: Bytes, choice: Choice)
    requires IsTemporary(choice.temp) && !IsPreRestore(target)
    ensures Steady(FileOps(target, data, choice))
  {
  }

  lemma {:induction false} FilesSteady(files: seq<File>, choices: Choices, n: nat)
    requires n <= |files| && forall i :: 0 <= i < n ==> files[i].location.Inside? && files[i].data.Some?
    requires Proper(files) && Temporary(choices)
    ensures Steady(FilesOps(files, choices, n))
  {
    if n > 0 {
      FilesSteady(files, choices, n - 1);
      assert IsTemporary(choices(n - 1).temp);
      FileSteady(files[n - 1].location.path, files[n - 1].data.value, choices(n - 1));
      SteadyTwice(FilesOps(files, choices, n - 1),
                  FileOps(files[n - 1].location.path, files[n - 1].data.value, choices(n - 1)));
    }
  }

  lemma ReachedSteady(files: seq<File>, attempt: Attempt)
    requires forall i :: 0 <= i < |files| ==> files[i].data.Some?
    requires Proper(files) && Temporary(attempt.choices)
    ensures Steady(Reached(files, attempt))
  {
    FilesSteady(files, attempt.choices, Safe(files));
    SteadyTwice(FilesOps(files, attempt.choices, Safe(files)), [Drop(MARKER)]);
    var program := Program(files, attempt.choices);
    SteadyPrefix(program, if attempt.steps < |program| then attempt.steps else |program|);
  }

  lemma {:induction false} ExecutedSteady(files: seq<File>, attempts: seq<Attempt>)
    requires forall i :: 0 <= i < |files| ==> files[i].data.Some?
    requires Proper(files) && forall i :: 0 <= i < |attempts| ==> Temporary(attempts[i].choices)
    ensures Steady(Executed(files, attempts))
  {
    if attempts != [] {
      var n := |attempts| - 1;
      ExecutedSteady(files, attempts[..n]);
      ReachedSteady(files, attempts[n]);
      SteadyTwice(Executed(files, attempts[..n]), Reached(files, attempts[n]));
    }
  }

  // --------------------------------------------------------------- set-asides

  /** After the first n operations a database is in place, as one was at the start. */
  predicate Present(ops: seq<Op>, n: nat)
    requires n <= |ops|
  {
    if n == 0 then true
    else match ops[n - 1]
      case SetAside(_) => false
      case Install(_, target) => target == DATABASE || Present(ops, n - 1)
      case _ => Present(ops, n - 1)
  }

  /** The stamps, in order, of those among the first n operations that set a database aside: the others find none. */
  function Moves(ops: seq<Op>, n: nat): seq<string>
    requires n <= |ops|
  {
    if n == 0 then []
    else if ops[n - 1].SetAside? && Present(ops, n - 1) then Moves(ops, n - 1) + [ops[n - 1].stamp]
    else Moves(ops, n - 1)
  }

  /** A later database was set aside under the stamp of the original. */
  predicate Overwritten(moves: seq<string>) {
    moves != [] && moves[0] in moves[1..]
  }

  /** Where the original is, unless it was overwritten. */
  function Spot(moves: seq<string>): Path {
    if moves == [] then DATABASE else PreRestore(moves[0])
  }

  predicate HoldsAt(disk: Disk, p: Path, content: Bytes) {
    p in disk && disk[p] == content
  }

  lemma SpotIsNotTemporary(moves: seq<string>)
    ensures !IsTemporary(Spot(moves)) && Spot(moves) != WAL && Spot(moves) != SHM && Spot(moves) != MARKER
    ensures Spot(moves) == DATABASE <==> moves == []
    ensures IsPreRestore(Spot(moves)) <==> moves != []
  {
    NamesApart(Spot(moves));
    NamesApart(WAL);
    if moves != [] { PreRestoreInjective(moves[0], moves[0]); }
  }

  lemma OneMoreMove(moves: seq<string>, stamp: string)
    ensures Overwritten(moves + [stamp]) <==> moves != [] && (Overwritten(moves) || stamp == moves[0])
    ensures moves != [] ==> Spot(moves + [stamp]) == Spot(moves)
  {
    if moves != [] { assert (moves + [stamp])[1..] == moves[1..] + [stamp]; }
  }

  /** While the original is in place nothing is put over it. */
  lemma InstalledWhenAbsent(ops: seq<Op>, n: nat)
    requires n < |ops| && Steady(ops) && ops[n].Install? && ops[n].target == DATABASE
    ensures !Present(ops, n)
  {
    assert Prepared(ops, n);
    assert !Present(ops, n - 4) && !Present(ops, n - 3) && !Present(ops, n - 2) && !Present(ops, n - 1);
  }

  lemma {:induction false} PresentUnlessMoved(ops: seq<Op>, n: nat)
    requires n <= |ops|
    ensures Present(ops, n) || Moves(ops, n) != []
  {
    if n > 0 { PresentUnlessMoved(ops, n - 1); }
  }

  // ------------------------------------------------------------------ one step

  /** The database is in place exactly when it is said to be, and what is about to be installed has been filled. */
  predicate Ready(disk: Disk, ops: seq<Op>, n: nat)
    requires n <= |ops|
  {
    && (DATABASE in disk <==> Present(ops, n))
    && (n > 0 && ops[n - 1].Fill? ==> HoldsAt(disk, ops[n - 1].temp, ops[n - 1].payload))
  }

  lemma PlayedNext(disk: Disk, ops: seq<Op>, n: nat)
    requires n < |ops|
    ensures Played(disk, ops[..n + 1]) == Done(Played(disk, ops[..n]), ops[n])
  {
    assert ops[..n + 1][..n] == ops[..n];
  }

  lemma StaysReady(disk: Disk, ops: seq<Op>, n: nat)
    requires n < |ops| && Steady(ops) && Ready(disk, ops, n)
    ensures Ready(Done(disk, ops[n]), ops, n + 1)
  {
    assert Fine(ops[n]) && Prepared(ops, n);
    if !ops[n].SetAside? && !ops[n].Drop? { NamesApart(ops[n].temp); }
    if ops[n].SetAside? {
      PreRestoreInjective(ops[n].stamp, ops[n].stamp);
      NamesApart(PreRestore(ops[n].stamp));
    }
  }

  /** Nothing but a set-aside disturbs the place of the original. */
  lemma SpotSpared(disk: Disk, op: Op, moves: seq<string>, content: Bytes)
    requires Fine(op) && !op.SetAside? && (op.Install? && op.target == DATABASE ==> moves != [])
    ensures HoldsAt(disk, Spot(moves), content) ==> HoldsAt(Done(disk, op), Spot(moves), content)
  {
    SpotIsNotTemporary(moves);
  }

  lemma SpotMoves(disk: Disk, stamp: string, moves: seq<string>, content: Bytes)
    requires DATABASE in disk && !Overwritten(moves + [stamp])
    ensures HoldsAt(disk, Spot(moves), content) ==> HoldsAt(Done(disk, SetAside(stamp)), Spot(moves + [stamp]), content)
  {
    OneMoreMove(moves, stamp);
    SpotIsNotTemporary(moves);
    if moves != [] { PreRestoreInjective(moves[0], stamp); }
  }

  lemma OriginalStep(disk: Disk, ops: seq<Op>, n: nat, content: Bytes)
    requires n < |ops| && Steady(ops) && Ready(disk, ops, n)
    requires !Overwritten(Moves(ops, n)) ==> HoldsAt(disk, Spot(Moves(ops, n)), content)
    ensures !Overwritten(Moves(ops, n + 1)) ==> HoldsAt(Done(disk, ops[n]), Spot(Moves(ops, n + 1)), content)
  {
    var moves, op := Moves(ops, n), ops[n];
    assert Fine(op);
    if op.SetAside? && Present(ops, n) {
      OneMoreMove(moves, op.stamp);
      if !Overwritten(moves + [op.stamp]) { SpotMoves(disk, op.stamp, moves, content); }
    } else if !op.SetAside? {
      PresentUnlessMoved(ops, n);
      if op.Install? && op.target == DATABASE { InstalledWhenAbsent(ops, n); }
      SpotSpared(disk, op, moves, content);
    }
  }

  lemma {:induction false} RunReady(disk: Disk, ops: seq<Op>, n: nat)
    requires n <= |ops| && Steady(ops) && DATABASE in disk
    ensures Ready(Played(disk, ops[..n]), ops, n)
  {
    if n > 0 {
      RunReady(disk, ops, n - 1);
      PlayedNext(disk, ops, n - 1);
      StaysReady(Played(disk, ops[..n - 1]), ops, n - 1);
    }
  }

  lemma {:induction false} RunKeeps(disk: Disk, ops: seq<Op>, n: nat, content: Bytes)
    requires n <= |ops| && Steady(ops) && HoldsAt(disk, DATABASE, content)
    ensures !Overwritten(Moves(ops, n)) ==> HoldsAt(Played(disk, ops[..n]), Spot(Moves(ops, n)), content)
  {
    if n > 0 {
      RunKeeps(disk, ops, n - 1, content);
      RunReady(disk, ops, n - 1);
      PlayedNext(disk, ops, n - 1);
      OriginalStep(Played(disk, ops[..n - 1]), ops, n - 1, content);
    }
  }

  // ------------------------------------------------------- no other copy

  /** Only temporary files, or the place of the original, hold the content; no place does once it is overwritten. */
  ghost predicate OnlyAt(disk: Disk, moves: seq<string>, content: Bytes) {
    forall p :: !IsTemporary(p) && HoldsAt(disk, p, content) ==> p == Spot(moves) && !Overwritten(moves)
  }

  /** The operations bring no copy of the content along. */
  predicate Foreign(ops: seq<Op>, content: Bytes) {
    forall n :: 0 <= n < |ops| && ops[n].Fill? ==> ops[n].payload != content
  }

  lemma OnlyMoves(disk: Disk, stamp: string, moves: seq<string>, content: Bytes)
    requires DATABASE in disk && OnlyAt(disk, moves, content)
    ensures OnlyAt(Done(disk, SetAside(stamp)), moves + [stamp], content)
  {
    OneMoreMove(moves, stamp);
    SpotIsNotTemporary(moves);
    PreRestoreInjective(stamp, stamp);
    NamesApart(PreRestore(stamp));
    var after := Done(disk, SetAside(stamp));
    forall p | !IsTemporary(p) && HoldsAt(after, p, content)
      ensures p == Spot(moves + [stamp]) && !Overwritten(moves + [stamp])
    {
      if p == PreRestore(stamp) {
        assert HoldsAt(disk, DATABASE, content) && !IsTemporary(DATABASE);
      } else {
        assert HoldsAt(disk, p, content);
        if moves != [] && stamp == moves[0] { assert false; }
      }
    }
  }

  lemma OnlyStays(disk: Disk, op: Op, moves: seq<string>, content: Bytes)
    requires Fine(op) && !op.SetAside? && OnlyAt(disk, moves, content)
    requires op.Install? ==> op.temp in disk && disk[op.temp] != content
    ensures OnlyAt(Done(disk, op), moves, content)
  {
    forall p | !IsTemporary(p) && HoldsAt(Done(disk, op), p, content) ensures HoldsAt(disk, p, content) {
    }
  }

  lemma OnlyStep(disk: Disk, ops: seq<Op>, n: nat, content: Bytes)
    requires n < |ops| && Steady(ops) && Ready(disk, ops, n) && Foreign(ops, content)
    requires OnlyAt(disk, Moves(ops, n), content)
    ensures OnlyAt(Done(disk, ops[n]), Moves(ops, n + 1), content)
  {
    assert Fine(ops[n]) && Prepared(ops, n);
    if ops[n].SetAside? && Present(ops, n) {
      OnlyMoves(disk, ops[n].stamp, Moves(ops, n), content);
    } else if !ops[n].SetAside? {
      OnlyStays(disk, ops[n], Moves(ops, n), content);
    }
  }

  lemma {:induction false} RunOnly(disk: Disk, ops: seq<Op>, n: nat, content: Bytes)
    requires n <= |ops| && Steady(ops) && DATABASE in disk && Foreign(ops, content)
    requires forall p :: !IsTemporary(p) && HoldsAt(disk, p, content) ==> p == DATABASE
    ensures OnlyAt(Played(disk, ops[..n]), Moves(ops, n), content)
  {
    if n > 0 {
      RunOnly(disk, ops, n - 1, content);
      RunReady(disk, ops, n - 1);
      PlayedNext(disk, ops, n - 1);
      OnlyStep(Played(disk, ops[..n - 1]), ops, n - 1, content);
    }
  }

  lemma {:induction false} FilesForeign(files: seq<File>, choices: Choices, n: nat, content: Bytes)
    requires n <= |files| && forall i :: 0 <= i < n ==> files[i].location.Inside? && files[i].data.Some?
    requires forall i :: 0 <= i < |files| ==> files[i].data != Some(content)
    ensures Foreign(FilesOps(files, choices, n), content)
  {
    if n > 0 { FilesForeign(files, choices, n - 1, content); }
  }

  lemma {:induction false} ExecutedForeign(files: seq<File>, attempts: seq<Attempt>, content: Bytes)
    requires forall i :: 0 <= i < |files| ==> files[i].data.Some? && files[i].data != Some(content)
    ensures Foreign(Executed(files, attempts), content)
  {
    if attempts != [] {
      var n := |attempts| - 1;
      ExecutedForeign(files, attempts[..n], content);
      FilesForeign(files, attempts[n].choices, Safe(files), content);
      assert Foreign(Program(files, attempts[n].choices), content);
      assert Foreign(Reached(files, attempts[n]), content);
    }
  }

  // ------------------------------------------------------------ main theorems

  /** The stamps of the databases that the attempts set aside, in order. */
  function AllMoves(files: seq<File>, attempts: seq<Attempt>): seq<string>
    requires forall i :: 0 <= i < |files| ==> files[i].data.Some?
  {
    Moves(Executed(files, attempts), |Executed(files, attempts)|)
  }

  /**
   * However the attempts are stopped, the original database is in its place, or
   * under its pre-restore name once it was set aside, unless a later database
   * was set aside under the same stamp.
   */
  lemma {:induction false} OriginalKept(
    disk: Disk, reader: Reader, files: seq<File>, attempts: seq<Attempt>, content: Bytes)
    requires Staged(disk, reader) == Some(files) && Proper(files)
    requires forall i :: 0 <= i < |attempts| ==> Temporary(attempts[i].choices)
    requires HoldsAt(disk, DATABASE, content)
    ensures var moves := AllMoves(files, attempts);
      !Overwritten(moves) ==> HoldsAt(After(disk, reader, attempts), Spot(moves), content)
  {
    var ops := Executed(files, attempts);
    ExecutedIsPlayed(disk, reader, files, attempts);
    ExecutedSteady(files, attempts);
    RunKeeps(disk, ops, |ops|, content);
    assert ops[..|ops|] == ops;
  }

  /** Of a database that occurs nowhere else, a copy is left exactly when it was not overwritten. */
  lemma {:induction false} OriginalKeptIff(
    disk: Disk, reader: Reader, files: seq<File>, attempts: seq<Attempt>, content: Bytes)
    requires Staged(disk, reader) == Some(files) && Proper(files)
    requires forall i :: 0 <= i < |attempts| ==> Temporary(attempts[i].choices)
    requires forall p :: !IsTemporary(p) ==> (HoldsAt(disk, p, content) <==> p == DATABASE)
    requires forall i :: 0 <= i < |files| ==> files[i].data != Some(content)
    ensures var after, moves := After(disk, reader, attempts), AllMoves(files, attempts);
      forall p :: !IsTemporary(p) ==> (HoldsAt(after, p, content) <==> p == Spot(moves) && !Overwritten(moves))
  {
    var ops := Executed(files, attempts);
    assert HoldsAt(disk, DATABASE, content) by { NamesApart(DATABASE); }
    OriginalKept(disk, reader, files, attempts, content);
    ExecutedIsPlayed(disk, reader, files, attempts);
    ExecutedSteady(files, attempts);
    ExecutedForeign(files, attempts, content);
    RunOnly(disk, ops, |ops|, content);
    assert ops[..|ops|] == ops;
  }

  // ------------------------------------------------------- different seconds

  /** No two set-asides read the same second from the clock. */
  predicate DistinctAsides(ops: seq<Op>) {
    forall i, j :: 0 <= i < j < |ops| && ops[i].SetAside? && ops[j].SetAside? ==> ops[i].stamp != ops[j].stamp
  }

  lemma {:induction false} MoveIsAside(ops: seq<Op>, n: nat, stamp: string) returns (i: nat)
    requires n <= |ops| && stamp in Moves(ops, n)
    ensures i < n && ops[i] == SetAside(stamp)
  {
    if ops[n - 1] == SetAside(stamp) { return n - 1; }
    i := MoveIsAside(ops, n - 1, stamp);
  }

  lemma {:induction false} DistinctNeverOverwrite(ops: seq<Op>, n: nat)
    requires n <= |ops| && DistinctAsides(ops)
    ensures !Overwritten(Moves(ops, n))
  {
    if n > 0 {
      DistinctNeverOverwrite(ops, n - 1);
      var moves := Moves(ops, n - 1);
      if ops[n - 1].SetAside? {
        OneMoreMove(moves, ops[n - 1].stamp);
        if moves != [] { var i := MoveIsAside(ops, n - 1, moves[0]); }
      }
    }
  }

  lemma {:induction false} AsideMoves(ops: seq<Op>, n: nat, i: nat)
    requires i < n <= |ops| && ops[i].SetAside?
    ensures Moves(ops, n) != []
  {
    if i < n - 1 {
      AsideMoves(ops, n - 1, i);
    } else {
      PresentUnlessMoved(ops, i);
    }
  }

  lemma {:induction false} FilesSetAside(files: seq<File>, choices: Choices, n: nat, m: nat)
    requires n <= |files| && forall i :: 0 <= i < n ==> files[i].location.Inside? && files[i].data.Some?
    requires m < n && files[m].location == Inside(DATABASE)
    ensures SetAside(choices(m).stamp) in FilesOps(files, choices, n)
  {
    if m < n - 1 {
      FilesSetAside(files, choices, n - 1, m);
    } else {
      assert FileOps(DATABASE, files[m].data.value, choices(m))[0] == SetAside(choices(m).stamp);
    }
  }

  /** A run that completes has set the original aside when the bundle names the database. */
  lemma {:induction false} CompletionSetsAside(files: seq<File>, attempts: seq<Attempt>, m: nat) returns (stamp: string)
    requires forall i :: 0 <= i < |files| ==> files[i].data.Some?
    requires m < |files| && files[m].location == Inside(DATABASE) && SomeCompletes(files, attempts)
    ensures SetAside(stamp) in Executed(files, attempts)
  {
    var n := |attempts| - 1;
    if SomeCompletes(files, attempts[..n]) {
      stamp := CompletionSetsAside(files, attempts[..n], m);
    } else {
      stamp := attempts[n].choices(m).stamp;
      FilesSetAside(files, attempts[n].choices, |files|, m);
      var program := Program(files, attempts[n].choices);
      assert Reached(files, attempts[n]) == program && SetAside(stamp) in program;
    }
  }

  /**
   * Where set-asides read different seconds the original survives, under a
   * pre-restore name once an attempt completes.
   */
  lemma {:induction false} OriginalSurvives(
    disk: Disk, reader: Reader, files: seq<File>, attempts: seq<Attempt>, m: nat, content: Bytes)
    requires Staged(disk, reader) == Some(files) && Proper(files)
    requires forall i :: 0 <= i < |attempts| ==> Temporary(attempts[i].choices)
    requires HoldsAt(disk, DATABASE, content) && DistinctAsides(Executed(files, attempts))
    ensures HoldsAt(After(disk, reader, attempts), Spot(AllMoves(files, attempts)), content)
    ensures SomeCompletes(files, attempts) && m < |files| && files[m].location == Inside(DATABASE) ==>
      IsPreRestore(Spot(AllMoves(files, attempts)))
  {
    var ops := Executed(files, attempts);
    DistinctNeverOverwrite(ops, |ops|);
    OriginalKept(disk, reader, files, attempts, content);
    if SomeCompletes(files, attempts) && m < |files| && files[m].location == Inside(DATABASE) {
      var stamp := CompletionSetsAside(files, attempts, m);
      var i :| 0 <= i < |ops| && ops[i] == SetAside(stamp);
      AsideMoves(ops, |ops|, i);
      SpotIsNotTemporary(Moves(ops, |ops|));
    }
  }

  // ------------------------------------------------------ the database twice

  lemma FileMoves(ops: seq<Op>, n: nat, data: Bytes, choice: Choice)
    requires n + 6 <= |ops| && ops[n..n + 6] == FileOps(DATABASE, data, choice)
    ensures Present(ops, n + 6)
    ensures Moves(ops, n + 6) == Moves(ops, n) + if Present(ops, n) then [choice.stamp] else []
  {
    var block := ops[n..n + 6];
    assert ops[n] == block[0] && ops[n + 1] == block[1] && ops[n + 2] == block[2];
    assert ops[n + 3] == block[3] && ops[n + 4] == block[4] && ops[n + 5] == block[5];
    assert Moves(ops, n + 3) == Moves(ops, n + 1) && Moves(ops, n + 5) == Moves(ops, n + 3);
  }

  lemma {:induction false} TwiceProgram(files: seq<File>, choices: Choices, first: Bytes, second: Bytes)
    requires |files| == 2 && files[0].location == files[1].location == Inside(DATABASE)
    requires files[0].data == Some(first) && files[1].data == Some(second)
    ensures Safe(files) == 2
    ensures Program(files, choices) ==
            FileOps(DATABASE, first, choices(0)) + FileOps(DATABASE, second, choices(1)) + [Drop(MARKER)]
  {
    assert Safe(files[1..][1..]) == 0 && Safe(files[1..]) == 1;
    assert FilesOps(files, choices, 1) == [] + FileOps(DATABASE, first, choices(0));
  }

  /**
   * A bundle that names the database twice: one uninterrupted attempt within a
   * second leaves no copy of the original.
   */
  lemma {:induction false} DatabaseTwiceLosesOriginal(
    disk: Disk, reader: Reader, files: seq<File>, attempt: Attempt, first: Bytes, second: Bytes, content: Bytes)
    requires |files| == 2 && files[0].location == files[1].location == Inside(DATABASE)
    requires files[0].data == Some(first) && files[1].data == Some(second) && first != content && second != content
    requires Staged(disk, reader) == Some(files) && Temporary(attempt.choices)
    requires forall p :: !IsTemporary(p) ==> (HoldsAt(disk, p, content) <==> p == DATABASE)
    requires attempt.steps >= 13 && attempt.choices(0).stamp == attempt.choices(1).stamp
    ensures Completes(files, attempt)
    ensures forall p :: !IsTemporary(p) ==> !HoldsAt(Attempted(disk, reader, attempt), p, content)
  {
    TwiceProgram(files, attempt.choices, first, second);
    TwiceMoves(Program(files, attempt.choices), first, second, attempt.choices(0), attempt.choices(1));
    SingleExecuted(files, attempt);
    TwiceProper(files);
    OriginalKeptIff(disk, reader, files, [attempt], content);
    SingleAfter(disk, reader, attempt);
  }

  lemma TwiceProper(files: seq<File>)
    requires |files| == 2 && files[0].location == files[1].location == Inside(DATABASE)
    ensures Proper(files)
  {
    NamesApart(DATABASE);
  }

  lemma SingleAfter(disk: Disk, reader: Reader, attempt: Attempt)
    ensures After(disk, reader, [attempt]) == Attempted(disk, reader, attempt)
  {
    assert [attempt][..0] == [];
  }

  lemma SingleExecuted(files: seq<File>, attempt: Attempt)
    requires forall i :: 0 <= i < |files| ==> files[i].data.Some?
    requires attempt.steps >= |Program(files, attempt.choices)|
    ensures Executed(files, [attempt]) == Program(files, attempt.choices)
  {
    assert [attempt][..0] == [] && Executed(files, []) == [];
  }

  lemma TwiceMoves(program: seq<Op>, first: Bytes, second: Bytes, a: Choice, b: Choice)
    requires program == FileOps(DATABASE, first, a) + FileOps(DATABASE, second, b) + [Drop(MARKER)]
    ensures |program| == 13 && Moves(program, 13) == [a.stamp, b.stamp]
  {
    assert program[0..6] == FileOps(DATABASE, first, a) && program[6..12] == FileOps(DATABASE, second, b);
    FileMoves(program, 0, first, a);
    FileMoves(program, 6, second, b);
    assert Moves(program, 13) == Moves(program, 12);
  }

  // ------------------------------------------------------------ one second

  /** Two attempts in the same second: the second sets the restored database aside over the original. */
  lemma {:induction false} SameStampLosesOriginal(
    reader: Reader, marker: Bytes, original: Bytes, restored: Bytes, choice: Choice, files: seq<File>)
    requires original != restored && original != marker && IsTemporary(choice.temp)
    requires files == [File(Inside(DATABASE), reader.digests.content(restored), |restored|, Some(restored))]
    requires Staged(map[MARKER := marker, DATABASE := original], reader) == Some(files)
    ensures var choices := _ => choice;
      var attempts := [Attempt(choices, 6), Attempt(choices, 7)];
      var after := After(map[MARKER := marker, DATABASE := original], reader, attempts);
      SomeCompletes(files, attempts) && forall p :: p in after ==> after[p] != original
  {
    var choices: Choices := _ => choice;
    var first, second := Attempt(choices, 6), Attempt(choices, 7);
    var disk: Disk := map[MARKER := marker, DATABASE := original];
    var pre := PreRestore(choice.stamp);
    NamesApart(choice.temp);
    PreRestoreOther(choice);
    var once: Disk := map[MARKER := marker, pre := original, DATABASE := restored];
    var twice: Disk := map[MARKER := marker, pre := restored, DATABASE := restored];
    FirstAttempt(disk, reader, files, restored, choices, once);
    assert Staged(once, reader) == Some(files);
    SecondAttempt(once, reader, files, restored, choices, twice);
    AfterTwo(disk, reader, first, second);
    assert [first, second][..1] == [first];
  }

  lemma PreRestoreOther(choice: Choice)
    requires IsTemporary(choice.temp)
    ensures var pre := PreRestore(choice.stamp);
      pre != choice.temp && pre != DATABASE && pre != MARKER && pre != WAL && pre != SHM
  {
    PreRestoreInjective(choice.stamp, choice.stamp);
    NamesApart(PreRestore(choice.stamp));
    NamesApart(choice.temp);
  }

  /** An attempt on the database alone, stopped before it removes the marker. */
  lemma {:induction false} FirstAttempt(
    disk: Disk, reader: Reader, files: seq<File>, data: Bytes, choices: Choices, after: Disk)
    requires |files| == 1 && files[0].location == Inside(DATABASE) && files[0].data == Some(data)
    requires Staged(disk, reader) == Some(files) && IsTemporary(choices(0).temp) && choices(0).temp !in disk
    requires WAL !in disk && SHM !in disk && DATABASE in disk
    requires after == (disk - {DATABASE})[PreRestore(choices(0).stamp) := disk[DATABASE]][DATABASE := data]
    ensures Attempted(disk, reader, Attempt(choices, 6)) == after
  {
    SingleProgram(files, data, choices(0), choices);
    SingleFile(disk, data, choices(0));
    var ops := FileOps(DATABASE, data, choices(0));
    assert (ops + [Drop(MARKER)])[..6] == ops;
  }

  /** An attempt on the database alone that completes. */
  lemma {:induction false} SecondAttempt(
    disk: Disk, reader: Reader, files: seq<File>, data: Bytes, choices: Choices, after: Disk)
    requires |files| == 1 && files[0].location == Inside(DATABASE) && files[0].data == Some(data)
    requires Staged(disk, reader) == Some(files) && IsTemporary(choices(0).temp) && choices(0).temp !in disk
    requires WAL !in disk && SHM !in disk && DATABASE in disk
    requires after == (disk - {DATABASE})[PreRestore(choices(0).stamp) := disk[DATABASE]][DATABASE := data]
    ensures Attempted(disk, reader, Attempt(choices, 7)) == after - {MARKER}
    ensures Completes(files, Attempt(choices, 7))
  {
    SingleProgram(files, data, choices(0), choices);
    SingleFile(disk, data, choices(0));
    var ops := FileOps(DATABASE, data, choices(0));
    assert (ops + [Drop(MARKER)])[..7] == ops + [Drop(MARKER)];
    PlayedTwice(disk, ops, [Drop(MARKER)]);
    assert Played(after, [Drop(MARKER)]) == Done(after, Drop(MARKER)) by { assert [Drop(MARKER)][..0] == []; }
  }

  lemma AfterTwo(disk: Disk, reader: Reader, first: Attempt, second: Attempt)
    ensures After(disk, reader, [first, second]) == Attempted(Attempted(disk, reader, first), reader, second)
  {
    assert [first, second][..1] == [first] && [first][..0] == [];
    assert After(disk, reader, [first]) == Attempted(disk, reader, first);
  }

  lemma {:induction false} SingleProgram(files: seq<File>, data: Bytes, choice: Choice, choices: Choices)
    requires |files| == 1 && files[0].location == Inside(DATABASE) && files[0].data == Some(data)
    requires choices(0) == choice
    ensures Safe(files) == 1 && Program(files, choices) == FileOps(DATABASE, data, choice) + [Drop(MARKER)]
  {
    assert Safe(files[1..]) == 0;
    assert FilesOps(files, choices, 0) == [];
    assert FilesOps(files, choices, 1) == [] + FileOps(DATABASE, data, choice);
  }

  /** Restoring just the database over a disk that holds it and the marker. */
  lemma SingleFile(disk: Disk, data: Bytes, choice: Choice)
    requires IsTemporary(choice.temp) && choice.temp !in disk && WAL !in disk && SHM !in disk && DATABASE in disk
    ensures Played(disk, FileOps(DATABASE, data, choice)) ==
            (disk - {DATABASE})[PreRestore(choice.stamp) := disk[DATABASE]][DATABASE := data]
  {
    var pre := PreRestore(choice.stamp);
    PreRestoreInjective(choice.stamp, choice.stamp);
    NamesApart(pre);
    NamesApart(choice.temp);
    var aside := [SetAside(choice.stamp), Drop(WAL), Drop(SHM)];
    var install := [Open(choice.temp, choice.partial), Fill(choice.temp, data), Install(choice.temp, DATABASE)];
    PlayedTwice(disk, aside, install);
    PlayedThree(disk, SetAside(choice.stamp), Drop(WAL), Drop(SHM));
    var middle := (disk - {DATABASE})[pre := disk[DATABASE]];
    assert Played(disk, aside) == middle;
    PlayedThree(middle, Open(choice.temp, choice.partial), Fill(choice.temp, data), Install(choice.temp, DATABASE));
    assert Played(middle, install) == middle[DATABASE := data];
  }
}
