/**
 * Committing a job's verified work: a commit carries the operation it was made
 * for, so that a retry recognises it instead of committing again.
 */
module WorktreeCommits {
  import opened Documents
  import opened GitNames

  /** A commit and, when the program made it, the operation it was made for. */
  datatype Commit = CommitObject(sha: Sha, parent: Sha, message: string, operation: Option<string>)

  datatype CommitRequest = CommitRequest(expectedHead: Sha, operation: string)

  /**
   * A job's worktree: its commits up to the head, whether it differs from the
   * head, and whether the difference passes the whitespace check.
   */
  datatype Worktree = Worktree(job: string, history: seq<Commit>, dirty: bool, tidy: bool)

  datatype Outcome = Rejected | Committed(sha: Sha) | Conflicting | Untidy

  const HEADING := "maintainer: apply verified job "
  const TRAILER := "Maintainer-Operation: "

  function MessageOf(job: string, operation: string): string {
    HEADING + job + "\n\n" + TRAILER + operation
  }

  function Head(w: Worktree): Commit
    requires w.history != []
  {
    w.history[|w.history| - 1]
  }

  predicate ValidCommit(w: Worktree, request: CommitRequest) {
    SafeId(w.job) && IsSha(request.expectedHead) && SafeId(request.operation)
  }

  /** The commit the request makes on this head; its identity is the forge's choice. */
  function Made(w: Worktree, request: CommitRequest, sha: Sha): Commit
    requires w.history != []
  {
    CommitObject(sha, Head(w).sha, MessageOf(w.job, request.operation), Some(request.operation))
  }

  /**
   * The steps are: reading the head, its message or the status, checking, staging,
   * committing, reading the head again.
   */
  function Effect(w: Worktree, request: CommitRequest, sha: Sha, steps: nat): Worktree
    requires w.history != []
  {
    if ValidCommit(w, request) && Head(w).sha == request.expectedHead && w.dirty && w.tidy && steps >= 5
    then w.(history := w.history + [Made(w, request, sha)], dirty := false)
    else w
  }

  function Answer(w: Worktree, request: CommitRequest, sha: Sha, steps: nat): Option<Outcome>
    requires w.history != []
  {
    if !ValidCommit(w, request) then Some(Rejected)
    else if steps < 2 then None
    else if Head(w).sha != request.expectedHead then
      Some(if Contains(Head(w).message, TRAILER + request.operation) then Committed(Head(w).sha) else Conflicting)
    else if !w.dirty then Some(Committed(Head(w).sha))
    else if steps < 3 then None
    else if !w.tidy then Some(Untidy)
    else if steps < 6 then None
    else if IsSha(sha) then Some(Committed(sha))
    else Some(Conflicting)
  }

  // --------------------------------------------------------- message contents

  lemma HeadingColon(k: nat)
    requires k < |HEADING| && k != 10
    ensures HEADING[k] != ':'
  {
    if k < 10 {
      assert HEADING[..10] == "maintainer";
      assert HEADING[..10][k] == HEADING[k];
    } else {
      assert HEADING[11..] == " apply verified job ";
      assert HEADING[11..][k - 11] == HEADING[k];
    }
  }

  lemma TrailerColon(k: nat)
    requires k < |TRAILER| && k != 20
    ensures |TRAILER| == 22 && TRAILER[k] != ':'
  {
    if k < 20 {
      assert TRAILER[..20] == "Maintainer-Operation";
      assert TRAILER[..20][k] == TRAILER[k];
    }
  }

  /** The colons of a message are the heading's and the trailer's. */
  lemma MessageColons(job: string, operation: string, k: nat)
    requires SafeId(job) && SafeId(operation)
    requires k < |MessageOf(job, operation)| && k != 10 && k != |HEADING| + |job| + 22
    ensures MessageOf(job, operation)[k] != ':'
  {
    var message, front := MessageOf(job, operation), |HEADING| + |job| + 2;
    assert |TRAILER| == 22;
    if k < |HEADING| {
      assert HEADING[k] == message[k];
      HeadingColon(k);
    } else if k < |HEADING| + |job| {
      assert job[k - |HEADING|] == message[k];
    } else if k < front {
      assert "\n\n"[k - |HEADING| - |job|] == message[k];
    } else if k < front + 22 {
      assert TRAILER[k - front] == message[k];
      TrailerColon(k - front);
    } else {
      assert operation[k - front - 22] == message[k];
    }
  }

  lemma OccursAtTrailer(job: string, made: string, asked: string, i: nat)
    requires SafeId(job) && SafeId(made) && OccursAt(MessageOf(job, made), TRAILER + asked, i)
    ensures asked <= made
  {
    var message, front := MessageOf(job, made), |HEADING| + |job| + 2;
    assert |TRAILER| == 22 && TRAILER[20] == ':';
    var found := message[i..i + |TRAILER + asked|];
    assert message[i + 20] == found[20] == ':';
    if i + 20 != |HEADING| + |job| + 22 { MessageColons(job, made, i + 20); }
    assert message[front + 22..] == made;
    assert found[22..] == asked;
    assert found[22..] == message[front + 22..][..|asked|];
  }

  /** A message names an operation exactly when that operation's text begins the one it was made for. */
  lemma MessageNames(job: string, made: string, asked: string)
    requires SafeId(job) && SafeId(made) && SafeId(asked)
    ensures Contains(MessageOf(job, made), TRAILER + asked) <==> asked <= made
  {
    var message, front := MessageOf(job, made), |HEADING| + |job| + 2;
    assert |TRAILER| == 22 && TRAILER[20] == ':';
    assert message[front..] == TRAILER + made;
    if asked <= made {
      assert message[front..front + 22 + |asked|] == TRAILER + asked;
      assert OccursAt(message, TRAILER + asked, front);
    }
    if Contains(message, TRAILER + asked) {
      var i :| 0 <= i <= |message| && OccursAt(message, TRAILER + asked, i);
      OccursAtTrailer(job, made, asked, i);
    }
  }

  // --------------------------------------------------------------------- runs

  /** Calls that may stop after some of their steps, and edits to the files in between. */
  datatype Event = Call(request: CommitRequest, sha: Sha, steps: nat) | Edit(dirty: bool, tidy: bool)

  function After(w: Worktree, e: Event): (r: Worktree)
    requires w.history != []
    ensures r.history != []
  {
    match e
    case Call(request, sha, steps) => Effect(w, request, sha, steps)
    case Edit(dirty, tidy) => w.(dirty := dirty, tidy := tidy)
  }

  function Run(w: Worktree, events: seq<Event>): (r: Worktree)
    requires w.history != []
    ensures r.history != []
  {
    if events == [] then w else After(Run(w, events[..|events| - 1]), events[|events| - 1])
  }

  predicate Distinct(history: seq<Commit>) {
    forall i, j :: 0 <= i < j < |history| ==> history[i].sha != history[j].sha
  }

  predicate Unused(history: seq<Commit>, sha: Sha) {
    forall i :: 0 <= i < |history| ==> history[i].sha != sha
  }

  /** Every commit made gets an identity of its own. */
  predicate FreshRun(w: Worktree, events: seq<Event>)
    requires w.history != []
  {
    events == [] ||
    (var rest, e := events[..|events| - 1], events[|events| - 1];
     FreshRun(w, rest) && (e.Call? ==> Unused(Run(w, rest).history, e.sha)))
  }

  /** An operation is always asked for on the same head. */
  predicate OneHeadEach(events: seq<Event>, heads: map<string, Sha>) {
    forall i :: 0 <= i < |events| && events[i].Call? ==>
      events[i].request.operation in heads && heads[events[i].request.operation] == events[i].request.expectedHead
  }

  /** A commit the program made on top of another. */
  predicate MadeOn(job: string, c: Commit, below: Commit, heads: map<string, Sha>) {
    && c.operation.Some? && SafeId(c.operation.value) && c.message == MessageOf(job, c.operation.value)
    && c.parent == below.sha && c.operation.value in heads && heads[c.operation.value] == c.parent
  }

  ghost predicate Grown(w: Worktree, start: Worktree, heads: map<string, Sha>) {
    && w.job == start.job && start.history <= w.history && start.history != [] && Distinct(w.history)
    && forall i :: |start.history| <= i < |w.history| ==> MadeOn(w.job, w.history[i], w.history[i - 1], heads)
  }

  lemma {:induction false} RunGrows(start: Worktree, events: seq<Event>, heads: map<string, Sha>)
    requires start.history != [] && Distinct(start.history)
    requires FreshRun(start, events) && OneHeadEach(events, heads)
    ensures Grown(Run(start, events), start, heads)
  {
    if events != [] {
      var n := |events| - 1;
      RunGrows(start, events[..n], heads);
      assert events[n].Call? ==> events[n].request.operation in heads;
    }
  }

  /** Over any run of calls, crashes and edits, an operation is committed at most once. */
  lemma CommittedOnce(start: Worktree, events: seq<Event>, heads: map<string, Sha>, i: nat, j: nat)
    requires start.history != [] && Distinct(start.history)
    requires FreshRun(start, events) && OneHeadEach(events, heads)
    requires |start.history| <= i < j < |Run(start, events).history|
    ensures Run(start, events).history[i].operation != Run(start, events).history[j].operation
  {
    RunGrows(start, events, heads);
    var history := Run(start, events).history;
    assert history[i - 1].sha != history[j - 1].sha;
  }

  /**
   * On another head the call answers with that head exactly when the head's
   * operation begins with the one asked for.
   */
  lemma AnswerOnOtherHead(
    start: Worktree, events: seq<Event>, heads: map<string, Sha>, request: CommitRequest, sha: Sha, steps: nat)
    requires start.history != [] && Distinct(start.history)
    requires FreshRun(start, events) && OneHeadEach(events, heads)
    requires |Run(start, events).history| > |start.history| && steps >= 2
    requires ValidCommit(Run(start, events), request) && Head(Run(start, events)).sha != request.expectedHead
    ensures Head(Run(start, events)).operation.Some?
    ensures Answer(Run(start, events), request, sha, steps) ==
            Some(if request.operation <= Head(Run(start, events)).operation.value
              then Committed(Head(Run(start, events)).sha)
                 else Conflicting)
  {
    RunGrows(start, events, heads);
    var w := Run(start, events);
    assert MadeOn(w.job, Head(w), w.history[|w.history| - 1 - 1], heads);
    MessageNames(w.job, Head(w).operation.value, request.operation);
  }

  /** A retry after a stop anywhere leaves one commit for the operation and answers with it. */
  lemma RetryCommitsOnce(w: Worktree, request: CommitRequest, first: Sha, second: Sha, steps: nat)
    requires w.history != [] && ValidCommit(w, request) && Head(w).sha == request.expectedHead && w.dirty && w.tidy
    requires IsSha(first) && IsSha(second) && first != request.expectedHead
    ensures var stopped := Effect(w, request, first, steps);
      var after, sha := Effect(stopped, request, second, 6), if steps >= 5 then first else second;
      && after.history == w.history + [Made(w, request, sha)]
      && Answer(stopped, request, second, 6) == Some(Committed(sha))
  {
    var stopped := Effect(w, request, first, steps);
    if steps >= 5 {
      assert Head(stopped) == Made(w, request, first);
      MessageNames(w.job, request.operation, request.operation);
    }
  }

  /** An operation whose name begins another's is taken for it: the answer is a commit made for the other. */
  lemma ShorterNameIsTakenFor(below: Commit, w: Worktree, request: CommitRequest, sha: Sha)
    requires SafeId(w.job) && request == CommitRequest(below.sha, "repair-1") && IsSha(below.sha)
    requires w.history == [below, CommitObject(sha, below.sha, MessageOf(w.job, "repair-10"), Some("repair-10"))]
    requires sha != below.sha
    ensures Answer(w, request, sha, 2) == Some(Committed(sha)) && Head(w).operation != Some(request.operation)
  {
    assert |"repair-1"| == 8 && "repair-10"[8] == '0';
    assert forall i :: 0 <= i < 8 ==> "repair-1"[i] == "repair-10"[i];
    assert |"repair-10"| == 9 && "repair-10"[0] == 'r' && "repair-1"[0] == 'r';
    assert SafeId("repair-10") && SafeId("repair-1");
    MessageNames(w.job, "repair-10", "repair-1");
  }

  // --------------------------------------------------------------- the method

  /** A job's worktree, reached by a program that stops after a number of steps. */
  class Repository {
    var job: string
    var history: seq<Commit>
    var dirty: bool
    var tidy: bool
    var steps: nat

    constructor (w: Worktree, budget: nat)
      ensures Now() == w && steps == budget
    {
      job, history, dirty, tidy := w.job, w.history, w.dirty, w.tidy;
      steps := budget;
    }

    function Now(): Worktree
      reads this
    {
      Worktree(job, history, dirty, tidy)
    }

    method Proceed() returns (ok: bool)
      modifies this`steps
      ensures ok <==> old(steps) > 0
      ensures steps == if old(steps) > 0 then old(steps) - 1 else 0
    {
      if steps == 0 {
        return false;
      }
      steps := steps - 1;
      return true;
    }

    method Commit(request: CommitRequest, sha: Sha) returns (answer: Option<Outcome>)
      requires history != []
      modifies this
      ensures Now() == Effect(old(Now()), request, sha, old(steps))
      ensures answer == Answer(old(Now()), request, sha, old(steps))
    {
      if !SafeId(job) || !IsSha(request.expectedHead) || !SafeId(request.operation) {
        return Some(Rejected);
      }
      var ok := Proceed();
      if !ok {
        return None;
      }
      var head := history[|history| - 1];
      ok := Proceed();
      if !ok {
        return None;
      }
      if head.sha != request.expectedHead {
        if Contains(head.message, TRAILER + request.operation) {
          return Some(Committed(head.sha));
        }
        return Some(Conflicting);
      }
      if !dirty {
        return Some(Committed(head.sha));
      }
      ok := Proceed();
      if !ok {
        return None;
      }
      if !tidy {
        return Some(Untidy);
      }
      ok := Proceed();
      if !ok {
        return None;
      }
      ok := Proceed();
      if !ok {
        return None;
      }
      history := history + [CommitObject(sha, head.sha, MessageOf(job, request.operation), Some(request.operation))];
      dirty := false;
      ok := Proceed();
      if !ok {
        return None;
      }
      return Some(if IsSha(sha) then Committed(sha) else Conflicting);
    }
  }
}
