/**
 * What a call to commit does and answers, said of the worktree, and where the
 * commits of a run come from.
 */
module CommitRules {
  import opened Documents
  import opened GitNames
  import opened WorktreeCommits

  /** The text of a commit made for the job and the operation. */
  function Text(job: string, operation: string): string {
    "maintainer: apply verified job " + job + "\n\nMaintainer-Operation: " + operation
  }

  lemma TextIsMessage(job: string, operation: string)
    ensures Text(job, operation) == MessageOf(job, operation)
  {
    var heading, trailer := "maintainer: apply verified job ", "Maintainer-Operation: ";
    assert "\n\nMaintainer-Operation: " == "\n\n" + trailer;
    assert heading + job + ("\n\n" + trailer) + operation == heading + job + "\n\n" + (trailer + operation);
  }

  /** Three names that are as they should be. */
  predicate WellNamed(w: Worktree, request: CommitRequest) {
    SafeId(request.operation) && SafeId(w.job) && IsSha(request.expectedHead)
  }

  predicate Expected(w: Worktree, request: CommitRequest)
    requires w.history != []
  {
    w.history[|w.history| - 1].sha == request.expectedHead
  }

  /** Something to commit, on the head it was verified on, without whitespace errors. */
  predicate Ready(w: Worktree, request: CommitRequest)
    requires w.history != []
  {
    WellNamed(w, request) && Expected(w, request) && w.dirty && w.tidy
  }

  /** The worktree with one more commit: made on the expected head, naming job and operation, with nothing left over. */
  predicate OneMore(w: Worktree, request: CommitRequest, sha: Sha, after: Worktree) {
    && after.job == w.job && !after.dirty && after.tidy == w.tidy
    && after.history == w.history +
         [CommitObject(sha, request.expectedHead, Text(w.job, request.operation), Some(request.operation))]
  }

  /** A commit is made exactly on the expected head, of a tidy difference, by a call that gets as far. */
  lemma CommitsIff(w: Worktree, request: CommitRequest, sha: Sha, steps: nat)
    requires w.history != []
    ensures var after := Effect(w, request, sha, steps);
      if Ready(w, request) && steps > 4 then OneMore(w, request, sha, after) else after == w
  {
    TextIsMessage(w.job, request.operation);
  }

  /** The head's message names the operation. */
  predicate Recognised(w: Worktree, request: CommitRequest)
    requires w.history != []
  {
    Contains(w.history[|w.history| - 1].message, "Maintainer-Operation: " + request.operation)
  }

  /** The answer of a call, case by case. */
  lemma AnswersAre(w: Worktree, request: CommitRequest, sha: Sha, steps: nat)
    requires w.history != []
    ensures var answer, found := Answer(w, request, sha, steps), steps > 1 && WellNamed(w, request);
      && (answer == Some(Rejected) <==> !WellNamed(w, request))
      && (answer == Some(Untidy) <==> found && Expected(w, request) && w.dirty && !w.tidy && steps > 2)
      && (answer == Some(Conflicting) <==>
            && found
            && if Expected(w, request) then w.dirty && w.tidy && steps > 5 && !IsSha(sha)
               else !Recognised(w, request))
      && (answer == None <==>
            && WellNamed(w, request)
            && (steps < 2 || (Expected(w, request) && w.dirty && (steps < 3 || (w.tidy && steps < 6)))))
  {
  }

  /** A call that answers with a commit leaves that commit at the head. */
  lemma AnswerIsHead(w: Worktree, request: CommitRequest, sha: Sha, steps: nat, named: Sha)
    requires w.history != [] && Answer(w, request, sha, steps) == Some(Committed(named))
    ensures var after := Effect(w, request, sha, steps);
      && after.history != [] && after.history[|after.history| - 1].sha == named
      && (named == request.expectedHead || Recognised(w, request) || OneMore(w, request, sha, after))
  {
    CommitsIff(w, request, sha, steps);
  }

  /** The event makes the commit, on a worktree that is ready for it. */
  predicate MakesOn(w: Worktree, e: Event, c: Commit)
    requires w.history != []
  {
    && e.Call? && e.steps > 4 && Ready(w, e.request)
    && c == CommitObject(e.sha, e.request.expectedHead, Text(w.job, e.request.operation), Some(e.request.operation))
  }

  /** Some event of the run makes the commit. */
  ghost predicate MadeInRun(start: Worktree, events: seq<Event>, c: Commit)
    requires start.history != []
  {
    exists n :: 0 <= n < |events| && MakesOn(Run(start, events[..n]), events[n], c)
  }

  lemma MadeEarlier(start: Worktree, events: seq<Event>, c: Commit)
    requires start.history != [] && events != [] && MadeInRun(start, events[..|events| - 1], c)
    ensures MadeInRun(start, events, c)
  {
    var rest := events[..|events| - 1];
    var n :| 0 <= n < |rest| && MakesOn(Run(start, rest[..n]), rest[n], c);
    assert rest[..n] == events[..n] && rest[n] == events[n];
  }

  /**
   * Every commit of a run was there before it or was made by a call that found
   * its expected head and a tidy difference, and carries that call's names; none
   * that was there is lost.
   */
  lemma {:induction false} CommitsComeFromCalls(start: Worktree, events: seq<Event>, k: nat)
    requires start.history != [] && k < |Run(start, events).history|
    ensures |start.history| <= |Run(start, events).history|
    ensures k < |start.history| ==> Run(start, events).history[k] == start.history[k]
    ensures k >= |start.history| ==> MadeInRun(start, events, Run(start, events).history[k])
  {
    if events != [] {
      var n := |events| - 1;
      var before, e := Run(start, events[..n]), events[n];
      if e.Call? { CommitsIff(before, e.request, e.sha, e.steps); }
      CommitsComeFromCalls(start, events[..n], if k < |before.history| then k else 0);
      if k < |before.history| {
        if k >= |start.history| { MadeEarlier(start, events, before.history[k]); }
      } else {
        assert MakesOn(before, e, Run(start, events).history[k]);
      }
    }
  }

  /** In any run, a call stopped anywhere and its retry come to one commit where something was ready. */
  lemma RetryInRun(start: Worktree, events: seq<Event>, request: CommitRequest, first: Sha, second: Sha, steps: nat)
    requires start.history != [] && Ready(Run(start, events), request)
    requires IsSha(first) && IsSha(second) && first != request.expectedHead
    ensures var before, after := Run(start, events),
                Run(start, events + [Call(request, first, steps), Call(request, second, 6)]);
      OneMore(before, request, if steps > 4 then first else second, after)
  {
    var w := Run(start, events);
    var once := events + [Call(request, first, steps)];
    var twice := events + [Call(request, first, steps), Call(request, second, 6)];
    assert once[..|once| - 1] == events && twice[..|twice| - 1] == once;
    assert Run(start, once) == Effect(w, request, first, steps);
    assert Run(start, twice) == Effect(Run(start, once), request, second, 6);
    CommitsIff(w, request, first, steps);
    CommitsIff(Run(start, once), request, second, 6);
  }
}
