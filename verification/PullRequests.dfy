/**
 * How many pull requests the program opens for a job's branch, whatever crashes,
 * whatever others do, and whatever the forge accepts.
 */
module PullRequests {
  import opened GitNames
  import opened Publication

  // ------------------------------------------------------ what a look-up sees

  /** How many of the first n pull requests are open from the branch to the base. */
  function Crowd(pulls: seq<Pull>, n: nat, head: string, base: string): nat
    requires n <= |pulls|
  {
    if n == 0 then 0 else Crowd(pulls, n - 1, head, base) + if Competing(pulls[n - 1], head, base) then 1 else 0
  }

  lemma {:induction false} CrowdGrows(pulls: seq<Pull>, m: nat, n: nat, head: string, base: string)
    requires m <= n <= |pulls|
    ensures Crowd(pulls, m, head, base) <= Crowd(pulls, n, head, base)
    decreases n
  {
    if m < n { CrowdGrows(pulls, m, n - 1, head, base); }
  }

  /** A pull request is listed exactly when it competes and fewer newer ones do than there is room. */
  lemma {:induction false} ListedIff(pulls: seq<Pull>, n: nat, room: nat, head: string, base: string, k: nat)
    requires k < n <= |pulls|
    ensures k in Listed(pulls, n, room, head, base) <==>
            Competing(pulls[k], head, base) && Crowd(pulls, n, head, base) - Crowd(pulls, k + 1, head, base) < room
  {
    CrowdGrows(pulls, k + 1, n, head, base);
    if room > 0 {
      var competes := Competing(pulls[n - 1], head, base);
      var rest := Listed(pulls, n - 1, if competes then room - 1 else room, head, base);
      if k < n - 1 {
        ListedIff(pulls, n - 1, if competes then room - 1 else room, head, base, k);
        assert competes ==> Listed(pulls, n, room, head, base) == [n - 1] + rest;
      } else {
        assert forall i :: 0 <= i < |rest| ==> rest[i] < n - 1;
      }
    }
  }

  /** The look-up finds a pull request exactly when a marked one has fewer than ten newer ones before it. */
  lemma FindsIff(pulls: seq<Pull>, head: string, base: string, marker: string)
    ensures FindOpen(pulls, head, base, marker).Some? <==>
            exists k :: 0 <= k < |pulls| && Visible(pulls, k, head, base) && Contains(pulls[k].body, marker)
  {
    var listed := Listed(pulls, |pulls|, PAGE, head, base);
    forall k | 0 <= k < |pulls| ensures k in listed <==> Visible(pulls, k, head, base) {
      ListedIff(pulls, |pulls|, PAGE, head, base, k);
    }
  }

  predicate Visible(pulls: seq<Pull>, k: nat, head: string, base: string)
    requires k < |pulls|
  {
    Competing(pulls[k], head, base) && Crowd(pulls, |pulls|, head, base) - Crowd(pulls, k + 1, head, base) < PAGE
  }

  /** No pull request with the marker is among the ten newest that compete. */
  predicate NoneVisible(pulls: seq<Pull>, head: string, base: string, marker: string) {
    forall k :: 0 <= k < |pulls| && Visible(pulls, k, head, base) ==> !Contains(pulls[k].body, marker)
  }

  predicate NoneVisibleFor(project: Project, pulls: seq<Pull>, job: string) {
    NoneVisible(pulls, BranchOf(job), project.defaultBranch, MarkerOf(job))
  }

  /**
   * A call that may publish opens a pull request, where the forge takes one,
   * exactly when it can see none with its marker.
   */
  lemma OpensIff(project: Project, world: World, request: Request, misread: bool)
    requires Accepted(project, world, request, misread) && KeyUsable(project, request)
    ensures var outcome := Publication.Result(project, world, request, misread).1;
      && (outcome.Existing? <==> !NoneVisibleFor(project, world.pulls, request.job))
      && (outcome.Opened? <==>
            && NoneVisibleFor(project, world.pulls, request.job)
            && !project.refuses(world.pulls, BranchOf(request.job), project.defaultBranch))
  {
    ResultAccepted(project, world, request, misread);
    FindsIff(world.pulls, BranchOf(request.job), project.defaultBranch, MarkerOf(request.job));
  }

  // ------------------------------------------------------------------- counts

  /** Pull requests the program has opened for the branch, among the first n. */
  function OpenedFor(pulls: seq<Pull>, n: nat, branch: string): nat
    requires n <= |pulls|
  {
    if n == 0 then 0
    else OpenedFor(pulls, n - 1, branch) + One(pulls[n - 1].ours && pulls[n - 1].head == branch)
  }

  /** Those of them that stand. */
  function Standing(project: Project, pulls: seq<Pull>, n: nat, branch: string): nat
    requires n <= |pulls|
  {
    if n == 0 then 0
    else Standing(project, pulls, n - 1, branch) + One(StandsFor(project, pulls[n - 1], branch))
  }

  predicate StandsFor(project: Project, p: Pull, branch: string) {
    Stands(project, p) && p.head == branch
  }

  function One(b: bool): nat {
    if b then 1 else 0
  }

  function Occurrences(log: seq<string>, branch: string): nat {
    if log == [] then 0
    else Occurrences(log[..|log| - 1], branch) + if log[|log| - 1] == branch then 1 else 0
  }

  lemma {:induction false} CountsOfPrefix(project: Project, a: seq<Pull>, b: seq<Pull>, n: nat, branch: string)
    requires n <= |a| && n <= |b| && forall i :: 0 <= i < n ==> a[i] == b[i]
    ensures OpenedFor(a, n, branch) == OpenedFor(b, n, branch)
    ensures Standing(project, a, n, branch) == Standing(project, b, n, branch)
  {
    if n > 0 { CountsOfPrefix(project, a, b, n - 1, branch); }
  }

  lemma {:induction false} CountsOfUpdate(project: Project, pulls: seq<Pull>, n: nat, i: nat, p: Pull, branch: string)
    requires i < n <= |pulls| && p.ours == pulls[i].ours && p.head == pulls[i].head
    ensures OpenedFor(pulls[i := p], n, branch) == OpenedFor(pulls, n, branch)
    ensures Standing(project, pulls[i := p], n, branch) + One(StandsFor(project, pulls[i], branch)) ==
            Standing(project, pulls, n, branch) + One(StandsFor(project, p, branch))
  {
    if i < n - 1 {
      CountsOfUpdate(project, pulls, n - 1, i, p, branch);
    } else {
      CountsOfPrefix(project, pulls, pulls[i := p], n - 1, branch);
    }
  }

  lemma {:induction false} NoneStanding(project: Project, pulls: seq<Pull>, n: nat, branch: string)
    requires n <= |pulls| && forall i :: 0 <= i < n ==> !StandsFor(project, pulls[i], branch)
    ensures Standing(project, pulls, n, branch) == 0
  {
    if n > 0 { NoneStanding(project, pulls, n - 1, branch); }
  }

  /** Everything opened for the branch still stands or was released. */
  predicate Accounted(project: Project, world: World, branch: string) {
    OpenedFor(world.pulls, |world.pulls|, branch) <=
    Occurrences(world.released, branch) + Standing(project, world.pulls, |world.pulls|, branch)
  }

  /** At most so many more were opened than released. */
  predicate Ahead(world: World, branch: string, more: nat) {
    OpenedFor(world.pulls, |world.pulls|, branch) <= Occurrences(world.released, branch) + more
  }

  lemma JobOfBranch(job: string)
    ensures JobOf(BranchOf(job)) == job
  {
  }

  lemma StandingIsVisible(project: Project, pulls: seq<Pull>, i: nat, job: string)
    requires i < |pulls| && Crowd(pulls, |pulls|, BranchOf(job), project.defaultBranch) <= PAGE
    ensures StandsFor(project, pulls[i], BranchOf(job)) ==>
      Visible(pulls, i, BranchOf(job), project.defaultBranch) && Contains(pulls[i].body, MarkerOf(job))
  {
    JobOfBranch(job);
    if StandsFor(project, pulls[i], BranchOf(job)) {
      assert Crowd(pulls, i + 1, BranchOf(job), project.defaultBranch) >= 1;
    }
  }

  predicate SomeStands(project: Project, pulls: seq<Pull>, branch: string) {
    exists i :: 0 <= i < |pulls| && StandsFor(project, pulls[i], branch)
  }

  /** One of the job's pull requests stands, and every one with the marker has ten newer ones before it. */
  predicate Overlooked(project: Project, pulls: seq<Pull>, job: string) {
    SomeStands(project, pulls, BranchOf(job)) && NoneVisibleFor(project, pulls, job)
  }

  /** A look-up that finds nothing has shown that nothing stands, unless ten others hide it. */
  lemma NothingFound(project: Project, pulls: seq<Pull>, job: string)
    requires FindOpen(pulls, BranchOf(job), project.defaultBranch, MarkerOf(job)).None?
    requires !Overlooked(project, pulls, job)
    ensures Standing(project, pulls, |pulls|, BranchOf(job)) == 0
  {
    FindsIff(pulls, BranchOf(job), project.defaultBranch, MarkerOf(job));
    NoneStanding(project, pulls, |pulls|, BranchOf(job));
  }

  /** Where no more than ten compete, nothing is overlooked. */
  lemma FewOverlookNothing(project: Project, pulls: seq<Pull>, job: string)
    requires Crowd(pulls, |pulls|, BranchOf(job), project.defaultBranch) <= PAGE
    ensures !Overlooked(project, pulls, job)
  {
    if i :| 0 <= i < |pulls| && StandsFor(project, pulls[i], BranchOf(job)) {
      StandingIsVisible(project, pulls, i, job);
    }
  }

  // --------------------------------------------------------------- one event

  lemma AppendCounts(project: Project, pulls: seq<Pull>, p: Pull, branch: string)
    ensures var all := pulls + [p];
      && OpenedFor(all, |all|, branch) == OpenedFor(pulls, |pulls|, branch) + One(p.ours && p.head == branch)
      && Standing(project, all, |all|, branch) ==
           Standing(project, pulls, |pulls|, branch) + One(StandsFor(project, p, branch))
  {
    CountsOfPrefix(project, pulls, pulls + [p], |pulls|, branch);
  }

  lemma NewPullStands(project: Project, request: Request, branch: string)
    ensures StandsFor(project, NewPull(project, request), branch) <==> BranchOf(request.job) == branch
  {
    DescriptionMarked(project, request);
    JobOfBranch(request.job);
  }

  lemma OneRelease(released: seq<string>, head: string, branch: string)
    ensures Occurrences(released + [head], branch) == Occurrences(released, branch) + One(head == branch)
  {
    assert (released + [head])[..|released|] == released;
  }

  /** Replacing a pull request changes the accounts by what it logs. */
  lemma ReplacedCounts(project: Project, world: World, i: nat, p: Pull, branch: string)
    requires i < |world.pulls| && p.ours == world.pulls[i].ours && p.head == world.pulls[i].head
    ensures var after := Replaced(project, world, i, p);
      && OpenedFor(after.pulls, |after.pulls|, branch) == OpenedFor(world.pulls, |world.pulls|, branch)
      && Occurrences(after.released, branch) >= Occurrences(world.released, branch)
      && (Accounted(project, world, branch) ==> Accounted(project, after, branch))
  {
    CountsOfUpdate(project, world.pulls, |world.pulls|, i, p, branch);
    OneRelease(world.released, world.pulls[i].head, branch);
  }

  /** What others do opens nothing for the program and undoes no release. */
  lemma ChangeCounts(project: Project, world: World, change: Change, branch: string)
    ensures var after := Changed(project, world, change);
      && OpenedFor(after.pulls, |after.pulls|, branch) == OpenedFor(world.pulls, |world.pulls|, branch)
      && Occurrences(after.released, branch) >= Occurrences(world.released, branch)
      && (Accounted(project, world, branch) ==> Accounted(project, after, branch))
  {
    var pulls := world.pulls;
    match change
    case SetRef(_, _) =>
    case DropRef(_) =>
    case Close(i) => if i < |pulls| { ReplacedCounts(project, world, i, pulls[i].(open := false), branch); }
    case Reopen(i) => if i < |pulls| { ReplacedCounts(project, world, i, pulls[i].(open := true), branch); }
    case Edit(i, body) => if i < |pulls| { ReplacedCounts(project, world, i, pulls[i].(body := body), branch); }
    case Retarget(i, base) => if i < |pulls| { ReplacedCounts(project, world, i, pulls[i].(base := base), branch); }
    case OpenOther(head, base, body) =>
      AppendCounts(project, pulls, Pull(head, base, body, true, false, false), branch);
  }

  /** The call has looked and found none of the job's pull requests standing. */
  predicate Cleared(s: System, job: string) {
    s.call.Some? && s.call.value.phase.NoneOpen? && s.call.value.request.job == job
  }

  predicate Bounded(project: Project, s: System, job: string) {
    && Accounted(project, s.world, BranchOf(job))
    && Ahead(s.world, BranchOf(job), if Cleared(s, job) then 0 else 1)
  }

  /** The event is a look-up for the job that overlooks a pull request of its own. */
  predicate Overlooks(project: Project, s: System, e: Event, job: string) {
    && e.Step? && s.call.Some? && s.call.value.phase.BranchRight? && s.call.value.request.job == job
    && Overlooked(project, s.world.pulls, job)
  }

  lemma OtherStepsOpenNothing(project: Project, world: World, call: Call)
    ensures var (after, next) := Next(project, world, call);
      && (!call.phase.NoneOpen? ==> after.pulls == world.pulls)
      && after.released == world.released && next.request == call.request
      && (next.phase.NoneOpen? ==> call.phase.BranchRight? && Found(project, world.pulls, call.request).None?)
  {
  }

  lemma PostBounded(project: Project, world: World, request: Request, job: string)
    requires Accounted(project, world, BranchOf(job)) &&
             Ahead(world, BranchOf(job), if request.job == job then 0 else 1)
    ensures Accounted(project, Posted(project, world, request), BranchOf(job))
    ensures Ahead(Posted(project, world, request), BranchOf(job), 1)
  {
    BranchesApart(request.job, job);
    NewPullStands(project, request, BranchOf(job));
    AppendCounts(project, world.pulls, NewPull(project, request), BranchOf(job));
  }

  lemma StepBounded(project: Project, s: System, job: string)
    requires Bounded(project, s, job) && s.call.Some? && !Overlooks(project, s, Step, job)
    ensures Bounded(project, After(project, s, Step), job)
  {
    var call, world := s.call.value, s.world;
    OtherStepsOpenNothing(project, world, call);
    if call.phase.NoneOpen? {
      PostBounded(project, world, call.request, job);
    } else if call.phase.BranchRight? && call.request.job == job && Found(project, world.pulls, call.request).None? {
      NothingFound(project, world.pulls, job);
    }
  }

  lemma BranchesApart(a: string, b: string)
    ensures BranchOf(a) == BranchOf(b) <==> a == b
  {
    JobOfBranch(a);
    JobOfBranch(b);
  }

  lemma EventBounded(project: Project, s: System, e: Event, job: string)
    requires Bounded(project, s, job) && !Overlooks(project, s, e, job)
    ensures Bounded(project, After(project, s, e), job)
  {
    match e
    case Step => if s.call.Some? { StepBounded(project, s, job); }
    case Outside(change) => ChangeCounts(project, s.world, change, BranchOf(job));
    case Start(_, _) =>
    case Crash =>
    case Work(_) =>
  }

  // ------------------------------------------------------------ main theorems

  /** No look-up for the job overlooks one of its own. */
  predicate NothingOverlooked(project: Project, s: System, events: seq<Event>, job: string) {
    events == [] ||
    (var before := events[..|events| - 1];
     && NothingOverlooked(project, s, before, job)
     && !Overlooks(project, Run(project, s, before), events[|events| - 1], job))
  }

  lemma {:induction false} RunBounded(project: Project, s: System, events: seq<Event>, job: string)
    requires Bounded(project, s, job) && NothingOverlooked(project, s, events, job)
    ensures Bounded(project, Run(project, s, events), job)
  {
    if events != [] {
      var before := events[..|events| - 1];
      RunBounded(project, s, before, job);
      EventBounded(project, Run(project, s, before), events[|events| - 1], job);
    }
  }

  /**
   * Over any run of calls, crashes and changes by others, and whatever second
   * pull requests the forge accepts, the program has opened at most one more
   * pull request for a job than were released: closed, retargeted or robbed of
   * their marker.
   */
  lemma PullRequestsBounded(project: Project, s: System, events: seq<Event>, job: string)
    requires s.call.None? && OpenedFor(s.world.pulls, |s.world.pulls|, BranchOf(job)) == 0
    requires NothingOverlooked(project, s, events, job)
    ensures var world := Run(project, s, events).world;
      OpenedFor(world.pulls, |world.pulls|, BranchOf(job)) <= Occurrences(world.released, BranchOf(job)) + 1
  {
    RunBounded(project, s, events, job);
  }

  // ---------------------------------------- a forge that keeps one open at most

  predicate NoRivals(pulls: seq<Pull>) {
    forall i, j :: 0 <= i < j < |pulls| ==>
      !(pulls[i].open && pulls[j].open && pulls[i].head == pulls[j].head && pulls[i].base == pulls[j].base)
  }

  /** The forge refuses a second open pull request from a branch to a base. */
  ghost predicate KeepsOne(project: Project) {
    forall pulls, head, base :: SomeCompeting(pulls, head, base) ==> project.refuses(pulls, head, base)
  }

  lemma {:induction false} CrowdOfOne(pulls: seq<Pull>, n: nat, head: string, base: string)
    requires n <= |pulls| && NoRivals(pulls)
    ensures Crowd(pulls, n, head, base) <= 1
    ensures Crowd(pulls, n, head, base) == 1 ==> exists i :: 0 <= i < n && Competing(pulls[i], head, base)
  {
    if n > 0 { CrowdOfOne(pulls, n - 1, head, base); }
  }

  lemma AloneKept(pulls: seq<Pull>, i: nat, p: Pull)
    requires NoRivals(pulls) && i < |pulls|
    requires p.open ==> !SomeCompeting(pulls, p.head, p.base) ||
                        (pulls[i].open && p.head == pulls[i].head && p.base == pulls[i].base)
    ensures NoRivals(pulls[i := p])
  {
    var after := pulls[i := p];
    forall j, k | 0 <= j < k < |after|
      ensures !(after[j].open && after[k].open && after[j].head == after[k].head && after[j].base == after[k].base)
    {
      if j == i && p.open && !SomeCompeting(pulls, p.head, p.base) { assert !Competing(pulls[k], p.head, p.base); }
      if k == i && p.open && !SomeCompeting(pulls, p.head, p.base) { assert !Competing(pulls[j], p.head, p.base); }
    }
  }

  lemma AppendKept(pulls: seq<Pull>, p: Pull)
    requires NoRivals(pulls) && !SomeCompeting(pulls, p.head, p.base)
    ensures NoRivals(pulls + [p])
  {
    forall j | 0 <= j < |pulls| ensures !(pulls[j].open && pulls[j].head == p.head && pulls[j].base == p.base) {
      assert !Competing(pulls[j], p.head, p.base);
    }
  }

  lemma TakenMeansFree(project: Project, pulls: seq<Pull>, head: string, base: string)
    requires KeepsOne(project) && !project.refuses(pulls, head, base)
    ensures !SomeCompeting(pulls, head, base)
  {
  }

  lemma PostKeepsOne(project: Project, world: World, request: Request)
    requires KeepsOne(project) && NoRivals(world.pulls)
    requires !project.refuses(world.pulls, BranchOf(request.job), project.defaultBranch)
    ensures NoRivals(Posted(project, world, request).pulls)
  {
    TakenMeansFree(project, world.pulls, BranchOf(request.job), project.defaultBranch);
    AppendKept(world.pulls, NewPull(project, request));
  }

  lemma StepKeepsOne(project: Project, world: World, call: Call)
    requires KeepsOne(project) && NoRivals(world.pulls)
    ensures NoRivals(Next(project, world, call).0.pulls)
  {
    OtherStepsOpenNothing(project, world, call);
    if call.phase.NoneOpen? && !project.refuses(world.pulls, BranchOf(call.request.job), project.defaultBranch) {
      PostKeepsOne(project, world, call.request);
    }
  }

  lemma EventKeepsOne(project: Project, s: System, e: Event)
    requires KeepsOne(project) && NoRivals(s.world.pulls)
    ensures NoRivals(After(project, s, e).world.pulls)
  {
    match e
    case Step => if s.call.Some? { StepKeepsOne(project, s.world, s.call.value); }
    case Outside(change) => ChangeKeepsOne(project, s.world, change);
    case Start(_, _) =>
    case Crash =>
    case Work(_) =>
  }

  lemma ChangeKeepsOne(project: Project, world: World, change: Change)
    requires KeepsOne(project) && NoRivals(world.pulls)
    ensures NoRivals(Changed(project, world, change).pulls)
  {
    var pulls := world.pulls;
    match change
    case SetRef(_, _) =>
    case DropRef(_) =>
    case Close(i) => if i < |pulls| { AloneKept(pulls, i, pulls[i].(open := false)); }
    case Reopen(i) =>
      if i < |pulls| && !project.refuses(pulls, pulls[i].head, pulls[i].base) {
        AloneKept(pulls, i, pulls[i].(open := true));
      }
    case Edit(i, body) => if i < |pulls| { AloneKept(pulls, i, pulls[i].(body := body)); }
    case Retarget(i, base) =>
      if i < |pulls| && !project.refuses(pulls, pulls[i].head, base) { AloneKept(pulls, i, pulls[i].(base := base)); }
    case OpenOther(head, base, body) =>
      if !project.refuses(pulls, head, base) { AppendKept(pulls, Pull(head, base, body, true, false, false)); }
  }

  lemma {:induction false} RunKeepsOne(project: Project, s: System, events: seq<Event>, job: string)
    requires KeepsOne(project) && NoRivals(s.world.pulls)
    ensures NoRivals(Run(project, s, events).world.pulls) && NothingOverlooked(project, s, events, job)
  {
    if events != [] {
      var before := events[..|events| - 1];
      RunKeepsOne(project, s, before, job);
      var middle := Run(project, s, before);
      EventKeepsOne(project, middle, events[|events| - 1]);
      CrowdOfOne(middle.world.pulls, |middle.world.pulls|, BranchOf(job), project.defaultBranch);
      FewOverlookNothing(project, middle.world.pulls, job);
    }
  }

  /**
   * On a forge that keeps one pull request open at most, nothing is overlooked, and
   * one at most is open for the job.
   */
  lemma OneOpenAtMost(project: Project, s: System, events: seq<Event>, job: string)
    requires KeepsOne(project) && NoRivals(s.world.pulls)
    requires s.call.None? && OpenedFor(s.world.pulls, |s.world.pulls|, BranchOf(job)) == 0
    ensures var world := Run(project, s, events).world;
      && Crowd(world.pulls, |world.pulls|, BranchOf(job), project.defaultBranch) <= 1
      && OpenedFor(world.pulls, |world.pulls|, BranchOf(job)) <= Occurrences(world.released, BranchOf(job)) + 1
  {
    RunKeepsOne(project, s, events, job);
    PullRequestsBounded(project, s, events, job);
    var pulls := Run(project, s, events).world.pulls;
    CrowdOfOne(pulls, |pulls|, BranchOf(job), project.defaultBranch);
  }

  // ---------------------------------------------------------- what is overlooked

  /** An overlooked pull request gets a second one beside it, where the forge takes it. */
  lemma OverlookedGetsSecond(project: Project, world: World, request: Request, misread: bool)
    requires Accepted(project, world, request, misread) && KeyUsable(project, request)
    requires Overlooked(project, world.pulls, request.job)
    requires !project.refuses(world.pulls, BranchOf(request.job), project.defaultBranch)
    ensures var (after, outcome) := Publication.Result(project, world, request, misread);
      outcome.Opened? && Standing(project, after.pulls, |after.pulls|, BranchOf(request.job)) >= 2
  {
    var branch := BranchOf(request.job);
    ResultAccepted(project, world, request, misread);
    OpensIff(project, world, request, misread);
    SomeStanding(project, world.pulls, |world.pulls|, branch);
    NewPullStands(project, request, branch);
    AppendCounts(project, world.pulls, NewPull(project, request), branch);
  }

  lemma {:induction false} SomeStanding(project: Project, pulls: seq<Pull>, n: nat, branch: string)
    requires n <= |pulls| && exists i :: 0 <= i < n && StandsFor(project, pulls[i], branch)
    ensures Standing(project, pulls, n, branch) >= 1
  {
    if !StandsFor(project, pulls[n - 1], branch) { SomeStanding(project, pulls, n - 1, branch); }
  }

  /**
   * One of the program's pull requests that stands, followed by ten of others' from
   * the same branch without its marker.
   */
  predicate HiddenBehindTen(project: Project, pulls: seq<Pull>, job: string) {
    && |pulls| == 11 && StandsFor(project, pulls[0], BranchOf(job))
    && forall i :: 1 <= i < 11 ==>
         Competing(pulls[i], BranchOf(job), project.defaultBranch) && !Contains(pulls[i].body, MarkerOf(job))
  }

  lemma {:induction false} CrowdOfAll(pulls: seq<Pull>, n: nat, head: string, base: string)
    requires n <= |pulls| && forall i :: 0 <= i < n ==> Competing(pulls[i], head, base)
    ensures Crowd(pulls, n, head, base) == n
  {
    if n > 0 { CrowdOfAll(pulls, n - 1, head, base); }
  }

  /** Behind ten others the program's pull request is overlooked. */
  lemma CrowdHidesOwn(project: Project, pulls: seq<Pull>, job: string)
    requires HiddenBehindTen(project, pulls, job)
    ensures Overlooked(project, pulls, job)
  {
    CrowdOfAll(pulls, 1, BranchOf(job), project.defaultBranch);
    CrowdOfAll(pulls, 11, BranchOf(job), project.defaultBranch);
    assert !Visible(pulls, 0, BranchOf(job), project.defaultBranch);
  }
}
