/**
 * What one call to publish comes to, said of the request, the forge's branches
 * and its pull requests.
 */
module PublicationRules {
  import opened Documents
  import opened GitNames
  import opened Publication
  import opened DraftPullRequests
  import opened PullRequests

  predicate WellFormed(request: Request) {
    IsSha(request.resultSha) && IsSha(request.baseSha) && SafeId(request.job)
  }

  /** The default branch is where the request says the work began. */
  predicate UpstreamStands(project: Project, world: World, request: Request) {
    project.defaultBranch in world.refs && world.refs[project.defaultBranch] == request.baseSha
  }

  /** The job's branch is there and is not at the approved result. */
  predicate BranchElsewhere(world: World, request: Request) {
    "maintainer/" + request.job in world.refs && world.refs["maintainer/" + request.job] != request.resultSha
  }

  /** The upstream, the worktree and the job's branch let the call push, whether or not it could read the branch. */
  predicate LetsPush(project: Project, world: World, request: Request, misread: bool) {
    && WellFormed(request) && UpstreamStands(project, world, request) && world.head == request.resultSha
    && (BranchElsewhere(world, request) ==>
          misread && project.descends(world.refs["maintainer/" + request.job], request.resultSha))
  }

  /** Names that a pull request can be asked for with. */
  predicate Nameable(project: Project, request: Request) {
    |request.job| < 117 && !Contains(request.job, "..") && !Contains(project.defaultBranch, "..")
  }

  /** Newer pull requests that are open from the job's branch to the default branch. */
  function Rivals(project: Project, pulls: seq<Pull>, k: nat, job: string): set<nat>
    requires k < |pulls|
  {
    set j: nat | k < j < |pulls| && Rival(project, pulls[j], job)
  }

  predicate Rival(project: Project, p: Pull, job: string) {
    p.open && p.head == "maintainer/" + job && p.base == project.defaultBranch
  }

  /** A pull request for the job stands behind fewer than ten rivals. */
  predicate InSight(project: Project, pulls: seq<Pull>, job: string) {
    exists k :: 0 <= k < |pulls| && IsForJob(project, pulls[k], job) && |Rivals(project, pulls, k, job)| < 10
  }

  lemma OneMoreRival(before: set<nat>, now: set<nat>, n: nat, joins: bool)
    requires n !in before && now == (if joins then before + {n} else before)
    ensures |now| == |before| + if joins then 1 else 0
  {
  }

  function RivalsBelow(project: Project, pulls: seq<Pull>, k: nat, n: nat, job: string): set<nat>
    requires k < n <= |pulls|
  {
    set j: nat | k < j < n && Rival(project, pulls[j], job)
  }

  lemma RivalsNext(project: Project, pulls: seq<Pull>, k: nat, n: nat, job: string)
    requires k < n < |pulls|
    ensures |RivalsBelow(project, pulls, k, n + 1, job)| ==
            |RivalsBelow(project, pulls, k, n, job)| + if Rival(project, pulls[n], job) then 1 else 0
  {
    OneMoreRival(RivalsBelow(project, pulls, k, n, job), RivalsBelow(project, pulls, k, n + 1, job), n,
                 Rival(project, pulls[n], job));
  }

  lemma {:induction false} CrowdCounts(project: Project, pulls: seq<Pull>, k: nat, n: nat, job: string)
    requires k < n <= |pulls|
    ensures Crowd(pulls, n, "maintainer/" + job, project.defaultBranch) -
            Crowd(pulls, k + 1, "maintainer/" + job, project.defaultBranch) == |RivalsBelow(project, pulls, k, n, job)|
    decreases n
  {
    if n == k + 1 {
      assert RivalsBelow(project, pulls, k, n, job) == {};
    } else {
      CrowdCounts(project, pulls, k, n - 1, job);
      RivalsNext(project, pulls, k, n - 1, job);
    }
  }

  lemma SightIff(project: Project, pulls: seq<Pull>, job: string)
    ensures InSight(project, pulls, job) <==>
            FindOpen(pulls, "maintainer/" + job, project.defaultBranch,
                     "<!-- maintainer-operation:" + job + "_publication -->").Some?
  {
    FindsIff(pulls, "maintainer/" + job, project.defaultBranch,
             "<!-- maintainer-operation:" + job + "_publication -->");
    forall k | 0 <= k < |pulls|
      ensures IsForJob(project, pulls[k], job) && |Rivals(project, pulls, k, job)| < 10 <==>
              Visible(pulls, k, "maintainer/" + job, project.defaultBranch) &&
              Contains(pulls[k].body, "<!-- maintainer-operation:" + job + "_publication -->")
    {
      CrowdCounts(project, pulls, k, |pulls|, job);
      assert Rivals(project, pulls, k, job) == RivalsBelow(project, pulls, k, |pulls|, job);
    }
  }

  lemma FoundIff(project: Project, pulls: seq<Pull>, request: Request)
    ensures Found(project, pulls, request).Some? <==> InSight(project, pulls, request.job)
  {
    MarkerReads(request.job);
    SightIff(project, pulls, request.job);
  }

  /** What a call comes to, outcome by outcome. */
  lemma OutcomeIff(project: Project, world: World, request: Request, misread: bool)
    requires ValidProject(project)
    ensures var outcome := Publication.Result(project, world, request, misread).1;
      var lets, seen := LetsPush(project, world, request, misread), InSight(project, world.pulls, request.job);
      var refused := project.refuses(world.pulls, "maintainer/" + request.job, project.defaultBranch);
      && (outcome == Rejected <==> !WellFormed(request))
      && (outcome == UpstreamMoved <==> WellFormed(request) && !UpstreamStands(project, world, request))
      && (outcome == PushRefused <==>
            && WellFormed(request) && UpstreamStands(project, world, request) && world.head == request.resultSha
            && misread && !lets)
      && (outcome == UnusableKey <==> lets && !Nameable(project, request))
      && (outcome.Existing? <==> lets && Nameable(project, request) && seen)
      && (outcome.Opened? <==> lets && Nameable(project, request) && !seen && !refused)
  {
    FoundIff(project, world.pulls, request);
    if SafeId(request.job) { KeyUsableIff(project, request); }
  }

  /** A conflict is a worktree elsewhere, a branch elsewhere, or a pull request refused and none in sight. */
  lemma ConflictIff(project: Project, world: World, request: Request, misread: bool)
    requires ValidProject(project)
    ensures Publication.Result(project, world, request, misread).1 == Conflict <==>
      && WellFormed(request) && UpstreamStands(project, world, request)
      && (|| world.head != request.resultSha
          || (!misread && BranchElsewhere(world, request))
          || (LetsPush(project, world, request, misread) && Nameable(project, request)
              && !InSight(project, world.pulls, request.job)
              && project.refuses(world.pulls, "maintainer/" + request.job, project.defaultBranch)))
  {
    OutcomeIff(project, world, request, misread);
  }

  lemma AcceptedIff(project: Project, world: World, request: Request, misread: bool)
    ensures Accepted(project, world, request, misread) <==> LetsPush(project, world, request, misread)
  {
  }

  /** A push puts the branch at the worktree's head, and is logged when it was not there. */
  predicate Moves(before: World, after: World, request: Request) {
    var branch := "maintainer/" + request.job;
    && after.refs == before.refs[branch := before.head]
    && after.pushes == before.pushes +
         if branch in before.refs && before.refs[branch] == before.head then []
         else [Push(branch, before.head, request)]
  }

  lemma PushMoves(world: World, request: Request)
    ensures Moves(world, Pushed(world, request), request)
  {
  }

  lemma OpeningMovesNothing(project: Project, world: World, request: Request)
    ensures var after := Opening(project, world, request).0;
      && after.head == world.head && after.released == world.released
      && after.refs == world.refs && after.pushes == world.pushes
  {
  }

  /** The job's branch is at the approved result exactly after a call that may push; nothing else moves. */
  lemma BranchAfter(project: Project, world: World, request: Request, misread: bool)
    ensures var after := Publication.Result(project, world, request, misread).0;
      && after.head == world.head && after.released == world.released
      && (if LetsPush(project, world, request, misread)
          then Moves(world, after, request) && world.head == request.resultSha
          else after.refs == world.refs && after.pushes == world.pushes)
  {
    AcceptedIff(project, world, request, misread);
    PushMoves(world, request);
    OpeningMovesNothing(project, Pushed(world, request), request);
  }

  /** A pull request that is found is the newest one for the job. */
  lemma {:induction false} NewestFound(project: Project, pulls: seq<Pull>, request: Request, k: nat)
    requires Found(project, pulls, request).Some? && Found(project, pulls, request).value < k < |pulls|
    ensures !IsForJob(project, pulls[k], request.job)
  {
    var head, base, marker := BranchOf(request.job), project.defaultBranch, MarkerOf(request.job);
    MarkerReads(request.job);
    NewestMarked(pulls, |pulls|, PAGE, head, base, marker, k);
  }

  lemma {:induction false} NewestMarked(
    pulls: seq<Pull>, n: nat, room: nat, head: string, base: string, marker: string, k: nat)
    requires n <= |pulls| && k < n && FirstMarked(pulls, Listed(pulls, n, room, head, base), marker).Some?
    requires FirstMarked(pulls, Listed(pulls, n, room, head, base), marker).value < k
    ensures !(Competing(pulls[k], head, base) && Contains(pulls[k].body, marker))
    decreases n
  {
    var listed := Listed(pulls, n, room, head, base);
    if Competing(pulls[n - 1], head, base) {
      assert listed == [n - 1] + Listed(pulls, n - 1, room - 1, head, base);
      assert listed[1..] == Listed(pulls, n - 1, room - 1, head, base);
      if k < n - 1 { NewestMarked(pulls, n - 1, room - 1, head, base, marker, k); }
    } else if k < n - 1 {
      NewestMarked(pulls, n - 1, room, head, base, marker, k);
    }
  }

  /** Whatever happens, a push sets the job's branch to the forty digits of the result its request names. */
  lemma PushesNamed(project: Project, s: System, events: seq<Event>, i: nat)
    requires ValidProject(project) && s.call.None? && s.world.pushes == []
    requires i < |Run(project, s, events).world.pushes|
    ensures var p := Run(project, s, events).world.pushes[i];
      && p.branch == "maintainer/" + p.request.job && p.branch != project.defaultBranch
      && p.sha == p.request.resultSha && WellFormed(p.request)
  {
    OnlyApprovedResultsPushed(project, s, events);
    assert ApprovedPush(project, Run(project, s, events).world.pushes[i]);
  }

  // ------------------------------------------------------------ calls in runs

  /** A call starts and takes some steps. */
  function CallEvents(request: Request, misread: bool, steps: nat): seq<Event> {
    if steps == 0 then [Start(request, misread)] else CallEvents(request, misread, steps - 1) + [Event.Step]
  }

  /** Calls that each take some steps and crash. */
  function CrashEvents(request: Request, crashes: seq<Interrupted>): seq<Event> {
    if crashes == [] then []
    else
      var last := crashes[|crashes| - 1];
      CrashEvents(request, crashes[..|crashes| - 1]) + CallEvents(request, last.misread, last.steps) + [Crash]
  }

  lemma {:induction false} RunTwice(project: Project, s: System, a: seq<Event>, b: seq<Event>)
    ensures Run(project, s, a + b) == Run(project, Run(project, s, a), b)
  {
    if b == [] {
      assert a + b == a;
    } else {
      var n := |b| - 1;
      RunTwice(project, s, a, b[..n]);
      assert (a + b)[..|a + b| - 1] == a + b[..n] && (a + b)[|a + b| - 1] == b[n];
    }
  }

  lemma {:induction false} OneStepMore(project: Project, world: World, call: Call, steps: nat)
    ensures var (w, c) := Stepped(project, world, call, steps);
      Stepped(project, world, call, steps + 1) == Next(project, w, c)
    decreases steps
  {
    if !call.phase.Done? && steps > 0 {
      var (w, c) := Next(project, world, call);
      OneStepMore(project, w, c, steps - 1);
    }
  }

  lemma RunOneMore(project: Project, s: System, events: seq<Event>, e: Event)
    ensures Run(project, s, events + [e]) == After(project, Run(project, s, events), e)
  {
    assert (events + [e])[..|events + [e]| - 1] == events;
  }

  /** An undisturbed call is a run of its own. */
  lemma {:induction false} CallIsRun(project: Project, s: System, request: Request, misread: bool, steps: nat)
    requires s.call.None?
    ensures var (w, c) := Stepped(project, s.world, Called(request, misread), steps);
      Run(project, s, CallEvents(request, misread, steps)) == System(w, Some(c))
  {
    if steps == 0 {
      RunOneMore(project, s, [], Start(request, misread));
      assert [] + [Start(request, misread)] == [Start(request, misread)];
    } else {
      CallIsRun(project, s, request, misread, steps - 1);
      OneStepMore(project, s.world, Called(request, misread), steps - 1);
      RunOneMore(project, s, CallEvents(request, misread, steps - 1), Event.Step);
    }
  }

  /** What crashed calls leave is what the run of them leaves. */
  lemma {:induction false} CrashesAreRun(project: Project, world: World, request: Request, crashes: seq<Interrupted>)
    ensures Run(project, System(world, None), CrashEvents(request, crashes)) ==
            System(Crashed(project, world, request, crashes), None)
  {
    if crashes != [] {
      var n := |crashes| - 1;
      var before, one := CrashEvents(request, crashes[..n]), CallEvents(request, crashes[n].misread, crashes[n].steps);
      var s := System(Crashed(project, world, request, crashes[..n]), None);
      CrashesAreRun(project, world, request, crashes[..n]);
      RunTwice(project, System(world, None), before, one);
      CallIsRun(project, s, request, crashes[n].misread, crashes[n].steps);
      RunOneMore(project, System(world, None), before + one, Crash);
    }
  }

  // ------------------------------------------------------------ standing ones

  /** One of the program's pull requests that stands for its branch. */
  predicate StandsAsOwn(project: Project, p: Pull) {
    p.ours && |p.head| >= 11 && IsForJob(project, p, p.head[11..])
  }

  predicate OwnBranches(world: World) {
    forall i :: 0 <= i < |world.pulls| && world.pulls[i].ours ==> "maintainer/" <= world.pulls[i].head
  }

  lemma StandsIff(project: Project, p: Pull)
    requires p.ours ==> "maintainer/" <= p.head
    ensures Stands(project, p) <==> StandsAsOwn(project, p)
  {
    if p.ours {
      assert p.head == "maintainer/" + p.head[11..];
      MarkerReads(p.head[11..]);
    }
  }

  /**
   * The log is as it was when every own pull request still stands, and else names
   * the branch of the one that does not.
   */
  predicate LogsReleases(project: Project, before: World, after: World) {
    && OwnBranches(after) && |before.pulls| <= |after.pulls|
    && (after.released == before.released <==>
          forall i :: 0 <= i < |before.pulls| ==> StillStands(project, before, after, i))
    && (forall i :: 0 <= i < |before.pulls| && !StillStands(project, before, after, i) ==>
          after.released == before.released + [before.pulls[i].head])
  }

  predicate StillStands(project: Project, before: World, after: World, i: nat)
    requires i < |before.pulls| <= |after.pulls|
  {
    StandsAsOwn(project, before.pulls[i]) ==> StandsAsOwn(project, after.pulls[i])
  }

  lemma ReplacedLogs(project: Project, world: World, i: nat, p: Pull)
    requires OwnBranches(world) && i < |world.pulls|
    requires p.ours == world.pulls[i].ours && p.head == world.pulls[i].head
    ensures LogsReleases(project, world, Replaced(project, world, i, p))
  {
    var after := Replaced(project, world, i, p);
    StandsIff(project, world.pulls[i]);
    StandsIff(project, p);
    forall j | 0 <= j < |world.pulls|
      ensures StillStands(project, world, after, j) <==>
              j != i || !Stands(project, world.pulls[i]) || Stands(project, p)
    {
    }
    assert StillStands(project, world, after, i) <==> after.released == world.released;
  }

  lemma UnreplacedLogs(project: Project, world: World, after: World)
    requires OwnBranches(world) && OwnBranches(after) && world.pulls <= after.pulls && after.released == world.released
    ensures LogsReleases(project, world, after)
  {
    forall j | 0 <= j < |world.pulls| ensures StillStands(project, world, after, j) {
    }
  }

  /** What others do lets go of a branch exactly when one of the program's pull requests no longer stands for it. */
  lemma ReleasesIff(project: Project, world: World, change: Change)
    requires OwnBranches(world)
    ensures LogsReleases(project, world, Changed(project, world, change))
  {
    var pulls, after := world.pulls, Changed(project, world, change);
    match change
    case Close(i) => if i < |pulls| { ReplacedLogs(project, world, i, pulls[i].(open := false)); }
    case Edit(i, body) => if i < |pulls| { ReplacedLogs(project, world, i, pulls[i].(body := body)); }
    case Reopen(i) => if after != world { ReplacedLogs(project, world, i, pulls[i].(open := true)); }
    case Retarget(i, base) => if after != world { ReplacedLogs(project, world, i, pulls[i].(base := base)); }
    case _ => UnreplacedLogs(project, world, after);
    if after == world { UnreplacedLogs(project, world, after); }
  }
}
