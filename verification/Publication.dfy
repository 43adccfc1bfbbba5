/**
 * Publishing a job's result: the maintainer branch is pushed and a draft pull
 * request opened, over a forge that others use too, with a crash possible
 * after every step.
 */
module Publication {
  import opened Documents
  import opened GitNames
  import opened Texts

  // ------------------------------------------------------------- identifiers

  function BranchOf(job: string): string {
    "maintainer/" + job
  }

  function KeyOf(job: string): string {
    job + "_publication"
  }

  function MarkerOf(job: string): string {
    "<!-- maintainer-operation:" + KeyOf(job) + " -->"
  }

  lemma BranchIsNotSafeId(job: string)
    ensures !SafeId(BranchOf(job))
  {
    assert BranchOf(job)[10] == '/';
  }

  // ---------------------------------------------------------------- the world

  datatype Pull = Pull(head: string, base: string, body: string, open: bool, draft: bool, ours: bool)

  datatype Request = Request(job: string, baseSha: Sha, resultSha: Sha)

  /** A push the program made: the branch, the commit, and the request it served. */
  datatype Push = Push(branch: string, sha: Sha, request: Request)

  /**
   * The forge's branches and pull requests, the head of the job's worktree, and
   * what has happened so far: the program's pushes, and the branches of its pull
   * requests each time one stopped standing for the default branch.
   */
  datatype World = World(refs: map<string, Sha>, pulls: seq<Pull>, head: Sha, pushes: seq<Push>, released: seq<string>)

  /**
   * The registered project: its default branch, which commits the forge takes as fast-forwards, when it
   * refuses one more open pull request from a branch to a base, and how a result is described.
   */
  datatype Project = Project(
    defaultBranch: string,
    descends: (Sha, Sha) -> bool,
    refuses: (seq<Pull>, string, string) -> bool,
    summary: Sha -> string)

  predicate ValidProject(project: Project) {
    SafeId(project.defaultBranch)
  }

  predicate ValidRequest(request: Request) {
    SafeId(request.job) && IsSha(request.baseSha) && IsSha(request.resultSha)
  }

  // ----------------------------------------------------------- the operation

  datatype Outcome =
    | Rejected | UpstreamMoved | Conflict | PushRefused | UnusableKey
    | Existing(pull: nat) | Opened(pull: nat)

  datatype Phase =
    | Begin | UpstreamRight | HeadRight | BranchAbsent | BranchRight | NoneOpen | PostRefused
    | Done(outcome: Outcome)

  /** A call, and whether its look-up of the job's branch fails, which it takes for an absent branch. */
  datatype Call = Call(request: Request, misread: bool, phase: Phase)

  predicate Competing(p: Pull, head: string, base: string) {
    p.open && p.head == head && p.base == base
  }

  predicate SomeCompeting(pulls: seq<Pull>, head: string, base: string) {
    exists i :: 0 <= i < |pulls| && Competing(pulls[i], head, base)
  }

  const PAGE: nat := 10

  /** What the forge lists: the newest of the first n pull requests that are open from the branch to the base. */
  function Listed(pulls: seq<Pull>, n: nat, room: nat, head: string, base: string): (r: seq<nat>)
    requires n <= |pulls|
    ensures forall i :: 0 <= i < |r| ==> r[i] < n && Competing(pulls[r[i]], head, base)
  {
    if n == 0 || room == 0 then []
    else if Competing(pulls[n - 1], head, base) then [n - 1] + Listed(pulls, n - 1, room - 1, head, base)
    else Listed(pulls, n - 1, room, head, base)
  }

  /** The first listed pull request whose body carries the marker. */
  function FirstMarked(pulls: seq<Pull>, listed: seq<nat>, marker: string): (r: Option<nat>)
    requires forall i :: 0 <= i < |listed| ==> listed[i] < |pulls|
    ensures r.Some? ==> r.value in listed && r.value < |pulls| && Contains(pulls[r.value].body, marker)
    ensures r.None? ==> forall i :: 0 <= i < |listed| ==> !Contains(pulls[listed[i]].body, marker)
  {
    if listed == [] then None
    else if Contains(pulls[listed[0]].body, marker) then Some(listed[0])
    else FirstMarked(pulls, listed[1..], marker)
  }

  function FindOpen(pulls: seq<Pull>, head: string, base: string, marker: string): Option<nat> {
    FirstMarked(pulls, Listed(pulls, |pulls|, PAGE, head, base), marker)
  }

  function Found(project: Project, pulls: seq<Pull>, request: Request): Option<nat> {
    FindOpen(pulls, BranchOf(request.job), project.defaultBranch, MarkerOf(request.job))
  }

  function Description(project: Project, request: Request): string {
    project.summary(request.resultSha) + "\n\n" + MarkerOf(request.job)
  }

  function NewPull(project: Project, request: Request): Pull {
    Pull(BranchOf(request.job), project.defaultBranch, Description(project, request), true, true, true)
  }

  predicate KeyUsable(project: Project, request: Request) {
    SafeId(KeyOf(request.job)) && ValidGitRef(BranchOf(request.job)) && ValidGitRef(project.defaultBranch)
  }

  /** The forge takes the worktree's head for the branch: it is there already, or a fast-forward. */
  predicate PushTaken(project: Project, world: World, branch: string) {
    branch in world.refs ==> world.refs[branch] == world.head || project.descends(world.refs[branch], world.head)
  }

  /** The world after a push that is taken. */
  function Pushed(world: World, request: Request): World {
    var branch := BranchOf(request.job);
    if branch in world.refs && world.refs[branch] == world.head then world
    else world.(refs := world.refs[branch := world.head], pushes := world.pushes + [Push(branch, world.head, request)])
  }

  function Posted(project: Project, world: World, request: Request): World {
    world.(pulls := world.pulls + [NewPull(project, request)])
  }

  /** A call checks its request before it looks at anything. */
  function FirstPhase(request: Request): Phase {
    if ValidRequest(request) then Begin else Done(Rejected)
  }

  function Called(request: Request, misread: bool): Call {
    Call(request, misread, FirstPhase(request))
  }

  /** The names are checked before the search. */
  function SearchPhase(project: Project, request: Request): Phase {
    if KeyUsable(project, request) then BranchRight else Done(UnusableKey)
  }

  function PhaseAfterSearch(project: Project, world: World, request: Request): Phase {
    match Found(project, world.pulls, request)
    case Some(i) => Done(Existing(i))
    case None => NoneOpen
  }

  function PhaseAfterConflict(project: Project, world: World, request: Request): Phase {
    match Found(project, world.pulls, request)
    case Some(i) => Done(Existing(i))
    case None => Done(Conflict)
  }

  function PhaseAfterBranch(project: Project, world: World, call: Call): Phase {
    var branch := BranchOf(call.request.job);
    if call.misread || branch !in world.refs then BranchAbsent
    else if world.refs[branch] == call.request.resultSha then SearchPhase(project, call.request)
    else Done(Conflict)
  }

  /**
   * One step of a call: a look at the repository or the forge, a push, or a request to open
   * a pull request.  A check that reads neither belongs to the step it comes after.
   */
  function Next(project: Project, world: World, call: Call): (World, Call) {
    var request, base := call.request, project.defaultBranch;
    match call.phase
    case Begin =>
      (world, call.(phase :=
        if base in world.refs && world.refs[base] == request.baseSha then UpstreamRight else Done(UpstreamMoved)))
    case UpstreamRight =>
      (world, call.(phase := if world.head == request.resultSha then HeadRight else Done(Conflict)))
    case HeadRight => (world, call.(phase := PhaseAfterBranch(project, world, call)))
    case BranchAbsent =>
      if PushTaken(project, world, BranchOf(request.job))
      then (Pushed(world, request), call.(phase := SearchPhase(project, request)))
      else (world, call.(phase := Done(PushRefused)))
    case BranchRight => (world, call.(phase := PhaseAfterSearch(project, world, request)))
    case NoneOpen =>
      if project.refuses(world.pulls, BranchOf(request.job), base) then (world, call.(phase := PostRefused))
      else (Posted(project, world, request), call.(phase := Done(Opened(|world.pulls|))))
    case PostRefused => (world, call.(phase := PhaseAfterConflict(project, world, request)))
    case Done(_) => (world, call)
  }

  // --------------------------------------------------------------------- runs

  /** What others do to the forge, which refuses a further open pull request to them as to the program. */
  datatype Change =
    | SetRef(name: string, sha: Sha) | DropRef(name: string)
    | Close(pull: nat) | Reopen(pull: nat) | Edit(pull: nat, body: string) | Retarget(pull: nat, base: string)
    | OpenOther(head: string, base: string, body: string)

  /** The job a branch of the program's is for. */
  function JobOf(branch: string): string {
    if "maintainer/" <= branch then branch[|"maintainer/"|..] else branch
  }

  /** One of the program's pull requests, open for the default branch and with its marker. */
  predicate Stands(project: Project, p: Pull) {
    p.ours && p.open && p.base == project.defaultBranch && Contains(p.body, MarkerOf(JobOf(p.head)))
  }

  /** The pull request replaced; when it stops standing its branch is logged. */
  function Replaced(project: Project, world: World, i: nat, p: Pull): World
    requires i < |world.pulls|
  {
    var was := world.pulls[i];
    var stops := Stands(project, was) && !Stands(project, p);
    world.(pulls := world.pulls[i := p], released := if stops then world.released + [was.head] else world.released)
  }

  function Changed(project: Project, world: World, change: Change): World {
    var pulls := world.pulls;
    match change
    case SetRef(name, sha) => world.(refs := world.refs[name := sha])
    case DropRef(name) => world.(refs := world.refs - {name})
    case Close(i) => if i < |pulls| then Replaced(project, world, i, pulls[i].(open := false)) else world
    case Reopen(i) =>
      if i < |pulls| && !project.refuses(pulls, pulls[i].head, pulls[i].base)
      then Replaced(project, world, i, pulls[i].(open := true))
      else world
    case Edit(i, body) => if i < |pulls| then Replaced(project, world, i, pulls[i].(body := body)) else world
    case Retarget(i, base) =>
      if i < |pulls| && !project.refuses(pulls, pulls[i].head, base)
      then Replaced(project, world, i, pulls[i].(base := base))
      else world
    case OpenOther(head, base, body) =>
      if project.refuses(pulls, head, base) then world
      else world.(pulls := pulls + [Pull(head, base, body, true, false, false)])
  }

  /** The job's calls run one at a time; its worktree moves only between them; others act at any moment. */
  datatype Event = Start(request: Request, misread: bool) | Step | Crash | Work(head: Sha) | Outside(change: Change)

  datatype System = System(world: World, call: Option<Call>)

  function After(project: Project, s: System, e: Event): System {
    match e
    case Start(request, misread) => if s.call.None? then s.(call := Some(Called(request, misread))) else s
    case Step =>
      if s.call.None? then s
      else
        var (world, call) := Next(project, s.world, s.call.value);
        System(world, Some(call))
    case Crash => s.(call := None)
    case Work(head) => if s.call.None? then s.(world := s.world.(head := head)) else s
    case Outside(change) => s.(world := Changed(project, s.world, change))
  }

  function Run(project: Project, s: System, events: seq<Event>): System {
    if events == [] then s else After(project, Run(project, s, events[..|events| - 1]), events[|events| - 1])
  }

  // ------------------------------------------------------------------- pushes

  predicate ApprovedPush(project: Project, p: Push) {
    && ValidRequest(p.request) && p.branch == BranchOf(p.request.job) && p.branch != project.defaultBranch
    && p.sha == p.request.resultSha
  }

  /** Past its checks, a call's worktree is at the approved result. */
  predicate CheckedCall(world: World, call: Option<Call>) {
    call.Some? ==>
      && (!call.value.phase.Done? ==> ValidRequest(call.value.request))
      && (call.value.phase.HeadRight? || call.value.phase.BranchAbsent? ==> world.head == call.value.request.resultSha)
  }

  ghost predicate PushesApproved(project: Project, s: System) {
    CheckedCall(s.world, s.call) && forall i :: 0 <= i < |s.world.pushes| ==> ApprovedPush(project, s.world.pushes[i])
  }

  lemma StepStaysChecked(project: Project, s: System, e: Event)
    requires CheckedCall(s.world, s.call)
    ensures CheckedCall(After(project, s, e).world, After(project, s, e).call)
  {
  }

  /** A step pushes nothing, or the approved result. */
  lemma StepPush(project: Project, s: System, e: Event)
    requires ValidProject(project) && CheckedCall(s.world, s.call)
    ensures var before, after := s.world.pushes, After(project, s, e).world.pushes;
      after == before || (exists p :: after == before + [p] && ApprovedPush(project, p))
  {
    if e.Step? && s.call.Some? && s.call.value.phase.BranchAbsent? {
      var request := s.call.value.request;
      BranchIsNotSafeId(request.job);
      assert ApprovedPush(project, Push(BranchOf(request.job), s.world.head, request));
    }
  }

  lemma StepPushesApproved(project: Project, s: System, e: Event)
    requires ValidProject(project) && PushesApproved(project, s)
    ensures PushesApproved(project, After(project, s, e))
  {
    StepStaysChecked(project, s, e);
    StepPush(project, s, e);
  }

  /** Every push sets the job's own branch, never the default branch, to the result its request names. */
  lemma {:induction false} OnlyApprovedResultsPushed(project: Project, s: System, events: seq<Event>)
    requires ValidProject(project) && s.call.None? && s.world.pushes == []
    ensures PushesApproved(project, Run(project, s, events))
  {
    if events != [] {
      OnlyApprovedResultsPushed(project, s, events[..|events| - 1]);
      StepPushesApproved(project, Run(project, s, events[..|events| - 1]), events[|events| - 1]);
    }
  }

  predicate SameRef(a: World, b: World, name: string) {
    (name in a.refs <==> name in b.refs) && (name in a.refs ==> a.refs[name] == b.refs[name])
  }

  predicate TouchesRef(e: Event, name: string) {
    e.Outside? && ((e.change.SetRef? || e.change.DropRef?) && e.change.name == name)
  }

  /** The program leaves every branch alone that is not some job's, the default branch among them. */
  lemma {:induction false} DefaultBranchUntouched(project: Project, s: System, events: seq<Event>)
    requires ValidProject(project)
    requires forall i :: 0 <= i < |events| ==> !TouchesRef(events[i], project.defaultBranch)
    ensures SameRef(Run(project, s, events).world, s.world, project.defaultBranch)
  {
    if events != [] {
      var before, e := Run(project, s, events[..|events| - 1]), events[|events| - 1];
      DefaultBranchUntouched(project, s, events[..|events| - 1]);
      assert !TouchesRef(e, project.defaultBranch);
      if e.Step? && before.call.Some? { BranchIsNotSafeId(before.call.value.request.job); }
    }
  }

  // ------------------------------------------------------- undisturbed calls

  /** The call after at most so many steps, nothing else happening. */
  function Stepped(project: Project, world: World, call: Call, steps: nat): (World, Call)
    decreases steps
  {
    if steps == 0 || call.phase.Done? then (world, call)
    else
      var (w, c) := Next(project, world, call);
      Stepped(project, w, c, steps - 1)
  }

  function Position(phase: Phase): nat {
    match phase
    case Begin => 0
    case UpstreamRight => 1
    case HeadRight => 2
    case BranchAbsent => 3
    case BranchRight => 4
    case NoneOpen => 5
    case PostRefused => 6
    case Done(_) => 7
  }

  lemma NextMovesOn(project: Project, world: World, call: Call)
    requires !call.phase.Done?
    ensures Position(Next(project, world, call).1.phase) > Position(call.phase)
    ensures Next(project, world, call).1.request == call.request
  {
  }

  /** Seven steps finish any call. */
  lemma {:induction false} CallFinishes(project: Project, world: World, call: Call, steps: nat)
    requires steps + Position(call.phase) >= 7
    ensures Stepped(project, world, call, steps).1.phase.Done?
    decreases steps
  {
    if !call.phase.Done? {
      NextMovesOn(project, world, call);
      var (w, c) := Next(project, world, call);
      CallFinishes(project, w, c, steps - 1);
    }
  }

  /** The call gets past the first two checks. */
  predicate Checked(project: Project, world: World, request: Request) {
    && ValidRequest(request) && world.head == request.resultSha
    && project.defaultBranch in world.refs && world.refs[project.defaultBranch] == request.baseSha
  }

  /** The job's branch is absent or right, as far as the call can tell, and the forge takes the push. */
  predicate BranchTaken(project: Project, world: World, request: Request, misread: bool) {
    var branch := BranchOf(request.job);
    branch in world.refs ==>
      world.refs[branch] == request.resultSha || (misread && project.descends(world.refs[branch], world.head))
  }

  predicate Accepted(project: Project, world: World, request: Request, misread: bool) {
    Checked(project, world, request) && BranchTaken(project, world, request, misread)
  }

  /** The call may publish: the upstream, the worktree and the job's branch are as the request says. */
  predicate Publishable(project: Project, world: World, request: Request) {
    Accepted(project, world, request, false)
  }

  /** What an undisturbed call comes to once the branch is pushed. */
  function Opening(project: Project, world: World, request: Request): (World, Outcome) {
    if !KeyUsable(project, request) then (world, UnusableKey)
    else
      match Found(project, world.pulls, request)
      case Some(i) => (world, Existing(i))
      case None =>
        if project.refuses(world.pulls, BranchOf(request.job), project.defaultBranch) then (world, Conflict)
        else (Posted(project, world, request), Opened(|world.pulls|))
  }

  /** What an undisturbed call comes to. */
  function Result(project: Project, world: World, request: Request, misread: bool): (World, Outcome) {
    var base := project.defaultBranch;
    if !ValidRequest(request) then (world, Rejected)
    else if base !in world.refs || world.refs[base] != request.baseSha then (world, UpstreamMoved)
    else if world.head != request.resultSha then (world, Conflict)
    else if !BranchTaken(project, world, request, misread) then (world, if misread then PushRefused else Conflict)
    else Opening(project, Pushed(world, request), request)
  }

  lemma StepOnce(project: Project, world: World, call: Call, steps: nat)
    requires steps > 0 && !call.phase.Done?
    ensures Stepped(project, world, call, steps) ==
            Stepped(project, Next(project, world, call).0, Next(project, world, call).1, steps - 1)
  {
  }

  lemma FinishedCall(project: Project, world: World, call: Call, steps: nat)
    requires call.phase.Done?
    ensures Stepped(project, world, call, steps) == (world, call)
  {
  }

  /** From the search on, three steps come to the result. */
  lemma {:induction false} SearchResult(project: Project, world: World, call: Call, steps: nat)
    requires steps >= 3 && call.phase.BranchRight? && KeyUsable(project, call.request)
    ensures var (w, outcome) := Opening(project, world, call.request);
      Stepped(project, world, call, steps) == (w, call.(phase := Done(outcome)))
  {
    StepOnce(project, world, call, steps);
    var phase := PhaseAfterSearch(project, world, call.request);
    if phase.Done? {
      FinishedCall(project, world, call.(phase := phase), steps - 1);
    } else {
      PostResult(project, world, call.(phase := NoneOpen), steps - 1);
    }
  }

  lemma {:induction false} PostResult(project: Project, world: World, call: Call, steps: nat)
    requires steps >= 2 && call.phase.NoneOpen? && Found(project, world.pulls, call.request).None?
    ensures Stepped(project, world, call, steps) ==
            if project.refuses(world.pulls, BranchOf(call.request.job), project.defaultBranch)
            then (world, call.(phase := Done(Conflict)))
            else (Posted(project, world, call.request), call.(phase := Done(Opened(|world.pulls|))))
  {
    StepOnce(project, world, call, steps);
    if project.refuses(world.pulls, BranchOf(call.request.job), project.defaultBranch) {
      StepOnce(project, world, call.(phase := PostRefused), steps - 1);
      FinishedCall(project, world, call.(phase := Done(Conflict)), steps - 2);
    } else {
      FinishedCall(project, Posted(project, world, call.request), call.(phase := Done(Opened(|world.pulls|))),
        steps - 1);
    }
  }

  /** From the look-up of the job's branch on, five steps come to the result. */
  lemma {:induction false} BranchResult(project: Project, world: World, call: Call, steps: nat)
    requires steps >= 5 && call.phase.HeadRight? && Checked(project, world, call.request)
    ensures var (w, outcome) := Result(project, world, call.request, call.misread);
      Stepped(project, world, call, steps) == (w, call.(phase := Done(outcome)))
  {
    StepOnce(project, world, call, steps);
    var phase := PhaseAfterBranch(project, world, call);
    if phase.Done? {
      FinishedCall(project, world, call.(phase := phase), steps - 1);
    } else if phase.BranchRight? {
      SearchResult(project, world, call.(phase := phase), steps - 1);
    } else {
      StepOnce(project, world, call.(phase := phase), steps - 1);
      if PushTaken(project, world, BranchOf(call.request.job)) {
        if KeyUsable(project, call.request) {
          SearchResult(project, Pushed(world, call.request), call.(phase := BranchRight), steps - 2);
        } else {
          FinishedCall(project, Pushed(world, call.request), call.(phase := Done(UnusableKey)), steps - 2);
        }
      } else {
        FinishedCall(project, world, call.(phase := Done(PushRefused)), steps - 2);
      }
    }
  }

  lemma {:induction false} CallResult(project: Project, world: World, request: Request, misread: bool)
    ensures var (w, outcome) := Result(project, world, request, misread);
      Stepped(project, world, Called(request, misread), 7) == (w, Call(request, misread, Done(outcome)))
  {
    if !ValidRequest(request) {
      FinishedCall(project, world, Called(request, misread), 7);
      return;
    }
    StepOnce(project, world, Call(request, misread, Begin), 7);
    var phase := Next(project, world, Call(request, misread, Begin)).1.phase;
    if phase.Done? {
      FinishedCall(project, world, Call(request, misread, phase), 6);
    } else {
      StepOnce(project, world, Call(request, misread, UpstreamRight), 6);
      if world.head == request.resultSha {
        BranchResult(project, world, Call(request, misread, HeadRight), 5);
      } else {
        FinishedCall(project, world, Call(request, misread, Done(Conflict)), 5);
      }
    }
  }

  predicate Succeeded(outcome: Outcome) {
    outcome.Existing? || outcome.Opened?
  }

  lemma DescriptionMarked(project: Project, request: Request)
    ensures Contains(Description(project, request), MarkerOf(request.job))
  {
    var front := Description(project, request)[..|Description(project, request)| - |MarkerOf(request.job)|];
    assert OccursAt(Description(project, request), MarkerOf(request.job), |front|);
  }

  /** A pull request just opened is the newest, and is found. */
  lemma NewPullFound(project: Project, pulls: seq<Pull>, request: Request)
    ensures Found(project, pulls + [NewPull(project, request)], request) == Some(|pulls|)
  {
    DescriptionMarked(project, request);
    assert (pulls + [NewPull(project, request)])[|pulls|] == NewPull(project, request);
  }

  /** A call that found or opened the pull request finds the same one when repeated. */
  lemma OpeningAgain(project: Project, world: World, request: Request)
    ensures var (after, outcome) := Opening(project, world, request);
      Opening(project, after, request) == (after, if Succeeded(outcome) then Existing(outcome.pull) else outcome)
  {
    NewPullFound(project, world.pulls, request);
  }

  lemma PushedRefs(project: Project, world: World, request: Request)
    requires ValidProject(project) && Checked(project, world, request)
    ensures Checked(project, Pushed(world, request), request)
    ensures forall misread :: BranchTaken(project, Pushed(world, request), request, misread)
    ensures Pushed(Pushed(world, request), request) == Pushed(world, request)
  {
    BranchIsNotSafeId(request.job);
  }

  lemma OpeningKeepsRefs(project: Project, world: World, request: Request)
    ensures var after := Opening(project, world, request).0;
      after.refs == world.refs && after.head == world.head && after.pushes == world.pushes
  {
  }

  /** Once the branch is pushed, further calls go straight to the search, whether they misread the branch or not. */
  lemma ResultOncePushed(project: Project, world: World, request: Request, misread: bool)
    requires Checked(project, world, request)
    requires BranchOf(request.job) in world.refs && world.refs[BranchOf(request.job)] == request.resultSha
    ensures Result(project, world, request, misread) == Opening(project, world, request)
  {
  }

  lemma ResultAccepted(project: Project, world: World, request: Request, misread: bool)
    requires Accepted(project, world, request, misread)
    ensures Result(project, world, request, misread) == Opening(project, Pushed(world, request), request)
  {
  }

  lemma RetryOfAccepted(project: Project, world: World, request: Request, misread: bool, again: bool)
    requires ValidProject(project) && Accepted(project, world, request, misread)
    ensures var (after, outcome) := Result(project, world, request, misread);
      Result(project, after, request, again) == (after, if Succeeded(outcome) then Existing(outcome.pull) else outcome)
  {
    ResultAccepted(project, world, request, misread);
    var pushed := Pushed(world, request);
    PushedRefs(project, world, request);
    OpeningKeepsRefs(project, pushed, request);
    OpeningAgain(project, pushed, request);
    ResultOncePushed(project, Opening(project, pushed, request).0, request, again);
  }

  /**
   * A call that found or opened the pull request finds the same one when
   * repeated, and no repeated call changes anything.
   */
  lemma RetryFindsSame(project: Project, world: World, request: Request, misread: bool)
    requires ValidProject(project)
    ensures var (after, outcome) := Result(project, world, request, misread);
      && Result(project, after, request, misread).0 == after
      && (Succeeded(outcome) ==>
           forall again :: Result(project, after, request, again) == (after, Existing(outcome.pull)))
      && (!Succeeded(outcome) ==> Result(project, after, request, misread).1 == outcome)
  {
    if Accepted(project, world, request, misread) {
      RetryOfAccepted(project, world, request, misread, true);
      RetryOfAccepted(project, world, request, misread, false);
    }
  }

  /** Stopped among its checks, a call has changed nothing; past them it goes on to the search or the push. */
  lemma {:induction false} ChecksChangeNothing(
    project: Project, world: World, request: Request, misread: bool, steps: nat)
    ensures var w, at := Stepped(project, world, Called(request, misread), steps).0,
                         PhaseAfterBranch(project, world, Call(request, misread, HeadRight));
      || w == world
      || (&& steps > 3 && Checked(project, world, request) && !at.Done?
          && w == Stepped(project, world, Call(request, misread, at), steps - 3).0)
  {
    if steps > 0 && ValidRequest(request) {
      StepOnce(project, world, Call(request, misread, Begin), steps);
      if steps > 1 && Next(project, world, Call(request, misread, Begin)).1.phase.UpstreamRight? {
        StepOnce(project, world, Call(request, misread, UpstreamRight), steps - 1);
        if steps > 2 && world.head == request.resultSha {
          StepOnce(project, world, Call(request, misread, HeadRight), steps - 2);
        }
      }
    }
  }

  lemma {:induction false} CrashWhileOpening(project: Project, world: World, call: Call, steps: nat)
    requires call.phase.BranchRight? && KeyUsable(project, call.request)
    ensures var w := Stepped(project, world, call, steps).0;
      w == world || w == Opening(project, world, call.request).0
  {
    if steps > 0 {
      StepOnce(project, world, call, steps);
      if steps > 1 && PhaseAfterSearch(project, world, call.request).NoneOpen? {
        CrashWhilePosting(project, world, call.(phase := NoneOpen), steps - 1);
      }
    }
  }

  lemma {:induction false} CrashWhilePosting(project: Project, world: World, call: Call, steps: nat)
    requires call.phase.NoneOpen? && steps > 0
    ensures Stepped(project, world, call, steps).0 ==
            if project.refuses(world.pulls, BranchOf(call.request.job), project.defaultBranch) then world
            else Posted(project, world, call.request)
  {
    StepOnce(project, world, call, steps);
    if steps > 1 && project.refuses(world.pulls, BranchOf(call.request.job), project.defaultBranch) {
      StepOnce(project, world, call.(phase := PostRefused), steps - 1);
    }
  }

  lemma {:induction false} CrashWhilePushing(project: Project, world: World, call: Call, steps: nat)
    requires call.phase.BranchAbsent?
    ensures var w := Stepped(project, world, call, steps).0;
      || w == world
      || (&& PushTaken(project, world, BranchOf(call.request.job))
          && (w == Pushed(world, call.request) || w == Opening(project, Pushed(world, call.request), call.request).0))
  {
    if steps > 0 {
      StepOnce(project, world, call, steps);
      if PushTaken(project, world, BranchOf(call.request.job)) {
        if KeyUsable(project, call.request) {
          CrashWhileOpening(project, Pushed(world, call.request), call.(phase := BranchRight), steps - 1);
        }
      }
    }
  }

  /** A crash leaves the world as it was, with the branch pushed, or as the finished call leaves it. */
  lemma {:induction false} CrashPoints(project: Project, world: World, request: Request, misread: bool, steps: nat)
    ensures var w := Stepped(project, world, Called(request, misread), steps).0;
      || w == world
      || (&& Accepted(project, world, request, misread)
          && (w == Pushed(world, request) || w == Result(project, world, request, misread).0))
  {
    ChecksChangeNothing(project, world, request, misread, steps);
    var at := PhaseAfterBranch(project, world, Call(request, misread, HeadRight));
    if steps > 3 && Checked(project, world, request) && !at.Done? {
      if at.BranchRight? {
        CrashWhileOpening(project, world, Call(request, misread, at), steps - 3);
      } else {
        CrashWhilePushing(project, world, Call(request, misread, at), steps - 3);
      }
    }
  }

  /** A call that crashes after so many steps. */
  datatype Interrupted = Interrupted(misread: bool, steps: nat)

  /** The world after calls that each crashed. */
  function Crashed(project: Project, world: World, request: Request, crashes: seq<Interrupted>): World {
    if crashes == [] then world
    else
      var n := |crashes| - 1;
      var before := Crashed(project, world, request, crashes[..n]);
      Stepped(project, before, Called(request, crashes[n].misread), crashes[n].steps).0
  }

  /** However often a call that may publish crashes, the world is as it was, pushed, or as one call leaves it. */
  lemma {:induction false} CrashedIsOnTheWay(
    project: Project, world: World, request: Request, crashes: seq<Interrupted>)
    requires ValidProject(project) && Publishable(project, world, request)
    ensures var w := Crashed(project, world, request, crashes);
      w == world || w == Pushed(world, request) || w == Result(project, world, request, false).0
  {
    if crashes != [] {
      var n := |crashes| - 1;
      var before, misread := Crashed(project, world, request, crashes[..n]), crashes[n].misread;
      CrashedIsOnTheWay(project, world, request, crashes[..n]);
      CrashPoints(project, before, request, misread, crashes[n].steps);
      OnTheWay(project, world, request, before, misread);
    }
  }

  /** From any of these a further call comes to the same world, and pushes to the same. */
  lemma OnTheWay(project: Project, world: World, request: Request, w: World, misread: bool)
    requires ValidProject(project) && Publishable(project, world, request)
    requires w == world || w == Pushed(world, request) || w == Result(project, world, request, false).0
    ensures Pushed(w, request) == Pushed(world, request) || Pushed(w, request) == w
    ensures Result(project, w, request, misread).0 == Result(project, world, request, false).0
  {
    var pushed := Pushed(world, request);
    ResultAccepted(project, world, request, false);
    ResultAccepted(project, world, request, misread);
    PushedRefs(project, world, request);
    if w == pushed {
      ResultOncePushed(project, w, request, misread);
    } else if w == Result(project, world, request, false).0 {
      RetryOfAccepted(project, world, request, false, misread);
      OpeningKeepsRefs(project, pushed, request);
    }
  }

  lemma {:induction false} RefusedStays(project: Project, world: World, request: Request, crashes: seq<Interrupted>)
    requires !Publishable(project, world, request)
    requires forall i :: 0 <= i < |crashes| ==> !crashes[i].misread
    ensures Crashed(project, world, request, crashes) == world
  {
    if crashes != [] {
      var n := |crashes| - 1;
      RefusedStays(project, world, request, crashes[..n]);
      CrashPoints(project, world, request, false, crashes[n].steps);
    }
  }

  /**
   * However often a call crashes, a retry that gets through leaves what one
   * undisturbed call leaves; look-ups of the branch may fail among the crashes
   * when the branch is absent or already right.
   */
  lemma CrashesAreRetried(project: Project, world: World, request: Request, crashes: seq<Interrupted>, misread: bool)
    requires ValidProject(project)
    requires Publishable(project, world, request) ||
             (!misread && forall i :: 0 <= i < |crashes| ==> !crashes[i].misread)
    ensures Result(project, Crashed(project, world, request, crashes), request, misread).0 ==
            Result(project, world, request, false).0
  {
    if Publishable(project, world, request) {
      CrashedIsOnTheWay(project, world, request, crashes);
      OnTheWay(project, world, request, Crashed(project, world, request, crashes), misread);
    } else {
      RefusedStays(project, world, request, crashes);
    }
  }

  // ------------------------------------------------------------ names refused

  lemma {:induction false} AsciiLength(s: string)
    requires forall i :: 0 <= i < |s| ==> s[i] < '\U{0080}'
    ensures ByteLength(s) == |s|
  {
    if s != "" { AsciiLength(s[1..]); }
  }

  lemma SafeIdIsRef(s: string)
    requires SafeId(s)
    ensures ValidGitRef(s) <==> !Contains(s, "..")
  {
    AsciiLength(s);
  }

  lemma BranchLetters(job: string)
    ensures |BranchOf(job)| == |job| + 11 && BranchOf(job)[..11] == "maintainer/" && BranchOf(job)[11..] == job
  {
  }

  lemma DotsOfJob(job: string, i: nat)
    requires OccursAt(job, "..", i)
    ensures OccursAt(BranchOf(job), "..", i + 11)
  {
    BranchLetters(job);
    assert BranchOf(job)[i + 11..i + 13] == BranchOf(job)[11..][i..i + 2];
  }

  lemma DotsOfBranch(job: string, i: nat)
    requires OccursAt(BranchOf(job), "..", i)
    ensures i >= 11 && OccursAt(job, "..", i - 11)
  {
    var branch := BranchOf(job);
    BranchLetters(job);
    assert branch[i] == branch[i..i + 2][0] == '.';
    assert forall k :: 0 <= k < 11 ==> branch[k] == branch[..11][k] != '.';
    assert branch[i..i + 2] == branch[11..][i - 11..i - 9];
  }

  lemma BranchDots(job: string)
    ensures Contains(BranchOf(job), "..") <==> Contains(job, "..")
  {
    if Contains(job, "..") {
      var i :| 0 <= i <= |job| && OccursAt(job, "..", i);
      DotsOfJob(job, i);
    }
    if Contains(BranchOf(job), "..") {
      var i :| 0 <= i <= |BranchOf(job)| && OccursAt(BranchOf(job), "..", i);
      DotsOfBranch(job, i);
    }
  }

  lemma BranchIsRef(job: string)
    requires SafeId(job)
    ensures ValidGitRef(BranchOf(job)) <==> !Contains(job, "..")
  {
    BranchDots(job);
    BranchLetters(job);
    var branch := BranchOf(job);
    assert forall i :: 0 <= i < |branch| ==> branch[i] == if i < 11 then "maintainer/"[i] else job[i - 11];
    AsciiLength(branch);
  }

  lemma KeyIsSafeId(job: string)
    requires SafeId(job)
    ensures SafeId(KeyOf(job)) <==> |job| <= 116
  {
    assert |KeyOf(job)| == |job| + 12;
    assert forall i :: 0 <= i < |job| ==> KeyOf(job)[i] == job[i];
  }

  /** For which jobs a pull request can be opened at all. */
  lemma KeyUsableIff(project: Project, request: Request)
    requires ValidProject(project) && SafeId(request.job)
    ensures KeyUsable(project, request) <==>
            |request.job| <= 116 && !Contains(request.job, "..") && !Contains(project.defaultBranch, "..")
  {
    KeyIsSafeId(request.job);
    BranchIsRef(request.job);
    SafeIdIsRef(project.defaultBranch);
  }
}
