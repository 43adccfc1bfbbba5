/**
 * The program that publishes, on a machine that may stop after any step: it is
 * proved to take exactly the steps of a call.
 */
module PublishingProgram {
  import opened Documents
  import opened GitNames
  import opened Publication

  /** The job's worktree and the forge, reached by a program that stops after a number of steps. */
  class Forge {
    const project: Project
    var refs: map<string, Sha>
    var pulls: seq<Pull>
    var head: Sha
    var pushes: seq<Push>
    var released: seq<string>
    var steps: nat

    constructor (project: Project, world: World, budget: nat)
      ensures this.project == project && Now() == world && steps == budget
    {
      this.project := project;
      refs, pulls, head, pushes, released := world.refs, world.pulls, world.head, world.pushes, world.released;
      steps := budget;
    }

    function Now(): World
      reads this
    {
      World(refs, pulls, head, pushes, released)
    }

    method ReadBranch(name: string) returns (ok: bool, sha: Option<Sha>)
      modifies this`steps
      ensures ok <==> old(steps) > 0
      ensures steps == if old(steps) > 0 then old(steps) - 1 else 0
      ensures ok ==> sha == if name in refs then Some(refs[name]) else None
    {
      if steps == 0 {
        return false, None;
      }
      steps := steps - 1;
      return true, if name in refs then Some(refs[name]) else None;
    }

    method ReadHead() returns (ok: bool, sha: Sha)
      modifies this`steps
      ensures ok <==> old(steps) > 0
      ensures steps == if old(steps) > 0 then old(steps) - 1 else 0
      ensures ok ==> sha == head
    {
      if steps == 0 {
        return false, "";
      }
      steps := steps - 1;
      return true, head;
    }

    /** Pushes the worktree's head; the forge refuses what is no fast-forward. */
    method PushHead(request: Request) returns (ok: bool, accepted: bool)
      modifies this`steps, this`refs, this`pushes
      ensures ok <==> old(steps) > 0
      ensures steps == if old(steps) > 0 then old(steps) - 1 else 0
      ensures ok ==> (accepted <==> PushTaken(project, old(Now()), BranchOf(request.job)))
      ensures Now() == if ok && accepted then Pushed(old(Now()), request) else old(Now())
    {
      if steps == 0 {
        return false, false;
      }
      steps := steps - 1;
      var branch := BranchOf(request.job);
      if branch in refs && refs[branch] == head {
        return true, true;
      }
      if branch in refs && !project.descends(refs[branch], head) {
        return true, false;
      }
      refs := refs[branch := head];
      pushes := pushes + [Push(branch, head, request)];
      return true, true;
    }

    /** Reads the page the forge lists, and picks the first pull request with the marker. */
    method FindOpenPull(request: Request) returns (ok: bool, found: Option<nat>)
      modifies this`steps
      ensures ok <==> old(steps) > 0
      ensures steps == if old(steps) > 0 then old(steps) - 1 else 0
      ensures ok ==> found == Found(project, pulls, request)
    {
      if steps == 0 {
        return false, None;
      }
      steps := steps - 1;
      var marker := MarkerOf(request.job);
      var responses := Listed(pulls, |pulls|, PAGE, BranchOf(request.job), project.defaultBranch);
      for i := 0 to |responses|
        invariant FirstMarked(pulls, responses, marker) == FirstMarked(pulls, responses[i..], marker)
      {
        if Contains(pulls[responses[i]].body, marker) {
          return true, Some(responses[i]);
        }
      }
      return true, None;
    }

    /** Asks for a new draft, which the forge may refuse. */
    method PostPull(request: Request) returns (ok: bool, created: Option<nat>)
      modifies this`steps, this`pulls
      ensures ok <==> old(steps) > 0
      ensures steps == if old(steps) > 0 then old(steps) - 1 else 0
      ensures ok ==>
        (created == if project.refuses(old(pulls), BranchOf(request.job), project.defaultBranch) then None
                    else Some(|old(pulls)|))
      ensures Now() == if ok && created.Some? then Posted(project, old(Now()), request) else old(Now())
    {
      if steps == 0 {
        return false, None;
      }
      steps := steps - 1;
      if project.refuses(pulls, BranchOf(request.job), project.defaultBranch) {
        return true, None;
      }
      pulls := pulls + [NewPull(project, request)];
      return true, Some(|pulls| - 1);
    }

    /** Check the names, look for an open pull request, and open one when there is none. */
    method CreateDraftPullRequest(request: Request, ghost call: Call) returns (outcome: Option<Outcome>)
      requires call.request == request && call.phase == SearchPhase(project, request)
      modifies this`steps, this`pulls
      ensures Reaches(project, old(Now()), call, old(steps), Now(), outcome)
    {
      if !KeyUsable(project, request) {
        FinishedCall(project, Now(), call, steps);
        return Some(UnusableKey);
      }
      FirstStep(project, Now(), call, steps);
      var ok, found := FindOpenPull(request);
      if !ok {
        return None;
      }
      if found.Some? {
        return Some(Existing(found.value));
      }
      outcome := OpenPull(request, call.(phase := NoneOpen));
    }

    /** Opens a pull request; when that is refused, looks for one again. */
    method OpenPull(request: Request, ghost call: Call) returns (outcome: Option<Outcome>)
      requires call.request == request && call.phase.NoneOpen?
      modifies this`steps, this`pulls
      ensures Reaches(project, old(Now()), call, old(steps), Now(), outcome)
    {
      FirstStep(project, Now(), call, steps);
      var ok, created := PostPull(request);
      if !ok {
        return None;
      }
      if created.Some? {
        return Some(Opened(created.value));
      }
      FirstStep(project, Now(), call.(phase := PostRefused), steps);
      var found;
      ok, found := FindOpenPull(request);
      if !ok {
        return None;
      }
      match found {
        case Some(i) => return Some(Existing(i));
        case None => return Some(Conflict);
      }
    }

    /** One call: how far it gets and what it leaves behind when it may be stopped anywhere. */
    method Publish(request: Request, misread: bool) returns (outcome: Option<Outcome>)
      modifies this`steps, this`refs, this`pushes, this`pulls
      ensures Reaches(project, old(Now()), Called(request, misread), old(steps), Now(), outcome)
    {
      if !ValidRequest(request) {
        FinishedCall(project, Now(), Called(request, misread), steps);
        return Some(Rejected);
      }
      FirstStep(project, Now(), Called(request, misread), steps);
      var ok, upstream := ReadBranch(project.defaultBranch);
      if !ok {
        return None;
      }
      if upstream != Some(request.baseSha) {
        return Some(UpstreamMoved);
      }
      FirstStep(project, Now(), Call(request, misread, UpstreamRight), steps);
      var sha;
      ok, sha := ReadHead();
      if !ok {
        return None;
      }
      if sha != request.resultSha {
        return Some(Conflict);
      }
      outcome := PublishChecked(request, misread);
    }

    /** From the look-up of the job's branch on; a look-up that fails counts as an absent branch. */
    method PublishChecked(request: Request, misread: bool) returns (outcome: Option<Outcome>)
      modifies this`steps, this`refs, this`pushes, this`pulls
      ensures Reaches(project, old(Now()), Call(request, misread, HeadRight), old(steps), Now(), outcome)
    {
      FirstStep(project, Now(), Call(request, misread, HeadRight), steps);
      var ok, existing := ReadBranch(BranchOf(request.job));
      if !ok {
        return None;
      }
      if !misread && existing.Some? {
        if existing.value != request.resultSha {
          return Some(Conflict);
        }
        outcome := CreateDraftPullRequest(request, Call(request, misread, SearchPhase(project, request)));
      } else {
        outcome := PushAndOpen(request, Call(request, misread, BranchAbsent));
      }
    }

    method PushAndOpen(request: Request, ghost call: Call) returns (outcome: Option<Outcome>)
      requires call.request == request && call.phase.BranchAbsent?
      modifies this`steps, this`refs, this`pushes, this`pulls
      ensures Reaches(project, old(Now()), call, old(steps), Now(), outcome)
    {
      FirstStep(project, Now(), call, steps);
      var ok, accepted := PushHead(request);
      if !ok {
        return None;
      }
      if !accepted {
        return Some(PushRefused);
      }
      outcome := CreateDraftPullRequest(request, call.(phase := SearchPhase(project, request)));
    }
  }

  /** So many steps of the call lead to the world, and to the outcome if it has one. */
  predicate Reaches(project: Project, before: World, call: Call, steps: nat, after: World, outcome: Option<Outcome>) {
    var (world, end) := Stepped(project, before, call, steps);
    after == world && outcome == if end.phase.Done? then Some(end.phase.outcome) else None
  }

  /** Nothing is left to do, or one step is taken and the rest follows. */
  lemma FirstStep(project: Project, world: World, call: Call, steps: nat)
    requires !call.phase.Done?
    ensures steps == 0 ==> Reaches(project, world, call, steps, world, None)
    ensures steps > 0 ==>
      var (w, c) := Next(project, world, call);
      && (c.phase.Done? ==> Reaches(project, world, call, steps, w, Some(c.phase.outcome)))
      && forall after, outcome ::
           Reaches(project, w, c, steps - 1, after, outcome) ==> Reaches(project, world, call, steps, after, outcome)
  {
    if steps > 0 { StepOnce(project, world, call, steps); }
  }
}
