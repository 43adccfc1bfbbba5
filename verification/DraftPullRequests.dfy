/** The pull requests the program opens are drafts, and stay what it opened. */
module DraftPullRequests {
  import opened GitNames
  import opened Publication

  /** Every pull request the program opened is a draft. */
  predicate OwnAreDrafts(world: World) {
    forall i :: 0 <= i < |world.pulls| && world.pulls[i].ours ==> world.pulls[i].draft
  }

  lemma EventKeepsDrafts(project: Project, s: System, e: Event)
    requires OwnAreDrafts(s.world)
    ensures OwnAreDrafts(After(project, s, e).world)
  {
    match e
    case Step => if s.call.Some? { StepKeepsDrafts(project, s.world, s.call.value); }
    case Outside(change) => ChangeKeepsDrafts(project, s.world, change);
    case Start(_, _) =>
    case Crash =>
    case Work(_) =>
  }

  lemma StepKeepsDrafts(project: Project, world: World, call: Call)
    requires OwnAreDrafts(world)
    ensures OwnAreDrafts(Next(project, world, call).0)
  {
  }

  lemma ChangeKeepsDrafts(project: Project, world: World, change: Change)
    requires OwnAreDrafts(world)
    ensures OwnAreDrafts(Changed(project, world, change))
  {
  }

  /** Over any run of calls, crashes and changes by others, what the program opened are drafts. */
  lemma {:induction false} RunKeepsDrafts(project: Project, s: System, events: seq<Event>)
    requires OwnAreDrafts(s.world)
    ensures OwnAreDrafts(Run(project, s, events).world)
  {
    if events != [] {
      var n := |events| - 1;
      RunKeepsDrafts(project, s, events[..n]);
      EventKeepsDrafts(project, Run(project, s, events[..n]), events[n]);
    }
  }

  /** An open pull request from the job's branch to the default branch that carries the job's marker. */
  predicate IsForJob(project: Project, p: Pull, job: string) {
    && p.open && p.head == "maintainer/" + job && p.base == project.defaultBranch
    && Contains(p.body, "<!-- maintainer-operation:" + job + "_publication -->")
  }

  /** The text of the marker. */
  lemma MarkerReads(job: string)
    ensures MarkerOf(job) == "<!-- maintainer-operation:" + job + "_publication -->"
  {
    assert "<!-- maintainer-operation:" + (job + "_publication") + " -->" ==
           "<!-- maintainer-operation:" + job + "_publication -->";
  }

  lemma FoundIsForJob(project: Project, pulls: seq<Pull>, request: Request)
    ensures Found(project, pulls, request).Some? ==>
      var i := Found(project, pulls, request).value;
      i < |pulls| && IsForJob(project, pulls[i], request.job)
  {
    MarkerReads(request.job);
    var listed := Listed(pulls, |pulls|, PAGE, BranchOf(request.job), project.defaultBranch);
    if Found(project, pulls, request).Some? {
      var k :| 0 <= k < |listed| && listed[k] == Found(project, pulls, request).value;
    }
  }

  lemma NewIsForJob(project: Project, request: Request)
    ensures IsForJob(project, NewPull(project, request), request.job)
    ensures NewPull(project, request).draft && NewPull(project, request).ours
  {
    MarkerReads(request.job);
    DescriptionMarked(project, request);
  }

  /** The last pull request is new: an open draft for the job, described by the result, with the job's marker. */
  predicate AddsDraft(project: Project, before: seq<Pull>, after: seq<Pull>, request: Request) {
    && |after| == |before| + 1 && after[..|before|] == before
    && after[|before|].draft && after[|before|].ours && IsForJob(project, after[|before|], request.job)
    && after[|before|].body == project.summary(request.resultSha) + "\n\n" +
         ("<!-- maintainer-operation:" + request.job + "_publication -->")
  }

  lemma PostedAdds(project: Project, world: World, request: Request)
    ensures AddsDraft(project, world.pulls, Posted(project, world, request).pulls, request)
  {
    NewIsForJob(project, request);
    MarkerReads(request.job);
  }

  /**
   * A call that finds a pull request names an open one for the job; one that
   * opens a pull request adds it, an open draft for the job, and nothing else.
   */
  lemma OutcomeNames(project: Project, world: World, request: Request, misread: bool)
    ensures var (after, outcome) := Publication.Result(project, world, request, misread);
      && (outcome.Existing? ==>
            && after.pulls == world.pulls && outcome.pull < |world.pulls|
            && IsForJob(project, world.pulls[outcome.pull], request.job))
      && (outcome.Opened? ==>
            outcome.pull == |world.pulls| && AddsDraft(project, world.pulls, after.pulls, request))
      && (!outcome.Existing? && !outcome.Opened? ==> after.pulls == world.pulls)
  {
    FoundIsForJob(project, world.pulls, request);
    PostedAdds(project, Pushed(world, request), request);
  }
}
