/**
 * The job workflow: the transition table, and what every run through it has
 * passed, can still reach, and how long it can go on.
 */
module JobStates {

  datatype State =
    | Queued | Syncing | PreparingDependencies | CreatingWorktree | LockingAcceptanceCriteria
    | AwaitingTaskApproval | LoadingImplementationModel | Reproducing | Implementing
    | VerifyingTargeted | VerifyingFull | LoadingTestDesignerModel | TestDesignReview
    | AwaitingTestDesignDisposition | GoldenRehearsalReview | AwaitingGoldenApproval
    | AwaitingRemoteEgressApproval | LoadingDocumentationModel | DocumentationReview | PolicyReview
    | LoadingQCModel | QCReview | AwaitingRepair | Repairing | FinalVerification
    | AwaitingOperator | PublishingBranch | DraftPRCreated | Completed | Failed | Cancelled

  function Transitions(from: State): set<State> {
    match from
    case Queued => {Syncing, Cancelled, Failed}
    case Syncing => {CreatingWorktree, Cancelled, Failed}
    case CreatingWorktree => {PreparingDependencies, Cancelled, Failed}
    case PreparingDependencies => {LockingAcceptanceCriteria, Cancelled, Failed}
    case LockingAcceptanceCriteria => {AwaitingTaskApproval, Cancelled, Failed}
    case AwaitingTaskApproval => {LoadingImplementationModel, Cancelled, Failed}
    case LoadingImplementationModel => {Reproducing, Cancelled, Failed}
    case Reproducing => {Implementing, Cancelled, Failed}
    case Implementing => {VerifyingTargeted, AwaitingRemoteEgressApproval, Cancelled, Failed}
    case VerifyingTargeted => {VerifyingFull, AwaitingRepair, Cancelled, Failed}
    case VerifyingFull =>
      {LoadingTestDesignerModel, GoldenRehearsalReview, LoadingDocumentationModel, LoadingQCModel, AwaitingRepair,
       Cancelled, Failed}
    case LoadingTestDesignerModel => {TestDesignReview, Cancelled, Failed}
    case TestDesignReview =>
      {AwaitingTestDesignDisposition, GoldenRehearsalReview, LoadingDocumentationModel, LoadingQCModel,
       AwaitingRemoteEgressApproval, Cancelled, Failed}
    case AwaitingTestDesignDisposition =>
      {GoldenRehearsalReview, LoadingDocumentationModel, LoadingQCModel, Cancelled, Failed}
    case GoldenRehearsalReview => {AwaitingGoldenApproval, LoadingDocumentationModel, LoadingQCModel, Cancelled, Failed}
    case AwaitingGoldenApproval => {LoadingDocumentationModel, LoadingQCModel, Cancelled, Failed}
    case AwaitingRemoteEgressApproval =>
      {Implementing, TestDesignReview, LoadingDocumentationModel, DocumentationReview, LoadingQCModel, QCReview,
       Repairing, Cancelled, Failed}
    case LoadingDocumentationModel => {DocumentationReview, Cancelled, Failed}
    case DocumentationReview => {PolicyReview, LoadingQCModel, AwaitingRemoteEgressApproval, Cancelled, Failed}
    case PolicyReview => {LoadingQCModel, Cancelled, Failed}
    case LoadingQCModel => {QCReview, Cancelled, Failed}
    case QCReview => {AwaitingRepair, AwaitingOperator, AwaitingRemoteEgressApproval, Cancelled, Failed}
    case AwaitingRepair => {Repairing, AwaitingOperator, Cancelled, Failed}
    case Repairing => {FinalVerification, AwaitingRemoteEgressApproval, Cancelled, Failed}
    case FinalVerification =>
      {LoadingDocumentationModel, PolicyReview, LoadingQCModel, AwaitingRepair, Cancelled, Failed}
    case AwaitingOperator => {PublishingBranch, Completed, Cancelled, Failed}
    case PublishingBranch => {DraftPRCreated, AwaitingOperator, Failed}
    case DraftPRCreated => {Completed, Failed}
    case Completed => {}
    case Failed => {Queued}
    case Cancelled => {Queued}
  }

  predicate CanTransition(from: State, to: State) {
    to in Transitions(from)
  }

  /** From which states one may be entered: every unfinished job may fail, and be cancelled until it publishes. */
  predicate Enters(from: State, to: State) {
    match to
    case Queued => from.Failed? || from.Cancelled?
    case Syncing => from.Queued?
    case PreparingDependencies => from.CreatingWorktree?
    case CreatingWorktree => from.Syncing?
    case LockingAcceptanceCriteria => from.PreparingDependencies?
    case AwaitingTaskApproval => from.LockingAcceptanceCriteria?
    case LoadingImplementationModel => from.AwaitingTaskApproval?
    case Reproducing => from.LoadingImplementationModel?
    case Implementing => from.Reproducing? || from.AwaitingRemoteEgressApproval?
    case VerifyingTargeted => from.Implementing?
    case VerifyingFull => from.VerifyingTargeted?
    case LoadingTestDesignerModel => from.VerifyingFull?
    case TestDesignReview => from.LoadingTestDesignerModel? || from.AwaitingRemoteEgressApproval?
    case AwaitingTestDesignDisposition => from.TestDesignReview?
    case GoldenRehearsalReview => from.VerifyingFull? || from.TestDesignReview? || from.AwaitingTestDesignDisposition?
    case AwaitingGoldenApproval => from.GoldenRehearsalReview?
    case AwaitingRemoteEgressApproval =>
      from.Implementing? || from.TestDesignReview? || from.DocumentationReview? || from.QCReview? ||
      from.Repairing?
    case LoadingDocumentationModel =>
      from.VerifyingFull? || from.TestDesignReview? || from.AwaitingTestDesignDisposition? ||
      from.GoldenRehearsalReview? || from.AwaitingGoldenApproval? || from.AwaitingRemoteEgressApproval? ||
      from.FinalVerification?
    case DocumentationReview => from.AwaitingRemoteEgressApproval? || from.LoadingDocumentationModel?
    case PolicyReview => from.DocumentationReview? || from.FinalVerification?
    case LoadingQCModel =>
      from.VerifyingFull? || from.TestDesignReview? || from.AwaitingTestDesignDisposition? ||
      from.GoldenRehearsalReview? || from.AwaitingGoldenApproval? || from.AwaitingRemoteEgressApproval? ||
      from.DocumentationReview? || from.PolicyReview? || from.FinalVerification?
    case QCReview => from.AwaitingRemoteEgressApproval? || from.LoadingQCModel?
    case AwaitingRepair => from.VerifyingTargeted? || from.VerifyingFull? || from.QCReview? || from.FinalVerification?
    case Repairing => from.AwaitingRemoteEgressApproval? || from.AwaitingRepair?
    case FinalVerification => from.Repairing?
    case AwaitingOperator => from.QCReview? || from.AwaitingRepair? || from.PublishingBranch?
    case PublishingBranch => from.AwaitingOperator?
    case DraftPRCreated => from.PublishingBranch?
    case Completed => from.AwaitingOperator? || from.DraftPRCreated?
    case Failed => !(from.Completed? || from.Failed? || from.Cancelled?)
    case Cancelled =>
      !(from.PublishingBranch? || from.DraftPRCreated? || from.Completed? || from.Failed? || from.Cancelled?)
  }

  /** The table of transitions, read from the states that are entered. */
  lemma TransitionIff(from: State, to: State)
    ensures CanTransition(from, to) <==> Enters(from, to)
  {
    if from.Queued? || from.Syncing? || from.PreparingDependencies? || from.CreatingWorktree? ||
       from.LockingAcceptanceCriteria? {
      LeavingPreparing(from, to);
    } else if from.AwaitingTaskApproval? || from.LoadingImplementationModel? || from.Reproducing? ||
              from.Implementing? || from.VerifyingTargeted? {
      LeavingWorking(from, to);
    } else if from.VerifyingFull? || from.LoadingTestDesignerModel? {
      LeavingTesting(from, to);
    } else if from.TestDesignReview? || from.AwaitingTestDesignDisposition? {
      LeavingTestDesign(from, to);
    } else if from.GoldenRehearsalReview? || from.AwaitingGoldenApproval? || from.AwaitingRemoteEgressApproval? {
      LeavingRehearsing(from, to);
    } else if from.LoadingDocumentationModel? || from.DocumentationReview? || from.PolicyReview? ||
              from.LoadingQCModel? {
      LeavingDocumenting(from, to);
    } else if from.QCReview? || from.AwaitingRepair? || from.Repairing? || from.FinalVerification? {
      LeavingRepairing(from, to);
    } else {
      LeavingLast(from, to);
    }
  }

  lemma LeavingPreparing(from: State, to: State)
    requires from.Queued? || from.Syncing? || from.PreparingDependencies? || from.CreatingWorktree? ||
             from.LockingAcceptanceCriteria?
    ensures CanTransition(from, to) <==> Enters(from, to)
  {
  }

  lemma LeavingWorking(from: State, to: State)
    requires from.AwaitingTaskApproval? || from.LoadingImplementationModel? || from.Reproducing? ||
             from.Implementing? || from.VerifyingTargeted?
    ensures CanTransition(from, to) <==> Enters(from, to)
  {
  }

  lemma LeavingTesting(from: State, to: State)
    requires from.VerifyingFull? || from.LoadingTestDesignerModel?
    ensures CanTransition(from, to) <==> Enters(from, to)
  {
  }

  lemma LeavingTestDesign(from: State, to: State)
    requires from.TestDesignReview? || from.AwaitingTestDesignDisposition?
    ensures CanTransition(from, to) <==> Enters(from, to)
  {
  }

  lemma LeavingRehearsing(from: State, to: State)
    requires from.GoldenRehearsalReview? || from.AwaitingGoldenApproval? || from.AwaitingRemoteEgressApproval?
    ensures CanTransition(from, to) <==> Enters(from, to)
  {
  }

  lemma LeavingDocumenting(from: State, to: State)
    requires from.LoadingDocumentationModel? || from.DocumentationReview? || from.PolicyReview? ||
             from.LoadingQCModel?
    ensures CanTransition(from, to) <==> Enters(from, to)
  {
  }

  lemma LeavingRepairing(from: State, to: State)
    requires from.QCReview? || from.AwaitingRepair? || from.Repairing? || from.FinalVerification?
    ensures CanTransition(from, to) <==> Enters(from, to)
  {
  }

  lemma LeavingLast(from: State, to: State)
    requires from.AwaitingOperator? || from.PublishingBranch? || from.DraftPRCreated? || from.Completed? ||
             from.Failed? || from.Cancelled?
    ensures CanTransition(from, to) <==> Enters(from, to)
  {
  }

  /** Consecutive states of a job, each a permitted transition from the one before. */
  predicate Run(states: seq<State>) {
    forall i :: 0 < i < |states| ==> CanTransition(states[i - 1], states[i])
  }

  // -------------------------------------------------------------- approvals

  /** How many of task approval, implementation and operator decision lie behind a state. */
  function Level(s: State): nat {
    match s
    case Queued | Syncing | PreparingDependencies | CreatingWorktree | LockingAcceptanceCriteria => 0
    case Failed | Cancelled => 0
    case AwaitingTaskApproval | LoadingImplementationModel | Reproducing => 1
    case AwaitingOperator | PublishingBranch | DraftPRCreated | Completed => 3
    case _ => 2
  }

  predicate IsMilestone(s: State, level: nat) {
    match level
    case 1 => s.AwaitingTaskApproval?
    case 2 => s.Implementing?
    case 3 => s.AwaitingOperator?
    case _ => false
  }

  lemma LevelsRiseByMilestones(from: State, to: State)
    requires CanTransition(from, to)
    ensures Level(to) <= Level(from) || (Level(to) == Level(from) + 1 && IsMilestone(to, Level(to)))
  {
    if Level(from) <= 1 { EarlyLevelsRise(from, to); } else { LateLevelsRise(from, to); }
  }

  lemma EarlyLevelsRise(from: State, to: State)
    requires CanTransition(from, to) && Level(from) <= 1
    ensures Level(to) <= Level(from) || (Level(to) == Level(from) + 1 && IsMilestone(to, Level(to)))
  {
  }

  lemma LateLevelsRise(from: State, to: State)
    requires CanTransition(from, to) && Level(from) >= 2
    ensures Level(to) <= Level(from) || (Level(to) == Level(from) + 1 && IsMilestone(to, Level(to)))
  {
  }

  /** The places of the last queueing and of the milestones since, as far as the state's level promises them. */
  ghost predicate Passed(run: seq<State>, m: nat, q: nat, approval: nat, implementing: nat, operator: nat)
    requires m < |run|
  {
    && q <= m && run[q].Queued? && (forall i :: q < i <= m ==> !run[i].Queued?)
    && (Level(run[m]) >= 1 ==> q < approval <= m && run[approval].AwaitingTaskApproval?)
    && (Level(run[m]) >= 2 ==> approval < implementing <= m && run[implementing].Implementing?)
    && (Level(run[m]) >= 3 ==> implementing < operator <= m && run[operator].AwaitingOperator?)
  }

  lemma {:induction false} MilestonesPassed(run: seq<State>, m: nat)
    returns (q: nat, approval: nat, implementing: nat, operator: nat)
    requires Run(run) && m < |run| && run[0].Queued?
    ensures Passed(run, m, q, approval, implementing, operator)
  {
    if m == 0 {
      q, approval, implementing, operator := 0, 0, 0, 0;
    } else {
      q, approval, implementing, operator := MilestonesPassed(run, m - 1);
      LevelsRiseByMilestones(run[m - 1], run[m]);
      q, approval, implementing, operator := OneMorePassed(run, m, q, approval, implementing, operator);
    }
  }

  /** The places after one more state, whose level may have risen at a milestone. */
  lemma OneMorePassed(run: seq<State>, m: nat, q0: nat, approval0: nat, implementing0: nat, operator0: nat)
    returns (q: nat, approval: nat, implementing: nat, operator: nat)
    requires 0 < m < |run| && Passed(run, m - 1, q0, approval0, implementing0, operator0)
    requires var from, to := run[m - 1], run[m];
      Level(to) <= Level(from) || (Level(to) == Level(from) + 1 && IsMilestone(to, Level(to)))
    ensures Passed(run, m, q, approval, implementing, operator)
  {
    q, approval, implementing, operator := q0, approval0, implementing0, operator0;
    if run[m].Queued? { q := m; }
    if Level(run[m]) > Level(run[m - 1]) {
      match run[m]
      case AwaitingTaskApproval => approval := m;
      case Implementing => implementing := m;
      case _ => operator := m;
    }
  }

  /**
   * A job that is publishing, has a draft pull request or is completed was
   * approved, then implemented, then put before an operator, all since it was
   * last queued.
   */
  lemma PublishingWasApproved(run: seq<State>, m: nat)
    requires Run(run) && m < |run| && run[0].Queued?
    requires run[m].PublishingBranch? || run[m].DraftPRCreated? || run[m].Completed?
    ensures exists q, a, i, o ::
      && 0 <= q < a < i < o < m
      && run[q].Queued? && run[a].AwaitingTaskApproval? && run[i].Implementing? && run[o].AwaitingOperator?
      && forall j :: q < j <= m ==> !run[j].Queued?
  {
    var q, a, i, o := MilestonesPassed(run, m);
    assert o < m;
  }

  // -------------------------------------------------------------- completion

  lemma {:induction false} CompletedIsFinal(run: seq<State>, i: nat)
    requires Run(run) && i < |run| && run[i].Completed?
    ensures i == |run| - 1
  {
    assert i + 1 < |run| ==> CanTransition(run[i + 1 - 1], run[i + 1]);
  }

  /** Steps of a shortest way to completion. */
  function Distance(s: State): nat {
    match s
    case Completed => 0
    case AwaitingOperator | DraftPRCreated => 1
    case QCReview | AwaitingRepair | PublishingBranch => 2
    case LoadingQCModel | AwaitingRemoteEgressApproval | VerifyingTargeted | VerifyingFull | FinalVerification => 3
    case TestDesignReview | AwaitingTestDesignDisposition | GoldenRehearsalReview
       | AwaitingGoldenApproval | DocumentationReview | PolicyReview | Implementing | Repairing => 4
    case LoadingTestDesignerModel | LoadingDocumentationModel | Reproducing => 5
    case LoadingImplementationModel => 6
    case AwaitingTaskApproval => 7
    case LockingAcceptanceCriteria => 8
    case PreparingDependencies => 9
    case CreatingWorktree => 10
    case Syncing => 11
    case Queued => 12
    case Failed | Cancelled => 13
  }

  function Closer(s: State): State
    requires !s.Completed?
  {
    match s
    case AwaitingOperator | DraftPRCreated => Completed
    case QCReview | AwaitingRepair => AwaitingOperator
    case PublishingBranch => DraftPRCreated
    case LoadingQCModel | AwaitingRemoteEgressApproval => QCReview
    case VerifyingTargeted | VerifyingFull | FinalVerification => AwaitingRepair
    case TestDesignReview | AwaitingTestDesignDisposition | GoldenRehearsalReview
       | AwaitingGoldenApproval | DocumentationReview | PolicyReview => LoadingQCModel
    case Implementing | Repairing => AwaitingRemoteEgressApproval
    case LoadingTestDesignerModel => TestDesignReview
    case LoadingDocumentationModel => DocumentationReview
    case Reproducing => Implementing
    case LoadingImplementationModel => Reproducing
    case AwaitingTaskApproval => LoadingImplementationModel
    case LockingAcceptanceCriteria => AwaitingTaskApproval
    case PreparingDependencies => LockingAcceptanceCriteria
    case CreatingWorktree => PreparingDependencies
    case Syncing => CreatingWorktree
    case Queued => Syncing
    case Failed | Cancelled => Queued
  }

  lemma CloserIsStep(s: State)
    requires !s.Completed?
    ensures CanTransition(s, Closer(s))
  {
  }

  lemma CloserIsCloser(s: State)
    requires !s.Completed?
    ensures Distance(Closer(s)) == Distance(s) - 1
  {
  }

  /** Every state can still be completed. */
  lemma {:induction false} CompletionReachable(s: State) returns (run: seq<State>)
    ensures Run(run) && run != [] && run[0] == s && run[|run| - 1] == Completed
    ensures |run| == Distance(s) + 1
    decreases Distance(s)
  {
    if s.Completed? {
      run := [s];
    } else {
      CloserIsStep(s);
      CloserIsCloser(s);
      var rest := CompletionReachable(Closer(s));
      run := [s] + rest;
    }
  }

  lemma FarStepIsNoShorter(from: State, to: State)
    requires CanTransition(from, to) && Distance(from) > 5
    ensures Distance(from) <= Distance(to) + 1
  {
  }

  lemma ReviewStepIsNoShorter(from: State, to: State)
    requires CanTransition(from, to) && Distance(from) == 4
    ensures Distance(from) <= Distance(to) + 1
  {
  }

  lemma NearStepIsNoShorter(from: State, to: State)
    requires CanTransition(from, to) && (Distance(from) == 5 || Distance(from) < 4)
    ensures Distance(from) <= Distance(to) + 1
  {
  }

  lemma NoStepIsShorter(from: State, to: State)
    requires CanTransition(from, to)
    ensures Distance(from) <= Distance(to) + 1
  {
    if Distance(from) > 5 {
      FarStepIsNoShorter(from, to);
    } else if Distance(from) == 4 {
      ReviewStepIsNoShorter(from, to);
    } else {
      NearStepIsNoShorter(from, to);
    }
  }

  /** And no run gets there in fewer steps. */
  lemma {:induction false} DistanceIsShortest(run: seq<State>)
    requires Run(run) && run != [] && run[|run| - 1].Completed?
    ensures |run| >= Distance(run[0]) + 1
  {
    if |run| > 1 {
      var rest := run[1..];
      assert forall i :: 0 < i < |rest| ==> rest[i - 1] == run[i] && rest[i] == run[i + 1];
      assert Run(rest) by {
        forall i | 0 < i < |rest| ensures CanTransition(rest[i - 1], rest[i]) {
          assert CanTransition(run[i + 1 - 1], run[i + 1]);
        }
      }
      DistanceIsShortest(rest);
      assert CanTransition(run[1 - 1], run[1]);
      NoStepIsShorter(run[0], run[1]);
    }
  }

  // -------------------------------------------------------------- termination

  /** The states at which a run may turn back. */
  predicate Hub(s: State) {
    s.Queued? || s.AwaitingRepair? || s.AwaitingRemoteEgressApproval? || s.AwaitingOperator?
  }

  function Rank(s: State): nat {
    match s
    case Queued => 28
    case Syncing => 27
    case CreatingWorktree => 26
    case PreparingDependencies => 25
    case LockingAcceptanceCriteria => 24
    case AwaitingTaskApproval => 23
    case LoadingImplementationModel => 22
    case Reproducing => 21
    case AwaitingRemoteEgressApproval => 20
    case Implementing => 19
    case VerifyingTargeted => 18
    case VerifyingFull => 17
    case LoadingTestDesignerModel => 16
    case TestDesignReview => 15
    case AwaitingTestDesignDisposition => 14
    case GoldenRehearsalReview => 13
    case AwaitingGoldenApproval => 12
    case AwaitingRepair => 11
    case Repairing => 10
    case FinalVerification => 9
    case LoadingDocumentationModel => 8
    case DocumentationReview => 7
    case PolicyReview => 6
    case LoadingQCModel => 5
    case QCReview => 4
    case AwaitingOperator => 3
    case PublishingBranch => 2
    case DraftPRCreated => 1
    case Completed | Failed | Cancelled => 0
  }

  lemma RankFallsEarly(from: State, to: State)
    requires CanTransition(from, to) && !Hub(to) && Rank(from) >= 19
    ensures Rank(to) < Rank(from)
  {
  }

  lemma RankFallsInTests(from: State, to: State)
    requires CanTransition(from, to) && !Hub(to) && 14 <= Rank(from) < 19
    ensures Rank(to) < Rank(from)
  {
  }

  lemma RankFallsInRepair(from: State, to: State)
    requires CanTransition(from, to) && !Hub(to) && 8 <= Rank(from) < 14
    ensures Rank(to) < Rank(from)
  {
  }

  lemma RankFallsLate(from: State, to: State)
    requires CanTransition(from, to) && !Hub(to) && 4 <= Rank(from) < 8
    ensures Rank(to) < Rank(from)
  {
  }

  lemma RankFallsLast(from: State, to: State)
    requires CanTransition(from, to) && !Hub(to) && Rank(from) < 4
    ensures Rank(to) < Rank(from)
  {
  }

  /** Every step that enters no hub goes down in rank. */
  lemma RankFalls(from: State, to: State)
    requires CanTransition(from, to) && !Hub(to)
    ensures Rank(to) < Rank(from)
  {
    if Rank(from) >= 19 {
      RankFallsEarly(from, to);
    } else if Rank(from) >= 14 {
      RankFallsInTests(from, to);
    } else if Rank(from) >= 8 {
      RankFallsInRepair(from, to);
    } else if Rank(from) >= 4 {
      RankFallsLate(from, to);
    } else {
      RankFallsLast(from, to);
    }
  }

  /** What entering the hubs after the first state adds to a run. */
  function Detours(run: seq<State>): nat {
    if |run| <= 1 then 0
    else Detours(run[..|run| - 1]) + if Hub(run[|run| - 1]) then 1 + Rank(run[|run| - 1]) else 0
  }

  /** A run is no longer than its first state's rank and its detours allow. */
  lemma {:induction false} RunLength(run: seq<State>)
    requires Run(run) && run != []
    ensures |run| - 1 + Rank(run[|run| - 1]) <= Rank(run[0]) + Detours(run)
  {
    var n := |run| - 1;
    if n > 0 {
      RunLength(run[..n]);
      assert CanTransition(run[n - 1], run[n]);
      if !Hub(run[n]) { RankFalls(run[n - 1], run[n]); }
    }
  }

  lemma {:induction false} NoDetours(run: seq<State>)
    requires forall i :: 0 < i < |run| ==> !Hub(run[i])
    ensures Detours(run) == 0
  {
    if |run| > 1 { NoDetours(run[..|run| - 1]); }
  }

  /** A state that occurs twice has a hub between, or is one. */
  lemma LoopsMeetHubs(run: seq<State>, i: nat, j: nat)
    requires Run(run) && i < j < |run| && run[i] == run[j]
    ensures exists h :: i < h <= j && Hub(run[h])
  {
    if forall h :: i < h <= j ==> !Hub(run[h]) {
      var part := run[i..j + 1];
      PartOfRun(run, i, j, part);
      NoDetours(part);
      RunLength(part);
      assert false;
    }
  }

  lemma PartOfRun(run: seq<State>, i: nat, j: nat, part: seq<State>)
    requires Run(run) && i <= j < |run| && part == run[i..j + 1]
    ensures Run(part)
  {
    forall k | 0 < k < |part| ensures CanTransition(part[k - 1], part[k]) {
      assert CanTransition(run[i + k - 1], run[i + k]);
    }
  }
}
