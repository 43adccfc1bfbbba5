/**
 * What one operation on the scopes changes, when a rollback is applied, and how
 * the versions of a scope run.
 */
module HistoryRules {
  import opened Registry
  import opened EffectiveConfig
  import opened RegistryService
  import opened ScopeHistory

  // --------------------------------------------------------------- rollbacks

  /** The key may be brought back: it is registered, and a secret is there already or is cleared with authority. */
  predicate Restorable(registry: Registry, target: Stored, current: Stored, reauthenticated: bool, key: string) {
    && key in registry
    && (registry[key].secret ==>
          && (key in target ==> key in current)
          && (key in current && key !in target ==> reauthenticated))
  }

  ghost predicate AllRestorable(registry: Registry, target: Stored, current: Stored, reauthenticated: bool) {
    forall key :: key in target || key in current ==> Restorable(registry, target, current, reauthenticated, key)
  }

  /** The key is on one side only, or is no secret and has different values. */
  predicate Apart(registry: Registry, target: Stored, current: Stored, key: string) {
    || (key in target && key !in current)
    || (key !in target && key in current)
    || (key in target && key in current && key in registry && !registry[key].secret
        && target[key].value != current[key].value)
  }

  ghost predicate SomeApart(registry: Registry, target: Stored, current: Stored) {
    exists key :: (key in target || key in current) && Apart(registry, target, current, key)
  }

  lemma BlockedIff(registry: Registry, target: Stored, current: Stored, reauthenticated: bool)
    ensures Blocked(registry, target, current, reauthenticated) <==>
            !AllRestorable(registry, target, current, reauthenticated)
  {
  }

  lemma AgreesIff(registry: Registry, target: Stored, current: Stored)
    ensures Agrees(registry, target, current) <==> !SomeApart(registry, target, current)
  {
    if !SomeApart(registry, target, current) {
      forall key ensures key in target <==> key in current {
        assert key in target || key in current ==> !Apart(registry, target, current, key);
      }
      forall key | key in target && key in registry && !registry[key].secret
        ensures target[key].value == current[key].value
      {
        assert !Apart(registry, target, current, key);
      }
    }
  }

  /**
   * A rollback is applied exactly to the scope version it names, when every key
   * may be brought back and some key is not as the target has it.
   */
  lemma RollbackAppliedIff(registry: Registry, store: Store, target: Revision, version: int, reauthenticated: bool)
    ensures var current := StateOf(store, target.scope);
      RollbackDecision(registry, store, target, version, reauthenticated).Success? <==>
      && current.version == version
      && AllRestorable(registry, target.state.values, current.values, reauthenticated)
      && SomeApart(registry, target.state.values, current.values)
  {
    var current := StateOf(store, target.scope);
    RollbackDecides(registry, target.state.values, current.values, reauthenticated);
    BlockedIff(registry, target.state.values, current.values, reauthenticated);
    if RollbackChanges(registry, target.state.values, current.values, reauthenticated).Success? {
      RollbackNoOpIff(registry, target.state.values, current.values, reauthenticated);
      AgreesIff(registry, target.state.values, current.values);
    }
  }

  /** A secret that was added since is cleared; another value is put back, or deleted when it was added since. */
  predicate Undoes(registry: Registry, target: Stored, current: Stored, c: ScopeChange) {
    && c.key in registry && Apart(registry, target, current, c.key)
    && c.secret == registry[c.key].secret && (c.configured <==> c.key in target)
    && c.value == if c.key in target then target[c.key].value else Absent
  }

  /** The changes of a rollback are those, one for each key that is apart. */
  lemma RollbackUndoes(registry: Registry, target: Stored, current: Stored, reauthenticated: bool, c: ScopeChange)
    requires RollbackChanges(registry, target, current, reauthenticated).Success?
    ensures var changes := RollbackChanges(registry, target, current, reauthenticated).value;
      && DistinctChanges(changes)
      && (c in changes <==> Undoes(registry, target, current, c))
  {
    RollbackDecides(registry, target, current, reauthenticated);
    if Undoes(registry, target, current, c) {
      assert c.key in target.Keys + current.Keys;
      BlockedIff(registry, target, current, reauthenticated);
      assert Restorable(registry, target, current, reauthenticated, c.key);
      assert RollbackKey(registry, target, current, reauthenticated, c.key) == Emit(c);
    }
  }

  // --------------------------------------------------------------- one event

  /** The scope an event is at, and the version it takes the scope to be at. */
  function ScopeOf(w: World, event: Event): ScopeRef {
    match event
    case DraftApplied(draft, _, _, _) => draft.scope
    case RolledBack(target, _, _, _) => if target in w.past then w.past[target].scope else SYSTEM_SCOPE
  }

  function BaseOf(event: Event): int {
    match event
    case DraftApplied(draft, _, _, _) => draft.baseVersion
    case RolledBack(_, version, _, _) => version
  }

  function RevisionOf(event: Event): string {
    event.revision
  }

  /** Each value is as it was, or belongs to the new version and revision. */
  predicate OldOrNew(before: Stored, after: Stored, version: int, revision: string) {
    forall key :: key in after ==>
      || (key in before && after[key] == before[key])
      || (after[key].version == version && after[key].revision == revision && after[key].configured)
  }

  /**
   * One scope goes from its version to the next, and its new state is kept under
   * the revision; nothing else changes.
   */
  ghost predicate Advances(before: World, after: World, scope: ScopeRef, revision: string) {
    var was, now := StateOf(before.store, scope), StateOf(after.store, scope);
    && now.version == was.version + 1 && OldOrNew(was.values, now.values, now.version, revision)
    && (forall other: ScopeRef :: other != scope ==> StateOf(after.store, other) == StateOf(before.store, other))
    && after.past == before.past[revision := Revision(scope, now)]
  }

  lemma {:induction false} ChangesOldOrNew(values: Stored, changes: seq<ScopeChange>, version: int, revision: string)
    ensures OldOrNew(values, ApplyChanges(values, changes, version, revision), version, revision)
  {
    if changes != [] { ChangesOldOrNew(values, changes[..|changes| - 1], version, revision); }
  }

  lemma CommitAdvances(w: World, scope: ScopeRef, changes: seq<ScopeChange>, revision: string)
    ensures Advances(w, Commit(w, scope, changes, revision), scope, revision)
  {
    var state := StateOf(w.store, scope);
    ChangesOldOrNew(state.values, changes, state.version + 1, revision);
  }

  /** An operation changes nothing, or advances its scope from the version it names. */
  lemma EventAdvances(registry: Registry, w: World, event: Event)
    ensures var after, scope := After(registry, w, event), ScopeOf(w, event);
      || after == w
      || (Advances(w, after, scope, RevisionOf(event)) && BaseOf(event) == StateOf(w.store, scope).version)
  {
    match event
    case DraftApplied(draft, version, reauthenticated, revision) =>
      var decision := Decision(registry, w.store, draft, version, reauthenticated);
      if decision.Success? { CommitAdvances(w, draft.scope, decision.value, revision); }
    case RolledBack(target, version, reauthenticated, revision) =>
      if target in w.past {
        var decision := RollbackDecision(registry, w.store, w.past[target], version, reauthenticated);
        if decision.Success? { CommitAdvances(w, w.past[target].scope, decision.value, revision); }
      }
  }

  // --------------------------------------------------------------------- runs

  /** The operation at place n of the run is applied, at this scope. */
  predicate AppliedAt(registry: Registry, w: World, events: seq<Event>, n: nat, scope: ScopeRef)
    requires n < |events|
  {
    var before := Run(registry, w, events[..n]);
    After(registry, before, events[n]) != before && ScopeOf(before, events[n]) == scope
  }

  lemma {:induction false} RunOneMore(registry: Registry, w: World, events: seq<Event>, e: Event)
    ensures Run(registry, w, events + [e]) == After(registry, Run(registry, w, events), e)
    decreases events
  {
    if events == [] {
      assert (events + [e])[1..] == [];
    } else {
      RunOneMore(registry, After(registry, w, events[0]), events[1..], e);
      assert (events + [e])[1..] == events[1..] + [e];
    }
  }

  /** How many operations of the run are applied at the scope. */
  function AppliedTo(registry: Registry, w: World, events: seq<Event>, scope: ScopeRef): nat {
    if events == [] then 0
    else
      var n := |events| - 1;
      AppliedTo(registry, w, events[..n], scope) + if AppliedAt(registry, w, events, n, scope) then 1 else 0
  }

  /** A scope's version counts the operations applied to it. */
  lemma {:induction false} VersionCounts(registry: Registry, w: World, events: seq<Event>, scope: ScopeRef)
    ensures StateOf(Run(registry, w, events).store, scope).version ==
            StateOf(w.store, scope).version + AppliedTo(registry, w, events, scope)
  {
    if events != [] {
      var n := |events| - 1;
      var before := Run(registry, w, events[..n]);
      VersionCounts(registry, w, events[..n], scope);
      assert events == events[..n] + [events[n]];
      RunOneMore(registry, w, events[..n], events[n]);
      EventAdvances(registry, before, events[n]);
    }
  }

  lemma {:induction false} AppliedGrows(registry: Registry, w: World, events: seq<Event>, n: nat, scope: ScopeRef)
    requires n <= |events|
    ensures AppliedTo(registry, w, events[..n], scope) <= AppliedTo(registry, w, events, scope)
    decreases |events|
  {
    var m := |events| - 1;
    if n <= m {
      assert events[..m][..n] == events[..n];
      AppliedGrows(registry, w, events[..m], n, scope);
    } else {
      assert events[..n] == events;
    }
  }

  lemma BaseCounts(registry: Registry, w: World, events: seq<Event>, i: nat, scope: ScopeRef)
    requires i < |events| && AppliedAt(registry, w, events, i, scope)
    ensures BaseOf(events[i]) == StateOf(w.store, scope).version + AppliedTo(registry, w, events[..i], scope)
  {
    EventAdvances(registry, Run(registry, w, events[..i]), events[i]);
    VersionCounts(registry, w, events[..i], scope);
  }

  lemma AppliedCounts(registry: Registry, w: World, events: seq<Event>, i: nat, scope: ScopeRef)
    requires i < |events| && AppliedAt(registry, w, events, i, scope)
    ensures AppliedTo(registry, w, events[..i + 1], scope) == AppliedTo(registry, w, events[..i], scope) + 1
  {
    assert events[..i + 1][..i] == events[..i] && events[..i + 1][i] == events[i];
  }

  /** Of two operations applied to a scope the later one was made for a later version. */
  lemma LaterBase(registry: Registry, w: World, events: seq<Event>, i: nat, j: nat, scope: ScopeRef)
    requires i < j < |events|
    requires AppliedAt(registry, w, events, i, scope) && AppliedAt(registry, w, events, j, scope)
    ensures BaseOf(events[i]) < BaseOf(events[j])
  {
    BaseCounts(registry, w, events, i, scope);
    BaseCounts(registry, w, events, j, scope);
    AppliedCounts(registry, w, events, i, scope);
    assert events[..j][..i + 1] == events[..i + 1];
    AppliedGrows(registry, w, events[..j], i + 1, scope);
  }
}
