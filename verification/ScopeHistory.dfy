/**
 * Applying drafts and rolling back, as operations on a repository object, and
 * what they keep over every run.
 */
module ScopeHistory {
  import opened Documents
  import opened Ordering
  import opened Registry
  import opened EffectiveConfig
  import opened Drafts
  import opened RegistryService
  import opened ScopeLists

  datatype DraftState = Open | Reviewed | Applied | Discarded

  datatype Draft = Draft(scope: ScopeRef, state: DraftState, baseVersion: int, version: int, entries: seq<DraftEntry>)

  datatype Revision = Revision(scope: ScopeRef, state: ScopeState)

  // ---------------------------------------------------------------- rollback

  datatype KeyOutcome = Refuse | Skip | Emit(change: ScopeChange)

  type Stored = map<string, StoredValue>

  function RollbackKey(
    registry: Registry, target: Stored, current: Stored, reauthenticated: bool, key: string): KeyOutcome {
    if key !in registry then Refuse
    else if registry[key].secret then
      if key in target && key !in current then Refuse
      else if key !in target && key in current then
        if reauthenticated then Emit(ScopeChange(key, Absent, false, true)) else Refuse
      else Skip
    else if key in target then
      if key !in current || target[key].value != current[key].value then
        Emit(ScopeChange(key, target[key].value, true, false))
      else Skip
    else if key in current then Emit(ScopeChange(key, Absent, false, false))
    else Skip
  }

  function RollbackKeys(registry: Registry, target: Stored, current: Stored, reauthenticated: bool, keys: seq<string>)
    : Result<seq<ScopeChange>>
  {
    if keys == [] then Success([])
    else
      match RollbackKeys(registry, target, current, reauthenticated, keys[..|keys| - 1])
      case Failure => Failure
      case Success(changes) =>
        match RollbackKey(registry, target, current, reauthenticated, keys[|keys| - 1])
        case Refuse => Failure
        case Skip => Success(changes)
        case Emit(change) => Success(changes + [change])
  }

  function RollbackChanges(registry: Registry, target: Stored, current: Stored, reauthenticated: bool)
    : Result<seq<ScopeChange>>
  {
    RollbackKeys(registry, target, current, reauthenticated, Sorted(target.Keys + current.Keys))
  }

  method ComputeRollback(registry: Registry, target: Stored, current: Stored, reauthenticated: bool)
    returns (r: Result<seq<ScopeChange>>)
    ensures r == RollbackChanges(registry, target, current, reauthenticated)
  {
    var ordered := Sorted(target.Keys + current.Keys);
    var changes := [];
    for i := 0 to |ordered|
      invariant RollbackKeys(registry, target, current, reauthenticated, ordered[..i]) == Success(changes)
    {
      var key := ordered[i];
      assert ordered[..i + 1][..i] == ordered[..i];
      if RollbackKey(registry, target, current, reauthenticated, key).Refuse? {
        RollbackStops(registry, target, current, reauthenticated, ordered, i);
      }
      if key !in registry {
        return Failure;
      }
      if registry[key].secret {
        if key in target && key !in current {
          return Failure;
        }
        if key !in target && key in current {
          if !reauthenticated {
            return Failure;
          }
          changes := changes + [ScopeChange(key, Absent, false, true)];
        }
        continue;
      }
      if key in target {
        if key !in current || target[key].value != current[key].value {
          changes := changes + [ScopeChange(key, target[key].value, true, false)];
        }
      } else if key in current {
        changes := changes + [ScopeChange(key, Absent, false, false)];
      }
    }
    assert ordered[..|ordered|] == ordered;
    r := Success(changes);
  }

  lemma {:induction false} RollbackStops(
    registry: Registry, target: Stored, current: Stored, reauthenticated: bool, keys: seq<string>, i: nat)
    requires i < |keys| && RollbackKey(registry, target, current, reauthenticated, keys[i]).Refuse?
    ensures RollbackKeys(registry, target, current, reauthenticated, keys).Failure?
  {
    if i < |keys| - 1 {
      RollbackStops(registry, target, current, reauthenticated, keys[..|keys| - 1], i);
    }
  }

  /** Each key is looked at once: it is emitted exactly when its outcome says so. */
  lemma {:induction false} RollbackEmits(
    registry: Registry, target: Stored, current: Stored, reauthenticated: bool, keys: seq<string>)
    requires Ascending(keys)
    ensures var r := RollbackKeys(registry, target, current, reauthenticated, keys);
      && (r.Failure? <==> exists k :: k in keys && RollbackKey(registry, target, current, reauthenticated, k).Refuse?)
      && (r.Success? ==>
            && DistinctChanges(r.value)
            && (forall c :: c in r.value ==>
                 c.key in keys && RollbackKey(registry, target, current, reauthenticated, c.key) == Emit(c))
            && (forall k :: k in keys && RollbackKey(registry, target, current, reauthenticated, k).Emit? ==>
                  RollbackKey(registry, target, current, reauthenticated, k).change in r.value))
  {
    if keys != [] {
      var n := |keys| - 1;
      RollbackEmits(registry, target, current, reauthenticated, keys[..n]);
      AscendingDistinct(keys);
      assert forall k :: k in keys <==> k in keys[..n] || k == keys[n];
      assert keys[n] !in keys[..n];
    }
  }

  /** The scope already has the target's keys and the target's non-secret values. */
  predicate Agrees(registry: Registry, target: Stored, current: Stored) {
    && target.Keys == current.Keys
    && forall key :: key in target && key in registry && !registry[key].secret ==>
         target[key].value == current[key].value
  }

  predicate Differs(registry: Registry, target: Stored, current: Stored, key: string) {
    key !in target || key !in current ||
    (key in registry && !registry[key].secret && target[key].value != current[key].value)
  }

  /** What makes a rollback impossible: an unknown key, or a secret it cannot restore or may not clear. */
  predicate Blocked(registry: Registry, target: Stored, current: Stored, reauthenticated: bool) {
    exists key :: key in target.Keys + current.Keys &&
      (key !in registry || (registry[key].secret &&
         ((key in target && key !in current) || (key !in target && key in current && !reauthenticated))))
  }

  lemma {:induction false} RollbackDecides(registry: Registry, target: Stored, current: Stored, reauthenticated: bool)
    ensures RollbackChanges(registry, target, current, reauthenticated).Failure?
      <==> Blocked(registry, target, current, reauthenticated)
    ensures var r := RollbackChanges(registry, target, current, reauthenticated);
      r.Success? ==>
        && DistinctChanges(r.value)
        && (forall c :: c in r.value ==>
              && c.key in target.Keys + current.Keys
              && RollbackKey(registry, target, current, reauthenticated, c.key) == Emit(c))
        && (forall k :: k in target.Keys + current.Keys ==>
              var outcome := RollbackKey(registry, target, current, reauthenticated, k);
              outcome.Emit? ==> outcome.change in r.value)
  {
    SortedAscending(target.Keys + current.Keys);
    RollbackEmits(registry, target, current, reauthenticated, Sorted(target.Keys + current.Keys));
    BlockedByKey(registry, target, current, reauthenticated, Sorted(target.Keys + current.Keys));
  }

  lemma BlockedByKey(registry: Registry, target: Stored, current: Stored, reauthenticated: bool, keys: seq<string>)
    requires forall k :: k in keys <==> k in target.Keys + current.Keys
    ensures (exists k :: k in keys && RollbackKey(registry, target, current, reauthenticated, k).Refuse?)
      <==> Blocked(registry, target, current, reauthenticated)
  {
  }

  /** A change names only keys that differ, and every key that differs is named. */
  lemma RollbackNames(registry: Registry, target: Stored, current: Stored, reauthenticated: bool, key: string)
    requires RollbackChanges(registry, target, current, reauthenticated).Success?
    ensures (exists c :: c in RollbackChanges(registry, target, current, reauthenticated).value && c.key == key)
      <==> key in target.Keys + current.Keys && Differs(registry, target, current, key)
  {
    RollbackDecides(registry, target, current, reauthenticated);
    var changes := RollbackChanges(registry, target, current, reauthenticated).value;
    if key in target.Keys + current.Keys {
      assert key in registry;
      if Differs(registry, target, current, key) {
        assert RollbackKey(registry, target, current, reauthenticated, key).Emit?;
        assert RollbackKey(registry, target, current, reauthenticated, key).change.key == key;
      }
    }
  }

  /** Refused as a no-op exactly when nothing differs. */
  lemma RollbackNoOpIff(registry: Registry, target: Stored, current: Stored, reauthenticated: bool)
    requires RollbackChanges(registry, target, current, reauthenticated).Success?
    ensures RollbackChanges(registry, target, current, reauthenticated).value == [] <==>
            Agrees(registry, target, current)
  {
    var changes := RollbackChanges(registry, target, current, reauthenticated).value;
    if changes != [] {
      assert changes[0] in changes;
      RollbackNames(registry, target, current, reauthenticated, changes[0].key);
    }
    if !Agrees(registry, target, current) {
      var key :| key in target.Keys + current.Keys && Differs(registry, target, current, key);
      RollbackNames(registry, target, current, reauthenticated, key);
    }
  }

  /** One key after a rollback: present as in the target, a secret untouched, any other value the target's. */
  predicate RestoredAt(
    registry: Registry, target: Stored, current: Stored, after: Stored, version: int, revision: string, key: string)
  {
    && (key in after <==> key in target)
    && (key in after ==>
          && key in registry
          && (registry[key].secret ==> key in current && after[key] == current[key])
          && (!registry[key].secret ==>
                || after[key] == StoredValue(target[key].value, true, false, version, revision)
                || (key in current && after[key] == current[key] && target[key].value == current[key].value)))
  }

  ghost predicate Restored(
    registry: Registry, target: Stored, current: Stored, after: Stored, version: int, revision: string)
  {
    forall key :: RestoredAt(registry, target, current, after, version, revision, key)
  }

  /** The change list brings the scope to the target's keys and non-secret values, and keeps its secrets. */
  lemma RollbackRestores(
    registry: Registry, target: Stored, current: Stored, reauthenticated: bool, version: int, revision: string)
    requires RollbackChanges(registry, target, current, reauthenticated).Success?
    ensures var changes := RollbackChanges(registry, target, current, reauthenticated).value;
      var after := ApplyChanges(current, changes, version, revision);
      && Agrees(registry, target, after)
      && Restored(registry, target, current, after, version, revision)
  {
    var after := ApplyChanges(current, RollbackChanges(registry, target, current, reauthenticated).value, version,
      revision);
    forall key ensures RestoredAt(registry, target, current, after, version, revision, key) {
      RollbackAt(registry, target, current, reauthenticated, after, version, revision, key);
    }
    RestoredAgrees(registry, target, current, after, version, revision);
  }

  lemma RestoredAgrees(
    registry: Registry, target: Stored, current: Stored, after: Stored, version: int, revision: string)
    ensures Restored(registry, target, current, after, version, revision) ==> Agrees(registry, target, after)
  {
    if Restored(registry, target, current, after, version, revision) {
      forall key ensures key in after <==> key in target {
        assert RestoredAt(registry, target, current, after, version, revision, key);
      }
      forall key | key in target && key in registry && !registry[key].secret
        ensures target[key].value == after[key].value {
        assert RestoredAt(registry, target, current, after, version, revision, key);
      }
    }
  }

  lemma RollbackAt(
    registry: Registry, target: Stored, current: Stored, reauthenticated: bool,
    after: Stored, version: int, revision: string, key: string)
    requires RollbackChanges(registry, target, current, reauthenticated).Success?
    requires after == ApplyChanges(current, RollbackChanges(registry, target, current, reauthenticated).value, version,
             revision)
    ensures RestoredAt(registry, target, current, after, version, revision, key)
  {
    RollbackDecides(registry, target, current, reauthenticated);
    var changes := RollbackChanges(registry, target, current, reauthenticated).value;
    var outcome := RollbackKey(registry, target, current, reauthenticated, key);
    if key in target.Keys + current.Keys && outcome.Emit? {
      var i := IndexOf(changes, outcome.change);
      ChangeHits(current, changes, version, revision, i);
    } else {
      forall i | 0 <= i < |changes| ensures changes[i].key != key { assert changes[i] in changes; }
      ChangeMisses(current, changes, version, revision, key);
    }
  }

  // ------------------------------------- consistency after a rollback, exactly

  /** What the repository records of every value: a version, a revision, and for a secret no value. */
  predicate Recorded(v: StoredValue) {
    v.version >= 1 && v.revision != "" && (v.secret ==> v.value.Absent? && v.configured)
  }

  predicate AllRecorded(registry: Registry, values: Stored) {
    forall key :: key in values && key in registry ==> Recorded(values[key])
  }

  /** Settings that are secret now were stored as secrets. */
  predicate Sealed(registry: Registry, values: Stored) {
    forall key :: key in values && key in registry && registry[key].secret ==> values[key].secret
  }

  /** The target's values, with the secrets there are now. */
  function Reinstated(registry: Registry, target: Stored, current: Stored): Stored {
    map key | key in target ::
      if key in registry && registry[key].secret && key in current then current[key] else target[key]
  }

  /** A recorded value of a setting that is no secret is accepted for its value alone. */
  lemma RecordedAlike(d: Descriptor, key: string, scope: ScopeRef, a: StoredValue, b: StoredValue)
    requires !d.secret && Recorded(a) && Recorded(b) && a.value == b.value
    ensures AlikeValues(d, Scoped(key, scope, a), Scoped(key, scope, b))
  {
  }

  lemma SealedAlike(d: Descriptor, key: string, scope: ScopeRef, a: StoredValue, b: StoredValue)
    requires d.secret && Recorded(a) && Recorded(b) && a.secret && b.secret
    ensures AlikeValues(d, Scoped(key, scope, a), Scoped(key, scope, b))
  {
  }

  lemma ReinstatedAlike(
    registry: Registry, scope: ScopeRef, target: Stored, current: Stored, after: Stored, version: int, revision: string,
    key: string)
    requires key in registry && RestoredAt(registry, target, current, after, version, revision, key)
    requires AllRecorded(registry, target) && AllRecorded(registry, current) && version >= 1 && revision != ""
    ensures Alike(registry[key], OwnIn(Reinstated(registry, target, current), scope, key), OwnIn(after, scope, key))
  {
    if key in target && !registry[key].secret { RecordedAlike(registry[key], key, scope, target[key], after[key]); }
  }

  lemma SealedReinstated(registry: Registry, scope: ScopeRef, target: Stored, current: Stored, key: string)
    requires AllRecorded(registry, target) && AllRecorded(registry, current) && key in registry
    requires Sealed(registry, target) && Sealed(registry, current)
    ensures Alike(registry[key], OwnIn(Reinstated(registry, target, current), scope, key), OwnIn(target, scope, key))
  {
    if key in target && registry[key].secret && key in current {
      SealedAlike(registry[key], key, scope, current[key], target[key]);
    }
  }

  lemma {:induction false} SuccessorRestored(
    registry: Registry, target: Stored, current: ScopeState, reauthenticated: bool, revision: string)
    requires RollbackChanges(registry, target, current.values, reauthenticated).Success?
    ensures var changes := RollbackChanges(registry, target, current.values, reauthenticated).value;
      var next := Successor(current, changes, revision);
      Restored(registry, target, current.values, next.values, next.version, revision)
  {
    var next := Successor(current, RollbackChanges(registry, target, current.values, reauthenticated).value, revision);
    assert next.values == ApplyChanges(
      current.values, RollbackChanges(registry, target, current.values, reauthenticated).value, next.version, revision);
    forall key ensures RestoredAt(registry, target, current.values, next.values, next.version, revision, key) {
      RollbackAt(registry, target, current.values, reauthenticated, next.values, next.version, revision, key);
    }
  }

  /** The store after the scope was rolled back. */
  function RolledBackTo(
    registry: Registry, store: Store, scope: ScopeRef, target: Stored, reauthenticated: bool, revision: string): Store
    requires RollbackChanges(registry, target, StateOf(store, scope).values, reauthenticated).Success?
  {
    var changes := RollbackChanges(registry, target, StateOf(store, scope).values, reauthenticated).value;
    Updated(store, scope, changes, revision)
  }

  /** What a rollback starts from: it is not refused, and both states are as the repository records them. */
  predicate Rollbackable(
    registry: Registry, store: Store, scope: ScopeRef, target: Stored, reauthenticated: bool, revision: string)
  {
    && RollbackChanges(registry, target, StateOf(store, scope).values, reauthenticated).Success?
    && revision != "" && StateOf(store, scope).version >= 0
    && AllRecorded(registry, target) && AllRecorded(registry, StateOf(store, scope).values)
  }

  /**
   * Rolling back checks neither values nor relations.  Every list of scopes has
   * afterwards what it has with the target state and the present secrets on top
   * of the other scopes as they are now, and fails to resolve when that fails.
   */
  lemma RollbackReinstates(
    registry: Registry, store: Store, scope: ScopeRef, target: ScopeState, reauthenticated: bool, revision: string,
    scopes: seq<ScopeRef>)
    requires Rollbackable(registry, store, scope, target.values, reauthenticated, revision)
    ensures var present := target.(values := Reinstated(registry, target.values, StateOf(store, scope).values));
      var rolled := RolledBackTo(registry, store, scope, target.values, reauthenticated, revision);
      var after := Effective(registry, rolled, scopes);
      var goal := Effective(registry, store[scope := present], scopes);
      && (after.Success? <==> goal.Success?)
      && (after.Success? ==> ValuesOf(after.value) == ValuesOf(goal.value))
  {
    var current := StateOf(store, scope);
    var present := target.(values := Reinstated(registry, target.values, current.values));
    var changes := RollbackChanges(registry, target.values, current.values, reauthenticated).value;
    var next := Successor(current, changes, revision);
    SuccessorRestored(registry, target.values, current, reauthenticated, revision);
    forall key | key in registry
      ensures Alike(registry[key], OwnIn(next.values, scope, key), OwnIn(present.values, scope, key))
    {
      assert RestoredAt(registry, target.values, current.values, next.values, next.version, revision, key);
      ReinstatedAlike(registry, scope, target.values, current.values, next.values, next.version, revision, key);
    }
    AlikeLists(registry, store, scope, next, present, scopes);
  }

  /** Rolling back to a value the registry no longer accepts leaves a chain that does not resolve at all. */
  lemma UnacceptedStopsChain(
    registry: Registry, store: Store, scope: ScopeRef, target: ScopeState, reauthenticated: bool, revision: string,
    key: string)
    requires Rollbackable(registry, store, scope, target.values, reauthenticated, revision)
    requires ValidScope(scope) && !scope.kind.BuiltIn?
    requires key in target.values && key in registry && !registry[key].secret
    requires !Accepts(registry[key], target.values[key].value)
    ensures var rolled := RolledBackTo(registry, store, scope, target.values, reauthenticated, revision);
      Effective(registry, rolled, Chain(scope)).Failure?
  {
    var present := target.(values := Reinstated(registry, target.values, StateOf(store, scope).values));
    RollbackReinstates(registry, store, scope, target, reauthenticated, revision, Chain(scope));
    if Effective(registry, store[scope := present], Chain(scope)).Success? {
      OwnIsAdmissible(registry, store[scope := present], scope, key);
    }
  }

  lemma OwnIsAdmissible(registry: Registry, store: Store, scope: ScopeRef, key: string)
    requires ValidScope(scope) && !scope.kind.BuiltIn? && Effective(registry, store, Chain(scope)).Success?
    requires key in StateOf(store, scope).values && key in registry
    ensures Admissible(registry[key], Scoped(key, scope, StateOf(store, scope).values[key]))
  {
    var v := Scoped(key, scope, StateOf(store, scope).values[key]);
    ChainAllowed(scope);
    ListEffective(registry, store, Chain(scope));
    SortChain(scope);
    LayeredMembers(store, Chain(scope), key, v);
    assert v in Stack(store, Chain(scope), key);
    assert Resolves(registry[key], Stack(store, Chain(scope), key));
  }

  /** Secrets that stayed secrets make no difference. */
  lemma PresentIsTarget(
    registry: Registry, store: Store, scope: ScopeRef, target: ScopeState, current: Stored, scopes: seq<ScopeRef>)
    requires AllRecorded(registry, target.values) && AllRecorded(registry, current)
    requires Sealed(registry, target.values) && Sealed(registry, current)
    ensures var present := target.(values := Reinstated(registry, target.values, current));
      ListConsistent(registry, store[scope := present], scopes) <==>
      ListConsistent(registry, store[scope := target], scopes)
  {
    var present := target.(values := Reinstated(registry, target.values, current));
    forall key | key in registry
      ensures Alike(registry[key], OwnIn(present.values, scope, key), OwnIn(target.values, scope, key))
    {
      SealedReinstated(registry, scope, target.values, current, key);
    }
    AlikeLists(registry, store, scope, present, target, scopes);
  }

  /**
   * Any list of scopes, the rolled back one at the top, at the bottom or within,
   * is consistent after a rollback exactly when it is with the target state.
   */
  lemma RollbackKeepsListIff(
    registry: Registry, store: Store, scope: ScopeRef, target: ScopeState, reauthenticated: bool, revision: string,
    scopes: seq<ScopeRef>)
    requires Rollbackable(registry, store, scope, target.values, reauthenticated, revision)
    requires Sealed(registry, target.values) && Sealed(registry, StateOf(store, scope).values)
    ensures var rolled := RolledBackTo(registry, store, scope, target.values, reauthenticated, revision);
      ListConsistent(registry, rolled, scopes) <==> ListConsistent(registry, store[scope := target], scopes)
  {
    RollbackReinstates(registry, store, scope, target, reauthenticated, revision, scopes);
    PresentIsTarget(registry, store, scope, target, StateOf(store, scope).values, scopes);
  }

  /**
   * The scope's own chain is consistent afterwards exactly when the target state
   * is, on the system scope as it is now.
   */
  lemma RollbackConsistentIff(
    registry: Registry, store: Store, scope: ScopeRef, target: ScopeState, reauthenticated: bool, revision: string)
    requires Rollbackable(registry, store, scope, target.values, reauthenticated, revision)
    requires Sealed(registry, target.values) && Sealed(registry, StateOf(store, scope).values)
    ensures var rolled := RolledBackTo(registry, store, scope, target.values, reauthenticated, revision);
      ChainConsistent(registry, rolled, scope) <==> ChainConsistent(registry, store[scope := target], scope)
  {
    RollbackKeepsListIff(registry, store, scope, target, reauthenticated, revision, Chain(scope));
  }

  /**
   * After a rollback of the system scope another scope's chain is consistent
   * exactly when it is with the target below it.
   */
  lemma SystemRollbackKeepsScopeIff(
    registry: Registry, store: Store, scope: ScopeRef, target: ScopeState, reauthenticated: bool, revision: string)
    requires Rollbackable(registry, store, SYSTEM_SCOPE, target.values, reauthenticated, revision)
    requires Sealed(registry, target.values) && Sealed(registry, StateOf(store, SYSTEM_SCOPE).values)
    ensures var rolled := RolledBackTo(registry, store, SYSTEM_SCOPE, target.values, reauthenticated, revision);
      ChainConsistent(registry, rolled, scope) <==> ChainConsistent(registry, store[SYSTEM_SCOPE := target], scope)
  {
    RollbackKeepsListIff(registry, store, SYSTEM_SCOPE, target, reauthenticated, revision, Chain(scope));
  }

  /** A state that resolves is as the repository records it. */
  lemma ResolvingIsRecorded(registry: Registry, store: Store, scope: ScopeRef, state: ScopeState)
    requires ValidScope(scope) && !scope.kind.BuiltIn?
    requires Effective(registry, store[scope := state], Chain(scope)).Success?
    ensures AllRecorded(registry, state.values) && Sealed(registry, state.values)
  {
    forall key | key in state.values && key in registry
      ensures Recorded(state.values[key]) && (registry[key].secret ==> state.values[key].secret)
    {
      OwnIsAdmissible(registry, store[scope := state], scope, key);
    }
  }

  // ---------------------------------------------------- the service operations

  /** Whether a draft is applied, and with which changes. */
  function Decision(registry: Registry, store: Store, draft: Draft, expectedVersion: int, reauthenticated: bool)
    : Result<seq<ScopeChange>>
  {
    if draft.state != Reviewed || draft.version != expectedVersion then Failure
    else
      var report := Validate(registry, draft.scope, draft.entries);
      var effective := Effective(registry, store, Chain(draft.scope));
      if !report.valid || effective.Failure? then Failure
      else if !ContextReport(registry, effective.value, draft.scope, draft.entries).valid then Failure
      else if report.needsReauthentication && !reauthenticated then Failure
      else if draft.baseVersion != StateOf(store, draft.scope).version then Failure
      else Success(ToChanges(report.normalized))
  }

  /** The changes of a draft that may be applied, the repository's own check of the base version aside. */
  method ClearDraft(registry: Registry, store: Store, draft: Draft, expectedVersion: int, reauthenticated: bool)
    returns (r: Result<seq<ScopeChange>>)
    requires ValidRegistry(registry)
    ensures Decision(registry, store, draft, expectedVersion, reauthenticated) ==
            if draft.baseVersion != StateOf(store, draft.scope).version then Failure else r
  {
    if draft.state != Reviewed || draft.version != expectedVersion {
      return Failure;
    }
    var checked := ValidateInContext(registry, store, draft.scope, draft.entries);
    if checked.Failure? || !checked.value.valid {
      return Failure;
    }
    if checked.value.needsReauthentication && !reauthenticated {
      return Failure;
    }
    return Success(ToChanges(checked.value.normalized));
  }

  function RollbackDecision(
    registry: Registry, store: Store, target: Revision, expectedVersion: int, reauthenticated: bool)
    : Result<seq<ScopeChange>>
  {
    if StateOf(store, target.scope).version != expectedVersion then Failure
    else
      match RollbackChanges(registry, target.state.values, StateOf(store, target.scope).values, reauthenticated)
      case Failure => Failure
      case Success(changes) => if changes == [] then Failure else Success(changes)
  }

  datatype World = World(store: Store, past: map<string, Revision>)

  /** The repository's update: a new state for the scope, kept under its revision. */
  function Commit(w: World, scope: ScopeRef, changes: seq<ScopeChange>, revision: string): World {
    World(Updated(w.store, scope, changes, revision),
      w.past[revision := Revision(scope, Successor(StateOf(w.store, scope), changes, revision))])
  }

  class Repository {
    var scopes: Store
    var drafts: map<string, Draft>
    var revisions: map<string, Revision>

    constructor (scopes: Store, drafts: map<string, Draft>, revisions: map<string, Revision>)
      ensures this.scopes == scopes && this.drafts == drafts && this.revisions == revisions
    {
      this.scopes, this.drafts, this.revisions := scopes, drafts, revisions;
    }

    ghost function Now(): World
      reads this`scopes, this`revisions
    {
      World(scopes, revisions)
    }

    /** Refused unless the expected version is the scope's current one. */
    method ApplyConfigScope(scope: ScopeRef, expectedVersion: int, changes: seq<ScopeChange>, revision: string)
      returns (applied: bool)
      modifies this`scopes, this`revisions
      ensures applied <==> expectedVersion == StateOf(old(scopes), scope).version
      ensures Now() == if applied then Commit(old(Now()), scope, changes, revision) else old(Now())
    {
      var current := StateOf(scopes, scope);
      if current.version != expectedVersion {
        return false;
      }
      var values := current.values;
      for i := 0 to |changes|
        invariant values == ApplyChanges(current.values, changes[..i], current.version + 1, revision)
      {
        assert changes[..i + 1][..i] == changes[..i];
        values := ApplyChange(values, changes[i], current.version + 1, revision);
      }
      assert changes[..|changes|] == changes;
      var next := ScopeState(current.version + 1, values);
      scopes := scopes[scope := next];
      revisions := revisions[revision := Revision(scope, next)];
      return true;
    }
  }

  class Service {
    const registry: Registry
    const repository: Repository

    constructor (registry: Registry, repository: Repository)
      ensures this.registry == registry && this.repository == repository
    {
      this.registry, this.repository := registry, repository;
    }

    method ApplyDraft(id: string, expectedVersion: int, reauthenticated: bool, revision: string) returns (applied: bool)
      requires ValidRegistry(registry)
      modifies repository`scopes, repository`revisions
      ensures applied <==> (id in repository.drafts &&
        Decision(registry, old(repository.scopes), repository.drafts[id], expectedVersion, reauthenticated).Success?)
      ensures applied ==> repository.Now() == Commit(old(repository.Now()), repository.drafts[id].scope,
        Decision(registry, old(repository.scopes), repository.drafts[id], expectedVersion, reauthenticated).value,
        revision)
      ensures !applied ==> repository.Now() == old(repository.Now())
    {
      if id !in repository.drafts {
        return false;
      }
      var draft := repository.drafts[id];
      var changes := ClearDraft(registry, repository.scopes, draft, expectedVersion, reauthenticated);
      if changes.Failure? {
        return false;
      }
      applied := repository.ApplyConfigScope(draft.scope, draft.baseVersion, changes.value, revision);
    }

    method Rollback(
      target: string, expectedVersion: int, reauthenticated: bool, revision: string)
      returns (applied: bool)
      modifies repository`scopes, repository`revisions
      ensures applied <==> (target in old(repository.revisions) && RollbackDecision(
        registry, old(repository.scopes), old(repository.revisions)[target], expectedVersion, reauthenticated).Success?)
      ensures applied ==> repository.Now() == Commit(old(repository.Now()), old(repository.revisions)[target].scope,
        RollbackDecision(
          registry, old(repository.scopes), old(repository.revisions)[target], expectedVersion, reauthenticated).value,
        revision)
      ensures !applied ==> repository.Now() == old(repository.Now())
    {
      if target !in repository.revisions {
        return false;
      }
      var chosen := repository.revisions[target];
      var current := StateOf(repository.scopes, chosen.scope);
      if current.version != expectedVersion {
        return false;
      }
      var changes := ComputeRollback(registry, chosen.state.values, current.values, reauthenticated);
      if changes.Failure? || changes.value == [] {
        return false;
      }
      applied := repository.ApplyConfigScope(chosen.scope, expectedVersion, changes.value, revision);
    }
  }

  // ----------------------------------------------------------- over every run

  datatype Event =
    | DraftApplied(draft: Draft, expectedVersion: int, reauthenticated: bool, revision: string)
    | RolledBack(target: string, expectedVersion: int, reauthenticated: bool, revision: string)

  /** One operation; a refused one changes nothing. */
  function After(registry: Registry, w: World, event: Event): World {
    match event
    case DraftApplied(draft, version, reauthenticated, revision) =>
      (match Decision(registry, w.store, draft, version, reauthenticated)
       case Failure => w
       case Success(changes) => Commit(w, draft.scope, changes, revision))
    case RolledBack(target, version, reauthenticated, revision) =>
      if target !in w.past then w
      else
        match RollbackDecision(registry, w.store, w.past[target], version, reauthenticated)
        case Failure => w
        case Success(changes) => Commit(w, w.past[target].scope, changes, revision)
  }

  function Run(registry: Registry, w: World, events: seq<Event>): World
    decreases events
  {
    if events == [] then w else Run(registry, After(registry, w, events[0]), events[1..])
  }

  /** The scope's chain would be consistent with this state of the scope. */
  predicate StateConsistent(registry: Registry, store: Store, scope: ScopeRef, state: ScopeState) {
    state.version >= 0 && ChainConsistent(registry, store[scope := state], scope)
  }

  /** The scope's chain is consistent, and so it is with every state of the scope that can be rolled back to. */
  predicate Kept(registry: Registry, w: World, scope: ScopeRef) {
    && StateConsistent(registry, w.store, scope, StateOf(w.store, scope))
    && forall id :: id in w.past && w.past[id].scope == scope ==>
         StateConsistent(registry, w.store, scope, w.past[id].state)
  }

  lemma LayeredAlone(a: Store, b: Store, scope: ScopeRef, key: string)
    requires ValidScope(scope) && !scope.kind.BuiltIn?
    requires StateOf(a, SYSTEM_SCOPE) == StateOf(b, SYSTEM_SCOPE) && StateOf(a, scope) == StateOf(b, scope)
    ensures Layered(a, Chain(scope), key) == Layered(b, Chain(scope), key)
  {
    LayeredChain(a, scope, key);
    LayeredChain(b, scope, key);
    LayeredOne(a, SYSTEM_SCOPE, key);
    LayeredOne(b, SYSTEM_SCOPE, key);
  }

  /** A scope's chain depends on its own state and the system scope's alone. */
  lemma ChainAlone(registry: Registry, a: Store, b: Store, scope: ScopeRef)
    requires ValidScope(scope) && !scope.kind.BuiltIn?
    requires StateOf(a, SYSTEM_SCOPE) == StateOf(b, SYSTEM_SCOPE) && StateOf(a, scope) == StateOf(b, scope)
    ensures ChainConsistent(registry, a, scope) == ChainConsistent(registry, b, scope)
  {
    forall key | key in registry ensures Layered(a, Chain(scope), key) == Layered(b, Chain(scope), key) {
      LayeredAlone(a, b, scope, key);
    }
    SortChain(scope);
    assert Grouped(registry, a, Chain(scope)) == Grouped(registry, b, Chain(scope));
  }

  /** An accepted draft leaves the chain it was checked against consistent. */
  lemma DraftKeepsChain(
    registry: Registry, store: Store, draft: Draft, version: int, reauthenticated: bool, revision: string)
    requires ValidRegistry(registry) && Decision(registry, store, draft, version, reauthenticated).Success?
    requires revision != "" && StateOf(store, draft.scope).version >= 0
    requires ChainConsistent(registry, store, draft.scope)
    ensures ChainConsistent(registry,
      Updated(store, draft.scope, Decision(registry, store, draft, version, reauthenticated).value, revision),
        draft.scope)
  {
    AcceptedExactlyWhenConsistent(registry, store, draft.scope, draft.entries, revision);
  }

  lemma SameStateKept(registry: Registry, a: Store, b: Store, scope: ScopeRef, state: ScopeState)
    requires ValidScope(scope) && !scope.kind.BuiltIn?
    requires scope == SYSTEM_SCOPE || StateOf(a, SYSTEM_SCOPE) == StateOf(b, SYSTEM_SCOPE)
    ensures StateConsistent(registry, a, scope, state) ==> StateConsistent(registry, b, scope, state)
  {
    ChainAlone(registry, a[scope := state], b[scope := state], scope);
  }

  lemma OwnStateConsistent(registry: Registry, store: Store, scope: ScopeRef)
    requires ValidScope(scope) && !scope.kind.BuiltIn?
    ensures StateConsistent(registry, store, scope, StateOf(store, scope)) <==>
            StateOf(store, scope).version >= 0 && ChainConsistent(registry, store, scope)
  {
    ChainAlone(registry, store[scope := StateOf(store, scope)], store, scope);
  }

  /** A commit at one scope keeps another's chain and past states, unless it is at the system scope below that other. */
  lemma CommitKeeps(
    registry: Registry, w: World, scope: ScopeRef, at: ScopeRef, changes: seq<ScopeChange>, revision: string)
    requires ValidScope(scope) && !scope.kind.BuiltIn? && Kept(registry, w, scope)
    requires scope == SYSTEM_SCOPE || at != SYSTEM_SCOPE
    requires at == scope ==> ChainConsistent(registry, Updated(w.store, scope, changes, revision), scope)
    ensures Kept(registry, Commit(w, at, changes, revision), scope)
  {
    var next := Commit(w, at, changes, revision);
    OwnStateConsistent(registry, next.store, scope);
    if at != scope { SameStateKept(registry, w.store, next.store, scope, StateOf(w.store, scope)); }
    forall id | id in next.past && next.past[id].scope == scope
      ensures StateConsistent(registry, next.store, scope, next.past[id].state)
    {
      if id != revision { SameStateKept(registry, w.store, next.store, scope, w.past[id].state); }
    }
  }

  /** The event leaves the system scope as it is. */
  predicate LeavesSystem(registry: Registry, w: World, event: Event) {
    StateOf(After(registry, w, event).store, SYSTEM_SCOPE) == StateOf(w.store, SYSTEM_SCOPE)
  }

  lemma DraftStep(
    registry: Registry, w: World, scope: ScopeRef, draft: Draft, version: int, reauthenticated: bool, revision: string)
    requires ValidRegistry(registry) && ValidScope(scope) && !scope.kind.BuiltIn?
    requires Kept(registry, w, scope) && revision != "" && (scope == SYSTEM_SCOPE || draft.scope != SYSTEM_SCOPE)
    requires Decision(registry, w.store, draft, version, reauthenticated).Success?
    ensures Kept(registry,
      Commit(w, draft.scope, Decision(registry, w.store, draft, version, reauthenticated).value, revision), scope)
  {
    OwnStateConsistent(registry, w.store, scope);
    if draft.scope == scope { DraftKeepsChain(registry, w.store, draft, version, reauthenticated, revision); }
    CommitKeeps(registry, w, scope, draft.scope,
      Decision(registry, w.store, draft, version, reauthenticated).value, revision);
  }

  lemma RollbackStep(
    registry: Registry, w: World, scope: ScopeRef, target: Revision, version: int, reauthenticated: bool,
    revision: string)
    requires ValidRegistry(registry) && ValidScope(scope) && !scope.kind.BuiltIn?
    requires Kept(registry, w, scope) && revision != "" && (scope == SYSTEM_SCOPE || target.scope != SYSTEM_SCOPE)
    requires target.scope == scope ==> StateConsistent(registry, w.store, scope, target.state)
    requires RollbackDecision(registry, w.store, target, version, reauthenticated).Success?
    ensures Kept(registry,
      Commit(w, target.scope, RollbackDecision(registry, w.store, target, version, reauthenticated).value, revision),
        scope)
  {
    OwnStateConsistent(registry, w.store, scope);
    if target.scope == scope {
      ResolvingIsRecorded(registry, w.store, scope, target.state);
      ResolvingIsRecorded(registry, w.store, scope, StateOf(w.store, scope));
      RollbackConsistentIff(registry, w.store, scope, target.state, reauthenticated, revision);
    }
    CommitKeeps(registry, w, scope, target.scope,
      RollbackDecision(registry, w.store, target, version, reauthenticated).value, revision);
  }

  lemma StepKeeps(registry: Registry, w: World, scope: ScopeRef, event: Event)
    requires ValidRegistry(registry) && ValidScope(scope) && !scope.kind.BuiltIn?
    requires Kept(registry, w, scope) && event.revision != ""
    requires scope == SYSTEM_SCOPE || LeavesSystem(registry, w, event)
    ensures Kept(registry, After(registry, w, event), scope)
  {
    match event
    case DraftApplied(draft, version, reauthenticated, revision) =>
      if Decision(registry, w.store, draft, version, reauthenticated).Success? {
        DraftStep(registry, w, scope, draft, version, reauthenticated, revision);
      }
    case RolledBack(target, version, reauthenticated, revision) =>
      if target in w.past && RollbackDecision(registry, w.store, w.past[target], version, reauthenticated).Success? {
        RollbackStep(registry, w, scope, w.past[target], version, reauthenticated, revision);
      }
  }

  /** The run leaves the system scope as it is. */
  predicate SystemStays(registry: Registry, w: World, events: seq<Event>)
    decreases events
  {
    events == [] ||
    (LeavesSystem(registry, w, events[0]) && SystemStays(registry, After(registry, w, events[0]), events[1..]))
  }

  /**
   * Over any run of drafts and rollbacks at any scopes a scope's chain stays
   * consistent with its present and all its past states, as long as the system
   * scope below it is not changed.
   */
  lemma {:induction false} RunKeepsConsistent(registry: Registry, w: World, scope: ScopeRef, events: seq<Event>)
    requires ValidRegistry(registry) && ValidScope(scope) && !scope.kind.BuiltIn? && Kept(registry, w, scope)
    requires forall e :: e in events ==> e.revision != ""
    requires scope == SYSTEM_SCOPE || SystemStays(registry, w, events)
    ensures Kept(registry, Run(registry, w, events), scope)
    decreases events
  {
    if events != [] {
      assert events[0] in events;
      StepKeeps(registry, w, scope, events[0]);
      RunKeepsConsistent(registry, After(registry, w, events[0]), scope, events[1..]);
    }
  }

  /** Over any run at all the system configuration stays consistent. */
  lemma RunKeepsSystemConsistent(registry: Registry, w: World, events: seq<Event>)
    requires ValidRegistry(registry) && Kept(registry, w, SYSTEM_SCOPE)
    requires forall e :: e in events ==> e.revision != ""
    ensures Kept(registry, Run(registry, w, events), SYSTEM_SCOPE)
  {
    RunKeepsConsistent(registry, w, SYSTEM_SCOPE, events);
  }
}
