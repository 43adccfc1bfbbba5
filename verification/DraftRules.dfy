/**
 * When a draft is applied, in terms of the draft and the scopes, and what an
 * operation without recent reauthentication cannot do to secrets.
 */
module DraftRules {
  import opened Documents
  import opened Registry
  import opened RegistryRules
  import opened Texts
  import opened EffectiveConfig
  import opened Drafts
  import opened RegistryService
  import opened ScopeHistory

  // ------------------------------------------------------------ single entries

  /** The entry sets, or resets, a setting the scope may hold, with a value of the setting's own kind. */
  predicate Fits(registry: Registry, scope: ScopeRef, e: DraftEntry) {
    && e.key in registry
    && var d := registry[e.key];
       && scope.kind in d.permitted && !d.bootstrapControlled
       && (e.reset ==> !e.configured && e.value.Absent?)
       && (!e.reset ==> e.configured && e.secret == d.secret)
       && (!e.reset && d.secret ==> e.value.Absent?)
       && (!e.reset && !d.secret ==> e.value.Text? && d.validator(e.value.value))
  }

  /** The change an entry asks for: a value in its canonical layout, a secret without one, or a deletion. */
  function Asked(registry: Registry, e: DraftEntry): ScopeChange
    requires e.key in registry
  {
    ScopeChange(e.key, if e.value.Text? then Text(e.value.value, 0) else Absent, !e.reset, registry[e.key].secret)
  }

  lemma JudgeAccepts(registry: Registry, scope: ScopeRef, e: DraftEntry)
    ensures Judge(registry, scope, e).Accepted? <==> Fits(registry, scope, e)
    ensures Fits(registry, scope, e) ==> ToChange(Judge(registry, scope, e).entry) == Asked(registry, e)
  {
  }

  /** The scope may hold the setting, and not only at bootstrap. */
  predicate MayHold(registry: Registry, scope: ScopeRef, key: string) {
    key in registry && scope.kind in registry[key].permitted && !registry[key].bootstrapControlled
  }

  /** What each code of a refused entry means. */
  predicate RefusedFor(registry: Registry, scope: ScopeRef, e: DraftEntry, code: IssueCode) {
    match code
    case UnregisteredKey => e.key !in registry
    case ScopeNotPermitted => e.key in registry && !MayHold(registry, scope, e.key)
    case InvalidReset => MayHold(registry, scope, e.key) && e.reset && (e.configured || !e.value.Absent?)
    case InvalidSecret =>
      && MayHold(registry, scope, e.key) && !e.reset && registry[e.key].secret
      && !(e.secret && e.configured && e.value.Absent?)
    case InvalidValue =>
      MayHold(registry, scope, e.key) && !e.reset && !registry[e.key].secret && (e.secret || !e.configured)
    case SchemaValidation =>
      && MayHold(registry, scope, e.key) && !e.reset && !registry[e.key].secret && !e.secret && e.configured
      && !(e.value.Text? && registry[e.key].validator(e.value.value))
    case _ => false
  }

  lemma JudgeRefuses(registry: Registry, scope: ScopeRef, e: DraftEntry, code: IssueCode)
    ensures Judge(registry, scope, e) == Refused(code) <==> RefusedFor(registry, scope, e, code)
  {
  }

  /** An earlier entry has the same key, or this one is refused for a reason of its own. */
  predicate IssuedAt(registry: Registry, scope: ScopeRef, entries: seq<DraftEntry>, i: nat, issue: Issue)
    requires i < |entries|
  {
    && issue.key == entries[i].key
    && if exists j :: 0 <= j < i && entries[j].key == entries[i].key then issue.code == DuplicateKey
       else RefusedFor(registry, scope, entries[i], issue.code)
  }

  lemma IssueOfLast(registry: Registry, scope: ScopeRef, entries: seq<DraftEntry>, issue: Issue)
    requires entries != []
    ensures var n := |entries| - 1;
      issue in Review(registry, scope, entries).issues <==>
      issue in Review(registry, scope, entries[..n]).issues || IssuedAt(registry, scope, entries, n, issue)
  {
    var n := |entries| - 1;
    KeyAmong(entries[..n], entries[n].key);
    assert HasKey(entries[..n], entries[n].key) <==> exists j :: 0 <= j < n && entries[j].key == entries[n].key by {
      assert forall j :: 0 <= j < n ==> entries[..n][j] == entries[j];
    }
    JudgeRefuses(registry, scope, entries[n], issue.code);
  }

  /** The issues of the entry loop, each with its entry. */
  lemma {:induction false} IssueIff(registry: Registry, scope: ScopeRef, entries: seq<DraftEntry>, issue: Issue)
    ensures issue in Review(registry, scope, entries).issues <==>
            exists i :: 0 <= i < |entries| && IssuedAt(registry, scope, entries, i, issue)
  {
    if entries != [] {
      var n := |entries| - 1;
      IssueIff(registry, scope, entries[..n], issue);
      IssueOfLast(registry, scope, entries, issue);
      forall i | 0 <= i < n
        ensures IssuedAt(registry, scope, entries[..n], i, issue) <==> IssuedAt(registry, scope, entries, i, issue)
      {
        assert forall j :: 0 <= j <= i ==> entries[..n][j] == entries[j];
      }
    }
  }

  /** What is refused before the entries are looked at. */
  lemma DraftIssues(registry: Registry, scope: ScopeRef, entries: seq<DraftEntry>)
    ensures Validate(registry, scope, entries).issues ==
            if scope.kind == BuiltIn || !Identified(scope) then [Issue("", InvalidScope)]
            else if |entries| < 1 || 500 < |entries| then [Issue("", InvalidEntryCount)]
            else Review(registry, scope, entries).issues
  {
    assert AllSpace(scope.id) <==> forall i :: 0 <= i < |scope.id| ==> IsSpace(scope.id[i]);
  }

  predicate AllFit(registry: Registry, scope: ScopeRef, entries: seq<DraftEntry>) {
    forall i :: 0 <= i < |entries| ==> Fits(registry, scope, entries[i])
  }

  /** Some entry sets a secret. */
  predicate SetsSecret(registry: Registry, entries: seq<DraftEntry>) {
    exists i :: 0 <= i < |entries| && entries[i].key in registry && registry[entries[i].key].secret && !entries[i].reset
  }

  function AllAsked(registry: Registry, entries: seq<DraftEntry>): (changes: seq<ScopeChange>)
    requires forall i :: 0 <= i < |entries| ==> entries[i].key in registry
    ensures |changes| == |entries|
    ensures forall i :: 0 <= i < |entries| ==> changes[i] == Asked(registry, entries[i])
  {
    seq(|entries|, i requires 0 <= i < |entries| => Asked(registry, entries[i]))
  }

  // ----------------------------------------------------------------- the draft

  lemma ValidDraft(registry: Registry, scope: ScopeRef, entries: seq<DraftEntry>)
    ensures Validate(registry, scope, entries).valid <==>
            && ValidScope(scope) && !scope.kind.BuiltIn? && 1 <= |entries| <= 500
            && DistinctEntries(entries) && AllFit(registry, scope, entries)
  {
    ReviewValidIff(registry, scope, entries);
    forall i | 0 <= i < |entries|
      ensures Judge(registry, scope, entries[i]).Accepted? <==> Fits(registry, scope, entries[i])
    {
      JudgeAccepts(registry, scope, entries[i]);
    }
  }

  lemma ValidDraftAsks(registry: Registry, scope: ScopeRef, entries: seq<DraftEntry>)
    requires Validate(registry, scope, entries).valid
    ensures AllFit(registry, scope, entries)
    ensures ToChanges(Validate(registry, scope, entries).normalized) == AllAsked(registry, entries)
  {
    var normalized := Validate(registry, scope, entries).normalized;
    ValidDraft(registry, scope, entries);
    ValidatedIsNormal(registry, scope, entries);
    forall i | 0 <= i < |entries| ensures ToChanges(normalized)[i] == AllAsked(registry, entries)[i] {
      assert Fits(registry, scope, entries[i]);
      JudgeAccepts(registry, scope, entries[i]);
    }
  }

  lemma ValidDraftNeeds(registry: Registry, scope: ScopeRef, entries: seq<DraftEntry>)
    requires Validate(registry, scope, entries).valid
    ensures Validate(registry, scope, entries).needsReauthentication <==> SetsSecret(registry, entries)
  {
    var normalized := Validate(registry, scope, entries).normalized;
    ReviewValidIff(registry, scope, entries);
    ValidDraft(registry, scope, entries);
    forall i | 0 <= i < |entries|
      ensures normalized[i].key == entries[i].key && normalized[i].reset == entries[i].reset
      ensures entries[i].key in registry && normalized[i].secret == registry[entries[i].key].secret
    {
      assert Fits(registry, scope, entries[i]);
      JudgeAccepts(registry, scope, entries[i]);
    }
    if e :| e in normalized && !e.reset && e.secret {
      var i := IndexOf(normalized, e);
      assert SetsSecret(registry, entries);
    }
    if i :| 0 <= i < |entries| && entries[i].key in registry && registry[entries[i].key].secret && !entries[i].reset {
      assert normalized[i] in normalized;
    }
  }

  /** What is asked of a draft before its relations are looked at. */
  predicate Applicable(registry: Registry, store: Store, draft: Draft, version: int, reauthenticated: bool) {
    && draft.state.Reviewed? && draft.version == version
    && draft.baseVersion == StateOf(store, draft.scope).version
    && ValidScope(draft.scope) && !draft.scope.kind.BuiltIn?
    && 1 <= |draft.entries| <= 500
    && DistinctEntries(draft.entries) && AllFit(registry, draft.scope, draft.entries)
    && (SetsSecret(registry, draft.entries) ==> reauthenticated)
  }

  /** The gates of the decision. */
  lemma DecisionGates(registry: Registry, store: Store, draft: Draft, version: int, reauthenticated: bool)
    requires Effective(registry, store, Chain(draft.scope)).Success?
    ensures var report := Validate(registry, draft.scope, draft.entries);
      var configuration := Effective(registry, store, Chain(draft.scope)).value;
      var decision := Decision(registry, store, draft, version, reauthenticated);
      && (decision.Success? <==>
            && draft.state.Reviewed? && draft.version == version
            && draft.baseVersion == StateOf(store, draft.scope).version
            && report.valid && (report.needsReauthentication ==> reauthenticated)
            && ContextReport(registry, configuration, draft.scope, draft.entries).valid)
      && (decision.Success? ==> decision.value == ToChanges(report.normalized))
  {
  }

  lemma DecisionNeeds(registry: Registry, store: Store, draft: Draft, version: int, reauthenticated: bool)
    requires Decision(registry, store, draft, version, reauthenticated).Success?
    ensures var report := Validate(registry, draft.scope, draft.entries);
      && report.valid && (report.needsReauthentication ==> reauthenticated)
      && Decision(registry, store, draft, version, reauthenticated).value == ToChanges(report.normalized)
  {
  }

  /** A valid draft passes the contextual check exactly when what it asks for leaves the chain consistent. */
  lemma ValidDraftPasses(registry: Registry, store: Store, scope: ScopeRef, entries: seq<DraftEntry>, revision: string)
    requires ValidRegistry(registry) && ChainConsistent(registry, store, scope)
    requires revision != "" && StateOf(store, scope).version >= 0 && Validate(registry, scope, entries).valid
    ensures AllFit(registry, scope, entries)
    ensures ContextReport(registry, Effective(registry, store, Chain(scope)).value, scope, entries).valid <==>
            ChainConsistent(registry, Updated(store, scope, AllAsked(registry, entries), revision), scope)
  {
    ValidDraftAsks(registry, scope, entries);
    AcceptedExactlyWhenConsistent(registry, store, scope, entries, revision);
  }

  /**
   * A draft on a consistent chain is applied exactly when it was reviewed in the
   * version named, on the scope's present version, with one to five hundred
   * entries of distinct keys that fit, after recent reauthentication if it sets a
   * secret, and leaves the chain consistent; and then with the changes asked for.
   */
  lemma DraftAppliedIff(
    registry: Registry, store: Store, draft: Draft, version: int, reauthenticated: bool, revision: string)
    requires ValidRegistry(registry) && ChainConsistent(registry, store, draft.scope)
    requires revision != "" && StateOf(store, draft.scope).version >= 0
    ensures Decision(registry, store, draft, version, reauthenticated).Success? <==>
            && Applicable(registry, store, draft, version, reauthenticated)
            && ChainConsistent(registry,
                 Updated(store, draft.scope, AllAsked(registry, draft.entries), revision), draft.scope)
    ensures Decision(registry, store, draft, version, reauthenticated).Success? ==>
      Decision(registry, store, draft, version, reauthenticated).value == AllAsked(registry, draft.entries)
  {
    DecisionGates(registry, store, draft, version, reauthenticated);
    ValidDraft(registry, draft.scope, draft.entries);
    if Validate(registry, draft.scope, draft.entries).valid {
      ValidDraftNeeds(registry, draft.scope, draft.entries);
      ValidDraftAsks(registry, draft.scope, draft.entries);
      ValidDraftPasses(registry, store, draft.scope, draft.entries, revision);
    }
  }

  // ------------------------------------------------- without reauthentication

  /** No secret is configured, or configured anew, that was not there before. */
  ghost predicate NoNewSecrets(registry: Registry, before: Store, after: Store) {
    forall scope, key :: key in registry && registry[key].secret && key in StateOf(after, scope).values ==>
      key in StateOf(before, scope).values && StateOf(after, scope).values[key] == StateOf(before, scope).values[key]
  }

  lemma StateWithoutNew(registry: Registry, store: Store, at: ScopeRef, next: ScopeState)
    requires forall key :: key in registry && registry[key].secret ==>
      SecretKept(StateOf(store, at).values, next.values, key)
    ensures NoNewSecrets(registry, store, store[at := next])
  {
    forall scope, key | key in registry && registry[key].secret
      ensures SecretKept(StateOf(store, scope).values, StateOf(store[at := next], scope).values, key)
    {
    }
  }

  lemma DraftWithoutAuthority(
    registry: Registry, store: Store, draft: Draft, version: int, revision: string)
    requires Decision(registry, store, draft, version, false).Success?
    ensures NoNewSecrets(registry, store,
      Updated(store, draft.scope, Decision(registry, store, draft, version, false).value, revision))
  {
    var changes := Decision(registry, store, draft, version, false).value;
    DecisionNeeds(registry, store, draft, version, false);
    EntriesWithoutNew(registry, draft.scope, draft.entries, StateOf(store, draft.scope), changes, revision);
    StateWithoutNew(registry, store, draft.scope, Successor(StateOf(store, draft.scope), changes, revision));
  }

  lemma EntriesWithoutNew(
    registry: Registry, scope: ScopeRef, entries: seq<DraftEntry>, state: ScopeState, changes: seq<ScopeChange>,
    revision: string)
    requires var report := Validate(registry, scope, entries);
      report.valid && !report.needsReauthentication && changes == ToChanges(report.normalized)
    ensures forall key :: key in registry && registry[key].secret ==>
      SecretKept(state.values, Successor(state, changes, revision).values, key)
  {
    ValidDraft(registry, scope, entries);
    ValidDraftNeeds(registry, scope, entries);
    ValidDraftAsks(registry, scope, entries);
    SecretsNotSet(registry, entries, changes, state, revision);
  }

  lemma SecretsNotSet(
    registry: Registry, entries: seq<DraftEntry>, changes: seq<ScopeChange>, state: ScopeState, revision: string)
    requires DistinctEntries(entries) && !SetsSecret(registry, entries)
    requires (forall i :: 0 <= i < |entries| ==> entries[i].key in registry) && changes == AllAsked(registry, entries)
    ensures forall key :: key in registry && registry[key].secret ==>
      SecretKept(state.values, Successor(state, changes, revision).values, key)
  {
    forall key | key in registry && registry[key].secret
      ensures SecretKept(state.values, Successor(state, changes, revision).values, key)
    {
      SecretNotSet(registry, entries, changes, state.values, state.version + 1, revision, key);
    }
  }

  /** The secret is gone or as it was. */
  predicate SecretKept(before: Stored, after: Stored, key: string) {
    key in after ==> key in before && after[key] == before[key]
  }

  lemma SecretNotSet(
    registry: Registry, entries: seq<DraftEntry>, changes: seq<ScopeChange>, values: Stored, version: int,
    revision: string, key: string)
    requires key in registry && registry[key].secret && DistinctEntries(entries) && !SetsSecret(registry, entries)
    requires (forall i :: 0 <= i < |entries| ==> entries[i].key in registry) && changes == AllAsked(registry, entries)
    ensures SecretKept(values, ApplyChanges(values, changes, version, revision), key)
  {
    if i :| 0 <= i < |changes| && changes[i].key == key {
      assert !changes[i].configured;
      ChangeHits(values, changes, version, revision, i);
    } else {
      ChangeMisses(values, changes, version, revision, key);
    }
  }

  lemma RollbackWithoutAuthority(registry: Registry, store: Store, target: Revision, version: int, revision: string)
    requires RollbackDecision(registry, store, target, version, false).Success?
    ensures NoNewSecrets(registry, store,
      Updated(store, target.scope, RollbackDecision(registry, store, target, version, false).value, revision))
  {
    var state, changes := StateOf(store, target.scope), RollbackDecision(registry, store, target, version, false).value;
    assert RollbackChanges(registry, target.state.values, state.values, false) == Success(changes);
    ChangesWithoutNew(registry, target.state.values, state, changes, revision);
    StateWithoutNew(registry, store, target.scope, Successor(state, changes, revision));
  }

  lemma ChangesWithoutNew(
    registry: Registry, target: Stored, state: ScopeState, changes: seq<ScopeChange>, revision: string)
    requires RollbackChanges(registry, target, state.values, false) == Success(changes)
    ensures forall key :: key in registry && registry[key].secret ==>
      SecretKept(state.values, Successor(state, changes, revision).values, key)
  {
    var next := Successor(state, changes, revision);
    forall key | key in registry && registry[key].secret ensures SecretKept(state.values, next.values, key) {
      RollbackAt(registry, target, state.values, false, next.values, next.version, revision, key);
    }
  }

  /** An operation without recent reauthentication configures no secret. */
  lemma StepWithoutAuthority(registry: Registry, w: World, event: Event)
    requires !event.reauthenticated
    ensures NoNewSecrets(registry, w.store, After(registry, w, event).store)
  {
    match event
    case DraftApplied(draft, version, _, revision) =>
      if Decision(registry, w.store, draft, version, false).Success? {
        DraftWithoutAuthority(registry, w.store, draft, version, revision);
      }
    case RolledBack(target, version, _, revision) =>
      if target in w.past && RollbackDecision(registry, w.store, w.past[target], version, false).Success? {
        RollbackWithoutAuthority(registry, w.store, w.past[target], version, revision);
      }
  }

  lemma NoNewSecretsTwice(registry: Registry, a: Store, b: Store, c: Store)
    requires NoNewSecrets(registry, a, b) && NoNewSecrets(registry, b, c)
    ensures NoNewSecrets(registry, a, c)
  {
  }

  /**
   * Over any run of such operations no secret is configured at any scope that was
   * not there, as it was, at the start.
   */
  lemma {:induction false} RunWithoutAuthority(registry: Registry, w: World, events: seq<Event>)
    requires forall e :: e in events ==> !e.reauthenticated
    ensures NoNewSecrets(registry, w.store, Run(registry, w, events).store)
    decreases events
  {
    if events != [] {
      assert events[0] in events;
      var next := After(registry, w, events[0]);
      StepWithoutAuthority(registry, w, events[0]);
      RunWithoutAuthority(registry, next, events[1..]);
      NoNewSecretsTwice(registry, w.store, next.store, Run(registry, w, events).store);
    }
  }
}
