/**
 * What a draft at one scope does to the configuration of any list of scopes
 * with that scope in it, which the draft's own check need not have looked at.
 */
module ListDrafts {
  import opened Ordering
  import opened Registry
  import opened EffectiveConfig
  import opened Drafts
  import opened RegistryService
  import opened ScopeLists

  /** A higher scope of the list stores the key itself. */
  predicate Covered(store: Store, scopes: seq<ScopeRef>, at: ScopeRef, key: string) {
    exists s :: s in scopes && LowerScope(at, s) && key in StateOf(store, s).values
  }

  function Emptied(store: Store, at: ScopeRef): Store {
    store[at := ScopeState(StateOf(store, at).version, map[])]
  }

  /** What an entry gives the list: its value, or after a reset what the list has without the scope. */
  function Given(registry: Registry, store: Store, scopes: seq<ScopeRef>, at: ScopeRef, entry: DraftEntry): Raw
    requires entry.key in registry
  {
    if entry.reset then Top(registry[entry.key], Stack(Emptied(store, at), scopes, entry.key)) else entry.value
  }

  predicate Registered(registry: Registry, entries: seq<DraftEntry>) {
    forall e :: e in entries ==> e.key in registry
  }

  /** The list's values after the draft: only keys no higher scope stores change. */
  function Overlaid(
    registry: Registry, store: Store, scopes: seq<ScopeRef>, at: ScopeRef, entries: seq<DraftEntry>): Values
    requires Registered(registry, entries)
  {
    if entries == [] then Tops(registry, store, scopes)
    else
      var n := |entries| - 1;
      var before := Overlaid(registry, store, scopes, at, entries[..n]);
      if Covered(store, scopes, at, entries[n].key) then before
      else before[entries[n].key := Given(registry, store, scopes, at, entries[n])]
  }

  /** The keys whose values the draft can change in the list. */
  function Passed(store: Store, scopes: seq<ScopeRef>, at: ScopeRef, entries: seq<DraftEntry>): set<string> {
    set e | e in entries && !Covered(store, scopes, at, e.key) :: e.key
  }

  lemma {:induction false} OverlaidUnchanged(
    registry: Registry, store: Store, scopes: seq<ScopeRef>, at: ScopeRef, entries: seq<DraftEntry>, key: string)
    requires Registered(registry, entries) && key !in Passed(store, scopes, at, entries)
    ensures At(Overlaid(registry, store, scopes, at, entries), key) == At(Tops(registry, store, scopes), key)
  {
    if entries != [] {
      var n := |entries| - 1;
      assert entries[n] in entries && entries == entries[..n] + [entries[n]];
      OverlaidUnchanged(registry, store, scopes, at, entries[..n], key);
    }
  }

  lemma {:induction false} OverlaidChanged(
    registry: Registry, store: Store, scopes: seq<ScopeRef>, at: ScopeRef, entries: seq<DraftEntry>, i: nat)
    requires Registered(registry, entries) && DistinctEntries(entries)
    requires i < |entries| && !Covered(store, scopes, at, entries[i].key)
    ensures At(Overlaid(registry, store, scopes, at, entries), entries[i].key) ==
            Given(registry, store, scopes, at, entries[i])
  {
    var n := |entries| - 1;
    if i < n {
      assert entries[n].key != entries[i].key;
      OverlaidChanged(registry, store, scopes, at, entries[..n], i);
    }
  }

  lemma {:induction false} OverlaidKeys(
    registry: Registry, store: Store, scopes: seq<ScopeRef>, at: ScopeRef, entries: seq<DraftEntry>)
    requires Registered(registry, entries)
    ensures Overlaid(registry, store, scopes, at, entries).Keys == registry.Keys
  {
    if entries != [] {
      var n := |entries| - 1;
      assert entries[n] in entries;
      OverlaidKeys(registry, store, scopes, at, entries[..n]);
    }
  }

  // ------------------------------------------------------------ key by key

  /** The stores differ at most in what this scope holds. */
  ghost predicate SameBut(a: Store, b: Store, at: ScopeRef) {
    forall s :: s != at ==> StateOf(a, s) == StateOf(b, s)
  }

  lemma {:induction false} SameOwnLayers(a: Store, b: Store, at: ScopeRef, ordered: seq<ScopeRef>, key: string)
    requires SameBut(a, b, at) && Own(a, at, key) == Own(b, at, key)
    ensures Layered(a, ordered, key) == Layered(b, ordered, key)
  {
    if ordered != [] {
      var n := |ordered| - 1;
      SameOwnLayers(a, b, at, ordered[..n], key);
      if ordered[n] == at { OwnDecides(a, b, at, key); }
    }
  }

  lemma OwnDecides(a: Store, b: Store, at: ScopeRef, key: string)
    requires Own(a, at, key) == Own(b, at, key)
    ensures key in StateOf(a, at).values <==> key in StateOf(b, at).values
    ensures key in StateOf(a, at).values ==>
      Scoped(key, at, StateOf(a, at).values[key]) == Scoped(key, at, StateOf(b, at).values[key])
  {
    if key in StateOf(a, at).values { assert Own(a, at, key)[0] == Own(b, at, key)[0]; }
  }

  lemma LastIsHighest(ordered: seq<ScopeRef>, s: ScopeRef)
    requires StrictlyOrdered(ordered, LowerScope) && s in ordered
    ensures ordered[|ordered| - 1] == s || LowerScope(s, ordered[|ordered| - 1])
    ensures forall r :: r in ordered ==> !LowerScope(ordered[|ordered| - 1], r)
  {
    var n := |ordered| - 1;
    forall r | r in ordered ensures r == ordered[n] || LowerScope(r, ordered[n]) {
      var i :| 0 <= i <= n && ordered[i] == r;
    }
  }

  /** Where a higher scope stores the key, what the scope itself holds does not show. */
  lemma {:induction false} CoveredTop(
    d: Descriptor, a: Store, b: Store, at: ScopeRef, ordered: seq<ScopeRef>, key: string)
    requires SameBut(a, b, at) && StrictlyOrdered(ordered, LowerScope) && Covered(a, ordered, at, key)
    ensures Top(d, Layered(a, ordered, key)) == Top(d, Layered(b, ordered, key))
  {
    var s :| s in ordered && LowerScope(at, s) && key in StateOf(a, s).values;
    var n := |ordered| - 1;
    LastIsHighest(ordered, s);
    if key !in StateOf(a, ordered[n]).values {
      assert s in ordered[..n] by { assert ordered == ordered[..n] + [ordered[n]]; }
      CoveredTop(d, a, b, at, ordered[..n], key);
    }
  }

  /** Where none does, the scope's own value is the top one. */
  lemma {:induction false} UncoveredTop(d: Descriptor, store: Store, at: ScopeRef, ordered: seq<ScopeRef>, key: string)
    requires StrictlyOrdered(ordered, LowerScope) && at in ordered && !Covered(store, ordered, at, key)
    requires key in StateOf(store, at).values
    ensures Top(d, Layered(store, ordered, key)) == Top(d, Own(store, at, key))
  {
    var n := |ordered| - 1;
    LastIsHighest(ordered, at);
    if ordered[n] != at {
      assert ordered == ordered[..n] + [ordered[n]] && ordered[n] in ordered;
      assert key !in StateOf(store, ordered[n]).values;
      UncoveredTop(d, store, at, ordered[..n], key);
    }
  }

  lemma CoveredAlike(a: Store, b: Store, scopes: seq<ScopeRef>, ordered: seq<ScopeRef>, at: ScopeRef, key: string)
    requires SameBut(a, b, at) && forall s :: s in ordered <==> s in scopes
    ensures Covered(a, scopes, at, key) <==> Covered(b, ordered, at, key)
  {
  }

  /** The top of the list's values once the scope holds this state. */
  lemma TopWith(d: Descriptor, a: Store, b: Store, at: ScopeRef, scopes: seq<ScopeRef>, key: string)
    requires SameBut(a, b, at) && AllowedScopes(scopes) && at in scopes
    ensures Covered(a, scopes, at, key) ==> Top(d, Stack(b, scopes, key)) == Top(d, Stack(a, scopes, key))
    ensures !Covered(a, scopes, at, key) && key in StateOf(b, at).values ==>
      Top(d, Stack(b, scopes, key)) == Top(d, Own(b, at, key))
  {
    var ordered := SortBy(scopes, LowerScope);
    SortedScopes(scopes);
    CoveredAlike(a, a, scopes, ordered, at, key);
    CoveredAlike(a, b, scopes, ordered, at, key);
    if Covered(a, scopes, at, key) {
      CoveredTop(d, a, b, at, ordered, key);
    } else if key in StateOf(b, at).values {
      UncoveredTop(d, b, at, ordered, key);
    }
  }

  /** The list still resolves when what the scope holds is accepted. */
  lemma ResolvesWith(d: Descriptor, a: Store, b: Store, at: ScopeRef, scopes: seq<ScopeRef>, key: string)
    requires SameBut(a, b, at) && AllowedScopes(scopes) && Resolves(d, Stack(a, scopes, key))
    requires forall v :: v in Own(b, at, key) ==> Admissible(d, v)
    ensures Resolves(d, Stack(b, scopes, key))
  {
    forall v | v in Stack(b, scopes, key) ensures Admissible(d, v) {
      LayeredMembers(b, SortBy(scopes, LowerScope), key, v);
      LayeredMembers(a, SortBy(scopes, LowerScope), key, v);
      if v.scope == at { assert v in Own(b, at, key); }
    }
  }

  lemma OwnAfterAdmissible(
    d: Descriptor, at: ScopeRef, registry: Registry, entry: DraftEntry, revision: string, version: int)
    requires Normal(registry, at, entry) && d == registry[entry.key] && d.key == entry.key
    requires ValidScope(at) && !at.kind.BuiltIn? && revision != "" && version >= 1
    ensures forall v :: v in OwnAfter(at, entry, revision, version) ==> Admissible(d, v)
    ensures !entry.reset ==> Top(d, OwnAfter(at, entry, revision, version)) == entry.value
  {
  }

  /** The draft is normal, and the store it is applied to well-formed. */
  predicate Applicable(registry: Registry, store: Store, at: ScopeRef, entries: seq<DraftEntry>, revision: string) {
    && NormalEntries(registry, at, entries) && Registered(registry, entries)
    && (forall e :: e in entries ==> registry[e.key].key == e.key)
    && revision != "" && StateOf(store, at).version >= 0
  }

  function Drafted(store: Store, at: ScopeRef, entries: seq<DraftEntry>, revision: string): Store {
    Updated(store, at, ToChanges(entries), revision)
  }

  lemma DraftedKey(
    registry: Registry, store: Store, scopes: seq<ScopeRef>, at: ScopeRef, entries: seq<DraftEntry>, revision: string,
    i: nat)
    requires Applicable(registry, store, at, entries, revision) && i < |entries|
    requires AllowedScopes(scopes) && at in scopes
    requires Resolves(registry[entries[i].key], Stack(store, scopes, entries[i].key))
    ensures var d, before := registry[entries[i].key], Stack(store, scopes, entries[i].key);
      var after := Stack(Drafted(store, at, entries, revision), scopes, entries[i].key);
      && Resolves(d, after)
      && (if Covered(store, scopes, at, entries[i].key) then Top(d, after) == Top(d, before)
          else Top(d, after) == Given(registry, store, scopes, at, entries[i]))
  {
    var entry, d, store' := entries[i], registry[entries[i].key], Drafted(store, at, entries, revision);
    AllowedMembers(scopes);
    assert Normal(registry, at, entry);
    OwnChanged(store, at, entries, revision, i);
    OwnAfterAdmissible(d, at, registry, entry, revision, StateOf(store, at).version + 1);
    ResolvesWith(d, store, store', at, scopes, entry.key);
    TopWith(d, store, store', at, scopes, entry.key);
    if entry.reset { SameOwnLayers(store', Emptied(store, at), at, SortBy(scopes, LowerScope), entry.key); }
  }

  lemma UntouchedKey(
    store: Store, scopes: seq<ScopeRef>, at: ScopeRef, entries: seq<DraftEntry>, revision: string, key: string)
    requires key !in Keys(entries)
    ensures Stack(Drafted(store, at, entries, revision), scopes, key) == Stack(store, scopes, key)
  {
    OwnKept(store, at, entries, revision, key);
    SameOwnLayers(Drafted(store, at, entries, revision), store, at, SortBy(scopes, LowerScope), key);
  }

  lemma KeyAfter(
    registry: Registry, store: Store, scopes: seq<ScopeRef>, at: ScopeRef, entries: seq<DraftEntry>, revision: string,
    key: string)
    requires Applicable(registry, store, at, entries, revision) && AllowedScopes(scopes) && at in scopes
    requires key in registry && Resolves(registry[key], Stack(store, scopes, key))
    ensures var after := Stack(Drafted(store, at, entries, revision), scopes, key);
      && Resolves(registry[key], after)
      && Top(registry[key], after) == At(Overlaid(registry, store, scopes, at, entries), key)
  {
    if key !in Keys(entries) {
      UntouchedKey(store, scopes, at, entries, revision, key);
      OverlaidUnchanged(registry, store, scopes, at, entries, key);
    } else {
      var i := EntryOf(entries, key);
      DraftedKey(registry, store, scopes, at, entries, revision, i);
      if Covered(store, scopes, at, key) {
        OverlaidUnchanged(registry, store, scopes, at, entries, key);
      } else {
        OverlaidChanged(registry, store, scopes, at, entries, i);
      }
    }
  }

  // ------------------------------------------------------------ main theorems

  /** The list has exactly the overlaid values after the draft. */
  lemma OverlaidIsEffective(
    registry: Registry, store: Store, scopes: seq<ScopeRef>, at: ScopeRef, entries: seq<DraftEntry>, revision: string)
    requires Applicable(registry, store, at, entries, revision) && AllowedScopes(scopes) && at in scopes
    requires Effective(registry, store, scopes).Success?
    ensures var after := Effective(registry, Drafted(store, at, entries, revision), scopes);
      after.Success? && ValuesOf(after.value) == Overlaid(registry, store, scopes, at, entries)
  {
    ListEffective(registry, store, scopes);
    EffectiveAfter(registry, store, Drafted(store, at, entries, revision), scopes, at, entries, revision);
  }

  lemma EffectiveAfter(
    registry: Registry, store: Store, store': Store, scopes: seq<ScopeRef>, at: ScopeRef, entries: seq<DraftEntry>,
    revision: string)
    requires Applicable(registry, store, at, entries, revision) && AllowedScopes(scopes) && at in scopes
    requires AllResolve(registry, store, scopes) && store' == Drafted(store, at, entries, revision)
    ensures var after := Effective(registry, store', scopes);
      after.Success? && ValuesOf(after.value) == Overlaid(registry, store, scopes, at, entries)
  {
    var overlaid := Overlaid(registry, store, scopes, at, entries);
    TopsAfter(registry, store, store', scopes, at, entries, revision, overlaid);
    EffectiveTops(registry, store', scopes, overlaid);
  }

  lemma EffectiveTops(registry: Registry, store: Store, scopes: seq<ScopeRef>, values: Values)
    requires AllowedScopes(scopes) && AllResolve(registry, store, scopes) && Tops(registry, store, scopes) == values
    ensures var effective := Effective(registry, store, scopes);
      effective.Success? && ValuesOf(effective.value) == values
  {
    ListEffective(registry, store, scopes);
  }

  lemma TopsAfter(
    registry: Registry, store: Store, store': Store, scopes: seq<ScopeRef>, at: ScopeRef, entries: seq<DraftEntry>,
    revision: string, overlaid: Values)
    requires Applicable(registry, store, at, entries, revision) && AllowedScopes(scopes) && at in scopes
    requires AllResolve(registry, store, scopes) && store' == Drafted(store, at, entries, revision)
    requires overlaid == Overlaid(registry, store, scopes, at, entries)
    ensures AllResolve(registry, store', scopes) && Tops(registry, store', scopes) == overlaid
  {
    OverlaidKeys(registry, store, scopes, at, entries);
    forall key | key in registry
      ensures Resolves(registry[key], Stack(store', scopes, key))
      ensures Top(registry[key], Stack(store', scopes, key)) == overlaid[key]
    {
      KeyAfter(registry, store, scopes, at, entries, revision, key);
    }
  }

  lemma OverlayDecides(
    registry: Registry, store: Store, scopes: seq<ScopeRef>, at: ScopeRef, entries: seq<DraftEntry>)
    requires Registered(registry, entries) && Consistent(registry, Tops(registry, store, scopes))
    ensures var overlaid := Overlaid(registry, store, scopes, at, entries);
      ContextIssues(registry, overlaid, Passed(store, scopes, at, entries)) == [] <==> Consistent(registry, overlaid)
  {
    var values, overlaid := Tops(registry, store, scopes), Overlaid(registry, store, scopes, at, entries);
    var passed := Passed(store, scopes, at, entries);
    forall key | key !in passed ensures At(values, key) == At(overlaid, key) {
      OverlaidUnchanged(registry, store, scopes, at, entries, key);
    }
    NoContextIssue(registry, overlaid, passed);
    IncrementalCheckIsExact(registry, values, overlaid, passed);
  }

  lemma ValidIsApplicable(
    registry: Registry, store: Store, at: ScopeRef, entries: seq<DraftEntry>, revision: string)
    requires ValidRegistry(registry) && Validate(registry, at, entries).valid
    requires revision != "" && StateOf(store, at).version >= 0
    ensures Applicable(registry, store, at, Validate(registry, at, entries).normalized, revision)
  {
    var normalized := Validate(registry, at, entries).normalized;
    ValidatedIsNormal(registry, at, entries);
    forall e | e in normalized ensures e.key in registry { var i := IndexOf(normalized, e); }
  }

  /**
   * A valid draft keeps the consistent configuration of any list of scopes with
   * the drafted one in it consistent exactly when the contextual check, made on
   * the list's values and the changed keys no higher scope stores, finds nothing.
   */
  lemma DraftKeepsListIff(
    registry: Registry, store: Store, scopes: seq<ScopeRef>, at: ScopeRef, entries: seq<DraftEntry>, revision: string)
    requires ValidRegistry(registry) && Validate(registry, at, entries).valid
    requires revision != "" && StateOf(store, at).version >= 0
    requires at in scopes && ListConsistent(registry, store, scopes)
    ensures var normalized := Validate(registry, at, entries).normalized;
      && Registered(registry, normalized)
      && (ListConsistent(registry, Drafted(store, at, normalized, revision), scopes) <==>
          [] == ContextIssues(
            registry, Overlaid(registry, store, scopes, at, normalized), Passed(store, scopes, at, normalized)))
  {
    var normalized := Validate(registry, at, entries).normalized;
    ValidIsApplicable(registry, store, at, entries, revision);
    ListEffective(registry, store, scopes);
    OverlaidIsEffective(registry, store, scopes, at, normalized, revision);
    OverlayDecides(registry, store, scopes, at, normalized);
  }

  /** A scope with a chain of its own above the system scope. */
  predicate Upper(scope: ScopeRef) {
    ValidScope(scope) && !scope.kind.BuiltIn? && !scope.kind.System?
  }

  /**
   * A draft at the system scope, seen from another scope's chain: the keys that
   * scope stores itself are not touched.
   */
  lemma SystemDraftKeepsScopeIff(
    registry: Registry, store: Store, scope: ScopeRef, entries: seq<DraftEntry>, revision: string)
    requires ValidRegistry(registry) && Upper(scope) && Validate(registry, SYSTEM_SCOPE, entries).valid
    requires revision != "" && StateOf(store, SYSTEM_SCOPE).version >= 0
    requires ChainConsistent(registry, store, scope)
    ensures var normalized := Validate(registry, SYSTEM_SCOPE, entries).normalized;
      var passed := Keys(normalized) - StateOf(store, scope).values.Keys;
      && Registered(registry, normalized)
      && Passed(store, Chain(scope), SYSTEM_SCOPE, normalized) == passed
      && (ChainConsistent(registry, Drafted(store, SYSTEM_SCOPE, normalized, revision), scope) <==>
          ContextIssues(registry, Overlaid(registry, store, Chain(scope), SYSTEM_SCOPE, normalized), passed) == [])
  {
    ScopeInChain(scope);
    DraftKeepsListIff(registry, store, Chain(scope), SYSTEM_SCOPE, entries, revision);
    PassedInChain(store, scope, Validate(registry, SYSTEM_SCOPE, entries).normalized);
  }

  lemma ScopeInChain(scope: ScopeRef)
    requires Upper(scope)
    ensures SYSTEM_SCOPE in Chain(scope) && scope in Chain(scope) && LowerScope(SYSTEM_SCOPE, scope)
    ensures forall s :: s in Chain(scope) ==> s == scope || s == SYSTEM_SCOPE
  {
  }

  lemma PassedInChain(store: Store, scope: ScopeRef, entries: seq<DraftEntry>)
    requires Upper(scope)
    ensures Passed(store, Chain(scope), SYSTEM_SCOPE, entries) == Keys(entries) - StateOf(store, scope).values.Keys
  {
    ScopeInChain(scope);
    forall key ensures Covered(store, Chain(scope), SYSTEM_SCOPE, key) <==> key in StateOf(store, scope).values {
    }
  }
}
