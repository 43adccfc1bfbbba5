/**
 * The scope repository as a map per scope, and the service operations that
 * change it: applying a reviewed draft and rolling a scope back.
 */
module RegistryService {
  import opened Documents
  import opened Ordering
  import opened Registry
  import opened EffectiveConfig
  import opened Drafts

  datatype ScopeChange = ScopeChange(key: string, value: Raw, configured: bool, secret: bool)

  /** A configured change puts the key, any other deletes it. */
  function ApplyChange(values: map<string, StoredValue>, change: ScopeChange, version: int, revision: string)
    : map<string, StoredValue>
  {
    if change.configured then
      values[change.key := StoredValue(change.value, true, change.secret, version, revision)]
    else values - {change.key}
  }

  function ApplyChanges(values: map<string, StoredValue>, changes: seq<ScopeChange>, version: int, revision: string)
    : map<string, StoredValue>
  {
    if changes == [] then values
    else
      var n := |changes| - 1;
      ApplyChange(ApplyChanges(values, changes[..n], version, revision), changes[n], version, revision)
  }

  function Successor(state: ScopeState, changes: seq<ScopeChange>, revision: string): ScopeState {
    ScopeState(state.version + 1, ApplyChanges(state.values, changes, state.version + 1, revision))
  }

  function Updated(store: Store, scope: ScopeRef, changes: seq<ScopeChange>, revision: string): Store {
    store[scope := Successor(StateOf(store, scope), changes, revision)]
  }

  function ToChange(entry: DraftEntry): ScopeChange {
    ScopeChange(entry.key, entry.value, !entry.reset && entry.configured, entry.secret)
  }

  function ToChanges(entries: seq<DraftEntry>): (changes: seq<ScopeChange>)
    ensures |changes| == |entries|
    ensures forall i :: 0 <= i < |entries| ==> changes[i] == ToChange(entries[i])
  {
    if entries == [] then [] else ToChanges(entries[..|entries| - 1]) + [ToChange(entries[|entries| - 1])]
  }

  predicate DistinctChanges(changes: seq<ScopeChange>) {
    forall i, j :: 0 <= i < j < |changes| ==> changes[i].key != changes[j].key
  }

  lemma {:induction false} ChangeMisses(
    values: map<string, StoredValue>, changes: seq<ScopeChange>, version: int, revision: string, key: string)
    requires forall i :: 0 <= i < |changes| ==> changes[i].key != key
    ensures var after := ApplyChanges(values, changes, version, revision);
      (key in after <==> key in values) && (key in after ==> after[key] == values[key])
  {
    if changes != [] {
      ChangeMisses(values, changes[..|changes| - 1], version, revision, key);
    }
  }

  lemma {:induction false} ChangeHits(
    values: map<string, StoredValue>, changes: seq<ScopeChange>, version: int, revision: string, i: nat)
    requires i < |changes| && DistinctChanges(changes)
    ensures var after := ApplyChanges(values, changes, version, revision);
      && (changes[i].key in after <==> changes[i].configured)
      && (changes[i].configured ==>
            after[changes[i].key] == StoredValue(changes[i].value, true, changes[i].secret, version, revision))
  {
    if i < |changes| - 1 {
      ChangeHits(values, changes[..|changes| - 1], version, revision, i);
    }
  }

  // ------------------------------------- what a chain of two scopes resolves to

  /** The value of the highest of the stored values, or the default. */
  function Top(d: Descriptor, values: seq<ScopedValue>): Raw {
    if d.secret then Absent
    else if values == [] then Relaid(d.fallback)
    else Relaid(values[|values| - 1].value)
  }

  lemma ResolveRising(registry: Registry, key: string, values: seq<ScopedValue>)
    requires Resolvable(registry, key, values) && StrictlyOrdered(values, LowerRank)
    ensures var d, e := registry[key], Resolve(registry, key, values).value;
      e.contributions == Contributions(d, [Default(d)] + AdmitAll(d, values)) && e.value == Top(d, values)
  {
    CompatibleIff(registry[key], values);
    RisingLayers(registry[key], values);
  }

  lemma SortChain(scope: ScopeRef)
    requires !scope.kind.BuiltIn?
    ensures SortBy(Chain(scope), LowerScope) == Chain(scope)
  {
    assert StrictOrder(LowerScope);
    assert multiset(Chain(scope)) == multiset(Chain(scope));
    SortReaches(Chain(scope), Chain(scope), LowerScope);
  }

  /** The values of the chain below the scope itself. */
  function Underneath(store: Store, scope: ScopeRef, key: string): seq<ScopedValue> {
    if scope.kind.System? then [] else Layered(store, [SYSTEM_SCOPE], key)
  }

  function OwnIn(values: map<string, StoredValue>, scope: ScopeRef, key: string): seq<ScopedValue> {
    if key in values then [Scoped(key, scope, values[key])] else []
  }

  function Own(store: Store, scope: ScopeRef, key: string): seq<ScopedValue> {
    OwnIn(StateOf(store, scope).values, scope, key)
  }

  lemma LayeredOne(store: Store, scope: ScopeRef, key: string)
    ensures Layered(store, [scope], key) == Own(store, scope, key)
  {
    assert [scope][..0] == [];
    assert [] + Own(store, scope, key) == Own(store, scope, key);
  }

  lemma {:induction false} LayeredChain(store: Store, scope: ScopeRef, key: string)
    requires ValidScope(scope) && !scope.kind.BuiltIn?
    ensures Layered(store, Chain(scope), key) == Underneath(store, scope, key) + Own(store, scope, key)
    ensures |Underneath(store, scope, key)| <= 1
    ensures forall v :: v in Underneath(store, scope, key) ==> v.scope == SYSTEM_SCOPE && scope.kind != System
    ensures StrictlyOrdered(Layered(store, Chain(scope), key), LowerRank)
  {
    LayeredTwo(store, scope, key);
    UnderneathSystem(store, scope, key);
    var below, own := Underneath(store, scope, key), Own(store, scope, key);
    if below != [] && own != [] { AboveSystem(below[0], own[0]); }
    PairRises(below + own);
  }

  lemma {:induction false} LayeredTwo(store: Store, scope: ScopeRef, key: string)
    requires ValidScope(scope)
    ensures Layered(store, Chain(scope), key) == Underneath(store, scope, key) + Own(store, scope, key)
  {
    if scope.kind.System? {
      LayeredOne(store, scope, key);
    } else {
      assert Chain(scope)[..1] == [SYSTEM_SCOPE];
    }
  }

  lemma {:induction false} UnderneathSystem(store: Store, scope: ScopeRef, key: string)
    ensures |Underneath(store, scope, key)| <= 1
    ensures forall v :: v in Underneath(store, scope, key) ==> v.scope == SYSTEM_SCOPE && scope.kind != System
  {
    LayeredOne(store, SYSTEM_SCOPE, key);
  }

  lemma AboveSystem(a: ScopedValue, b: ScopedValue)
    requires a.scope.kind.System? && !b.scope.kind.System? && !b.scope.kind.BuiltIn?
    ensures LowerRank(a, b)
  {
  }

  lemma PairRises(s: seq<ScopedValue>)
    requires |s| <= 2 && (|s| == 2 ==> LowerRank(s[0], s[1]))
    ensures StrictlyOrdered(s, LowerRank)
  {
  }

  /** The fallback passes over a contribution of the scope itself, and stops at any other that is configured. */
  lemma FallbackAt(d: Descriptor, ranked: seq<ScopedValue>, n: nat, scope: ScopeRef)
    requires n < |ranked|
    ensures Fallback(Contributions(d, ranked)[..n + 1], scope) ==
            if ranked[n].scope != scope && ranked[n].configured then (if d.secret then Absent else ranked[n].value)
            else Fallback(Contributions(d, ranked)[..n], scope)
  {
    ContributionAt(d, ranked);
    assert Contributions(d, ranked)[..n + 1][..n] == Contributions(d, ranked)[..n];
  }

  lemma FallbackBelowLast(d: Descriptor, ranked: seq<ScopedValue>, n: nat, scope: ScopeRef)
    requires n < |ranked| <= n + 2 && ranked[n].scope != scope && ranked[n].configured
    requires |ranked| == n + 2 ==> ranked[n + 1].scope == scope
    ensures Fallback(Contributions(d, ranked), scope) == if d.secret then Absent else ranked[n].value
  {
    FallbackAt(d, ranked, n, scope);
    if |ranked| == n + 2 { FallbackAt(d, ranked, n + 1, scope); }
    assert Contributions(d, ranked)[..|ranked|] == Contributions(d, ranked);
  }

  lemma FallbackSkipsOwn(d: Descriptor, below: seq<ScopedValue>, own: seq<ScopedValue>, scope: ScopeRef)
    requires Accepts(d, d.fallback) && !scope.kind.BuiltIn? && |own| <= 1
    requires forall v :: v in below ==> v.scope != scope
    requires forall v :: v in own ==> v.scope == scope
    ensures Fallback(Contributions(d, [Default(d)] + AdmitAll(d, below + own)), scope) == Top(d, below)
  {
    LayerBelow(d, below, own);
    LayerIsTop(d, below, scope);
    assert own != [] ==> own[0] in own;
    FallbackBelowLast(d, [Default(d)] + AdmitAll(d, below + own), |below|, scope);
  }

  lemma LayerIsTop(d: Descriptor, below: seq<ScopedValue>, scope: ScopeRef)
    requires Accepts(d, d.fallback) && !scope.kind.BuiltIn? && forall v :: v in below ==> v.scope != scope
    ensures var v := if below == [] then Default(d) else Admitted(d, below[|below| - 1]);
      v.scope != scope && v.configured && (if d.secret then Absent else v.value) == Top(d, below)
  {
  }

  lemma LayerBelow(d: Descriptor, below: seq<ScopedValue>, own: seq<ScopedValue>)
    requires Accepts(d, d.fallback)
    ensures var layers, n := [Default(d)] + AdmitAll(d, below + own), |below|;
      && layers[n] == (if n == 0 then Default(d) else Admitted(d, below[n - 1]))
      && (own != [] ==> layers[n + 1] == Admitted(d, own[0]))
  {
  }

  // ---------------------------------------------- the prediction is what comes

  lemma EntryOf(entries: seq<DraftEntry>, key: string) returns (i: nat)
    requires key in Keys(entries)
    ensures i < |entries| && entries[i].key == key
  {
    var e :| e in entries && e.key == key;
    i := IndexOf(entries, e);
  }

  lemma OwnKept(store: Store, scope: ScopeRef, entries: seq<DraftEntry>, revision: string, key: string)
    requires key !in Keys(entries)
    ensures Own(Updated(store, scope, ToChanges(entries), revision), scope, key) == Own(store, scope, key)
  {
    var before, changes := StateOf(store, scope), ToChanges(entries);
    forall i | 0 <= i < |changes| ensures changes[i].key != key {
      assert entries[i] in entries;
    }
    ChangeMisses(before.values, changes, before.version + 1, revision, key);
  }

  lemma OwnChanged(store: Store, scope: ScopeRef, entries: seq<DraftEntry>, revision: string, i: nat)
    requires DistinctEntries(entries) && i < |entries|
    ensures Own(Updated(store, scope, ToChanges(entries), revision), scope, entries[i].key)
         == OwnAfter(scope, entries[i], revision, StateOf(store, scope).version + 1)
  {
    OwnUpdated(store, scope, ToChanges(entries), revision, entries[i].key);
    StoredChange(StateOf(store, scope).values, entries, StateOf(store, scope).version + 1, revision, i);
  }

  lemma OwnUpdated(store: Store, scope: ScopeRef, changes: seq<ScopeChange>, revision: string, key: string)
    ensures var state := StateOf(store, scope);
      var after := ApplyChanges(state.values, changes, state.version + 1, revision);
      Own(Updated(store, scope, changes, revision), scope, key)
      == if key in after then [Scoped(key, scope, after[key])] else []
  {
  }

  lemma StoredChange(values: map<string, StoredValue>, entries: seq<DraftEntry>, version: int, revision: string, i: nat)
    requires DistinctEntries(entries) && i < |entries|
    ensures var after, entry := ApplyChanges(values, ToChanges(entries), version, revision), entries[i];
      if entry.reset || !entry.configured then entry.key !in after
      else entry.key in after && after[entry.key] == StoredValue(entry.value, true, entry.secret, version, revision)
  {
    DistinctToChanges(entries);
    ChangeHits(values, ToChanges(entries), version, revision, i);
  }

  lemma DistinctToChanges(entries: seq<DraftEntry>)
    requires DistinctEntries(entries)
    ensures DistinctChanges(ToChanges(entries))
  {
  }

  /** A reset key resolves to what the check fell back to. */
  lemma ResetResolves(registry: Registry, key: string, below: seq<ScopedValue>, own: seq<ScopedValue>, scope: ScopeRef)
    requires Resolvable(registry, key, below + own) && |own| <= 1 && !scope.kind.BuiltIn?
    requires StrictlyOrdered(below + own, LowerRank) && StrictlyOrdered(below, LowerRank)
    requires forall v :: v in below ==> v.scope != scope
    requires forall v :: v in own ==> v.scope == scope
    ensures Resolve(registry, key, below).Success?
    ensures Resolve(registry, key, below).value.value
         == Fallback(Resolve(registry, key, below + own).value.contributions, scope)
  {
    CompatibleBelow(registry[key], below, own);
    FallbackSkipsOwn(registry[key], below, own, scope);
    ResolveRising(registry, key, below + own);
    ResolveRising(registry, key, below);
  }

  /** A key set by the draft resolves to the value set. */
  lemma SetResolves(registry: Registry, key: string, below: seq<ScopedValue>, own: seq<ScopedValue>, v: ScopedValue)
    requires Resolvable(registry, key, below + own) && |own| <= 1
    requires Admissible(registry[key], v) && StrictlyOrdered(below + [v], LowerRank)
    ensures Resolve(registry, key, below + [v]).Success?
    ensures Resolve(registry, key, below + [v]).value.value == if registry[key].secret then Absent else Relaid(v.value)
  {
    CompatibleBelow(registry[key], below, own);
    forall w | w in below ensures w.scope.kind != v.scope.kind {
      var i := IndexOf(below, w);
      assert LowerRank((below + [v])[i], (below + [v])[|below|]);
    }
    CompatibleSnoc(registry[key], below, v);
    ResolveRising(registry, key, below + [v]);
  }

  function ResolvedAt(registry: Registry, store: Store, scope: ScopeRef, key: string): Result<EffectiveValue> {
    Resolve(registry, key, Underneath(store, scope, key) + Own(store, scope, key))
  }

  lemma BelowKept(store: Store, scope: ScopeRef, entries: seq<DraftEntry>, revision: string, key: string)
    ensures Underneath(Updated(store, scope, ToChanges(entries), revision), scope, key) == Underneath(store, scope, key)
  {
    LayeredOne(store, SYSTEM_SCOPE, key);
    LayeredOne(Updated(store, scope, ToChanges(entries), revision), SYSTEM_SCOPE, key);
  }

  /** One key after the draft: it resolves, and to the predicted value. */
  lemma KeyAfterDraft(
    registry: Registry, store: Store, scope: ScopeRef, configuration: Configuration, entries: seq<DraftEntry>,
    revision: string, key: string)
    requires key in registry && registry[key].key == key && ValidScope(scope) && !scope.kind.BuiltIn?
    requires NormalEntries(registry, scope, entries)
    requires revision != "" && StateOf(store, scope).version >= 0
    requires key in configuration && ResolvedAt(registry, store, scope, key) == Success(configuration[key])
    ensures var after := ResolvedAt(registry, Updated(store, scope, ToChanges(entries), revision), scope, key);
      after.Success? && after.value.value == At(Prospective(configuration, scope, entries), key)
  {
    var below, own := Underneath(store, scope, key), Own(store, scope, key);
    BelowKept(store, scope, entries, revision, key);
    if key !in Keys(entries) {
      OwnKept(store, scope, entries, revision, key);
      ProspectiveUnchanged(configuration, scope, entries, key);
    } else {
      var i := EntryOf(entries, key);
      DraftedKey(registry, store, scope, configuration, entries, revision, i);
      ProspectiveChanged(configuration, scope, entries, i);
    }
  }

  lemma DraftedKey(
    registry: Registry, store: Store, scope: ScopeRef, configuration: Configuration, entries: seq<DraftEntry>,
    revision: string, i: nat)
    requires i < |entries| && NormalEntries(registry, scope, entries) && ValidScope(scope) && !scope.kind.BuiltIn?
    requires revision != "" && StateOf(store, scope).version >= 0
    requires var key := entries[i].key;
      && key in registry && registry[key].key == key && key in configuration
      && ResolvedAt(registry, store, scope, key) == Success(configuration[key])
    ensures var store' := Updated(store, scope, ToChanges(entries), revision);
      var after := ResolvedAt(registry, store', scope, entries[i].key);
      after.Success? && after.value.value == Expected(configuration, scope, entries[i])
  {
    var key := entries[i].key;
    BelowKept(store, scope, entries, revision, key);
    OwnChanged(store, scope, entries, revision, i);
    ChainShape(store, scope, key);
    assert Normal(registry, scope, entries[i]);
    EntryResolves(registry, scope, configuration, entries[i], Underneath(store, scope, key), Own(store, scope, key),
      revision, StateOf(store, scope).version + 1);
  }

  /** What the scope itself holds of an entry's key once the entry is applied. */
  function OwnAfter(scope: ScopeRef, entry: DraftEntry, revision: string, version: int): seq<ScopedValue> {
    if entry.reset || !entry.configured then []
    else [ScopedValue(entry.key, scope, entry.value, true, entry.secret, revision, version)]
  }

  lemma EntryResolves(
    registry: Registry, scope: ScopeRef, configuration: Configuration, entry: DraftEntry,
    below: seq<ScopedValue>, own: seq<ScopedValue>, revision: string, version: int)
    requires Normal(registry, scope, entry) && registry[entry.key].key == entry.key && entry.key in configuration
    requires Resolve(registry, entry.key, below + own) == Success(configuration[entry.key])
    requires ValidScope(scope) && !scope.kind.BuiltIn? && |own| <= 1 && revision != "" && version >= 1
    requires StrictlyOrdered(below + own, LowerRank) && StrictlyOrdered(below, LowerRank)
    requires forall v :: v in below ==> v.scope != scope
    requires forall v :: v in own ==> v.scope == scope
    requires forall v: ScopedValue :: v.scope == scope ==> StrictlyOrdered(below + [v], LowerRank)
    ensures var after := Resolve(registry, entry.key, below + OwnAfter(scope, entry, revision, version));
      after.Success? && after.value.value == Expected(configuration, scope, entry)
  {
    if entry.reset {
      assert below + [] == below;
      ResetResolves(registry, entry.key, below, own, scope);
    } else {
      SetResolves(registry, entry.key, below, own, OwnAfter(scope, entry, revision, version)[0]);
    }
  }

  lemma ChainShape(store: Store, scope: ScopeRef, key: string)
    requires ValidScope(scope) && !scope.kind.BuiltIn?
    ensures forall v :: v in Underneath(store, scope, key) ==> v.scope != scope
    ensures forall v :: v in Own(store, scope, key) ==> v.scope == scope
    ensures StrictlyOrdered(Underneath(store, scope, key), LowerRank)
    ensures StrictlyOrdered(Underneath(store, scope, key) + Own(store, scope, key), LowerRank)
    ensures forall v: ScopedValue :: v.scope == scope ==>
            StrictlyOrdered(Underneath(store, scope, key) + [v], LowerRank)
  {
    LayeredChain(store, scope, key);
    var below := Underneath(store, scope, key);
    if below != [] {
      assert below[0] in below;
      RankInjective(scope.kind, System);
    }
  }

  lemma KeyBeforeDraft(registry: Registry, store: Store, scope: ScopeRef, key: string)
    requires key in registry && ValidScope(scope) && !scope.kind.BuiltIn?
    requires Effective(registry, store, Chain(scope)).Success?
    ensures Effective(registry, store, Chain(scope)).value.Keys == registry.Keys
    ensures ResolvedAt(registry, store, scope, key) == Success(Effective(registry, store, Chain(scope)).value[key])
  {
    SortChain(scope);
    LayeredChain(store, scope, key);
    ResolveAllYields(registry, Grouped(registry, store, Chain(scope)), key);
  }

  /** The chain's effective configuration, from each key's resolution. */
  lemma {:induction false} EffectiveFromKeys(registry: Registry, store: Store, scope: ScopeRef, values: Values)
    requires ValidScope(scope) && !scope.kind.BuiltIn? && values.Keys == registry.Keys
    requires forall key :: key in registry ==>
      ResolvedAt(registry, store, scope, key).Success? &&
        ResolvedAt(registry, store, scope, key).value.value == values[key]
    ensures Effective(registry, store, Chain(scope)).Success?
    ensures ValuesOf(Effective(registry, store, Chain(scope)).value) == values
  {
    var after := ResolvedAll(registry, store, scope);
    ValuesMatch(after, values);
    EffectiveIs(registry, store, scope, after);
  }

  function ResolvedAll(registry: Registry, store: Store, scope: ScopeRef): (configuration: Configuration)
    requires forall key :: key in registry ==> ResolvedAt(registry, store, scope, key).Success?
    ensures configuration.Keys == registry.Keys
    ensures forall key :: key in registry ==> configuration[key] == ResolvedAt(registry, store, scope, key).value
  {
    map key | key in registry :: ResolvedAt(registry, store, scope, key).value
  }

  lemma ValuesMatch(configuration: Configuration, values: Values)
    requires configuration.Keys == values.Keys
    requires forall key :: key in values ==> configuration[key].value == values[key]
    ensures ValuesOf(configuration) == values
  {
  }

  lemma EffectiveIs(registry: Registry, store: Store, scope: ScopeRef, after: Configuration)
    requires ValidScope(scope) && !scope.kind.BuiltIn? && after.Keys == registry.Keys
    requires forall key :: key in registry ==> ResolvedAt(registry, store, scope, key) == Success(after[key])
    ensures Effective(registry, store, Chain(scope)) == Success(after)
  {
    var lists := Grouped(registry, store, Chain(scope));
    forall key | key in registry ensures ResolveFrom(registry, lists, key) == Success(after[key]) {
      LayeredChain(store, scope, key);
    }
    assert Settled(registry, lists, after);
    ResolveAllIs(registry, lists, after);
    SortChain(scope);
    ChainAllowed(scope);
  }

  lemma CompatibleBelow(d: Descriptor, below: seq<ScopedValue>, own: seq<ScopedValue>)
    requires Compatible(d, below + own)
    ensures Compatible(d, below)
    ensures forall v :: v in below && d.secret ==> v.value.Absent?
  {
    CompatibleIff(d, below + own);
    CompatibleIff(d, below);
    forall i | 0 <= i < |below| ensures Admissible(d, below[i]) && (below + own)[i] == below[i] {
      assert (below + own)[i] in below + own;
    }
  }

  lemma CompatibleSnoc(d: Descriptor, below: seq<ScopedValue>, v: ScopedValue)
    requires Compatible(d, below) && Admissible(d, v)
    requires forall w :: w in below ==> w.scope.kind != v.scope.kind
    ensures Compatible(d, below + [v])
  {
    CompatibleIff(d, below);
    CompatibleIff(d, below + [v]);
  }

  /** The contextual check predicts, key for key, the effective values after the draft is applied. */
  lemma ProspectiveIsEffective(
    registry: Registry, store: Store, scope: ScopeRef, entries: seq<DraftEntry>, revision: string)
    requires ValidRegistry(registry) && ValidScope(scope) && !scope.kind.BuiltIn?
    requires NormalEntries(registry, scope, entries)
    requires revision != "" && StateOf(store, scope).version >= 0
    requires Effective(registry, store, Chain(scope)).Success?
    ensures var after := Effective(registry, Updated(store, scope, ToChanges(entries), revision), Chain(scope));
      && after.Success?
      && ValuesOf(after.value) == Prospective(Effective(registry, store, Chain(scope)).value, scope, entries)
  {
    var store' := Updated(store, scope, ToChanges(entries), revision);
    var configuration := Effective(registry, store, Chain(scope)).value;
    var predicted := Prospective(configuration, scope, entries);
    EffectiveKeys(registry, store, Chain(scope));
    PredictedKeys(registry, configuration, scope, entries);
    forall key | key in registry ensures
      ResolvedAt(registry, store', scope, key).Success? &&
        ResolvedAt(registry, store', scope, key).value.value == predicted[key]
    {
      KeyBeforeDraft(registry, store, scope, key);
      KeyAfterDraft(registry, store, scope, configuration, entries, revision, key);
    }
    EffectiveFromKeys(registry, store', scope, predicted);
  }

  lemma PredictedKeys(registry: Registry, configuration: Configuration, scope: ScopeRef, entries: seq<DraftEntry>)
    requires NormalEntries(registry, scope, entries) && configuration.Keys == registry.Keys
    ensures Prospective(configuration, scope, entries).Keys == registry.Keys
  {
    ProspectiveKeys(configuration, scope, entries);
    forall e | e in entries ensures e.key in registry {
      var i := IndexOf(entries, e);
    }
  }

  lemma ChainAllowed(scope: ScopeRef)
    requires ValidScope(scope) && !scope.kind.BuiltIn?
    ensures AllowedScopes(Chain(scope))
  {
    assert AllowedScopes([]);
    assert [SYSTEM_SCOPE][..0] == [];
    assert AllowedScopes([SYSTEM_SCOPE]);
    if !scope.kind.System? {
      assert Chain(scope)[..1] == [SYSTEM_SCOPE];
    }
  }

  lemma {:induction false} ProspectiveKeys(configuration: Configuration, scope: ScopeRef, entries: seq<DraftEntry>)
    ensures Prospective(configuration, scope, entries).Keys == configuration.Keys + Keys(entries)
  {
    if entries != [] {
      var n := |entries| - 1;
      ProspectiveKeys(configuration, scope, entries[..n]);
      assert entries == entries[..n] + [entries[n]];
    }
  }

  /** The effective configuration of the list satisfies every relation. */
  predicate ListConsistent(registry: Registry, store: Store, scopes: seq<ScopeRef>) {
    var effective := Effective(registry, store, scopes);
    effective.Success? && Consistent(registry, ValuesOf(effective.value))
  }

  /** So does that of the chain a scope's drafts are checked against. */
  predicate ChainConsistent(registry: Registry, store: Store, scope: ScopeRef) {
    ListConsistent(registry, store, Chain(scope))
  }

  /**
   * A draft that passes entry validation is accepted in context exactly when
   * the whole configuration after it is consistent, given that it was before.
   */
  lemma AcceptedExactlyWhenConsistent(
    registry: Registry, store: Store, scope: ScopeRef, entries: seq<DraftEntry>, revision: string)
    requires ValidRegistry(registry) && Validate(registry, scope, entries).valid
    requires revision != "" && StateOf(store, scope).version >= 0
    requires ChainConsistent(registry, store, scope)
    ensures var configuration := Effective(registry, store, Chain(scope)).value;
      var normalized := Validate(registry, scope, entries).normalized;
      ContextReport(registry, configuration, scope, entries).valid
      <==> ChainConsistent(registry, Updated(store, scope, ToChanges(normalized), revision), scope)
  {
    var configuration := Effective(registry, store, Chain(scope)).value;
    var normalized := Validate(registry, scope, entries).normalized;
    ValidatedIsNormal(registry, scope, entries);
    ProspectiveIsEffective(registry, store, scope, normalized, revision);
    CheckDecides(registry, configuration, scope, normalized);
  }

  /** On a consistent configuration the contextual issues decide the consistency of the predicted one. */
  lemma CheckDecides(registry: Registry, configuration: Configuration, scope: ScopeRef, entries: seq<DraftEntry>)
    requires Consistent(registry, ValuesOf(configuration))
    ensures var predicted := Prospective(configuration, scope, entries);
      ContextIssues(registry, predicted, Keys(entries)) == [] <==> Consistent(registry, predicted)
  {
    var predicted := Prospective(configuration, scope, entries);
    forall key | key !in Keys(entries) ensures At(ValuesOf(configuration), key) == At(predicted, key) {
      ProspectiveUnchanged(configuration, scope, entries, key);
    }
    NoContextIssue(registry, predicted, Keys(entries));
    IncrementalCheckIsExact(registry, ValuesOf(configuration), predicted, Keys(entries));
  }
}
