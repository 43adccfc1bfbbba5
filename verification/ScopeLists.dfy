/**
 * The effective configuration of any list of scopes, key by key: what each key
 * resolves from, and what it means for two states of one scope to be alike.
 */
module ScopeLists {
  import opened Documents
  import opened Ordering
  import opened Registry
  import opened EffectiveConfig
  import opened Drafts
  import opened RegistryService

  // ------------------------------------------------------ what a key resolves from

  /** The values the scopes store for the key, lowest rank first. */
  function Stack(store: Store, scopes: seq<ScopeRef>, key: string): seq<ScopedValue> {
    Layered(store, SortBy(scopes, LowerScope), key)
  }

  lemma {:induction false} AllowedMembers(scopes: seq<ScopeRef>)
    requires AllowedScopes(scopes)
    ensures forall s :: s in scopes ==> ValidScope(s) && !s.kind.BuiltIn?
    ensures Comparable(scopes, LowerScope)
  {
    if scopes != [] {
      var n := |scopes| - 1;
      AllowedMembers(scopes[..n]);
      forall i | 0 <= i < n ensures LowerScope(scopes[i], scopes[n]) || LowerScope(scopes[n], scopes[i]) {
        assert scopes[..n][i] in scopes[..n];
        RankInjective(scopes[i].kind, scopes[n].kind);
      }
      assert forall i :: 0 <= i < n ==> scopes[..n][i] == scopes[i];
    }
  }

  /** The scopes in rising rank are the same scopes. */
  lemma SortedScopes(scopes: seq<ScopeRef>)
    requires AllowedScopes(scopes)
    ensures StrictlyOrdered(SortBy(scopes, LowerScope), LowerScope)
    ensures forall s :: s in SortBy(scopes, LowerScope) <==> s in scopes
  {
    AllowedMembers(scopes);
    assert StrictOrder(LowerScope);
    SortOrders(scopes, LowerScope);
    SortPermutes(scopes, LowerScope);
    SameElements(SortBy(scopes, LowerScope), scopes);
  }

  predicate StoredIn(store: Store, s: ScopeRef, key: string, v: ScopedValue) {
    key in StateOf(store, s).values && v == Scoped(key, s, StateOf(store, s).values[key])
  }

  lemma {:induction false} LayeredMembers(store: Store, ordered: seq<ScopeRef>, key: string, v: ScopedValue)
    ensures v in Layered(store, ordered, key) <==> v.scope in ordered && StoredIn(store, v.scope, key, v)
  {
    if ordered != [] {
      var n := |ordered| - 1;
      LayeredMembers(store, ordered[..n], key, v);
      assert ordered == ordered[..n] + [ordered[n]];
    }
  }

  lemma {:induction false} LayeredRises(store: Store, ordered: seq<ScopeRef>, key: string)
    requires StrictlyOrdered(ordered, LowerScope)
    ensures StrictlyOrdered(Layered(store, ordered, key), LowerRank)
  {
    if ordered != [] {
      var n := |ordered| - 1;
      var below := Layered(store, ordered[..n], key);
      LayeredRises(store, ordered[..n], key);
      forall i | 0 <= i < |below| ensures below[i].scope in ordered[..n] {
        LayeredMembers(store, ordered[..n], key, below[i]);
      }
      forall i | 0 <= i < |below| ensures LowerScope(below[i].scope, ordered[n]) {
        var k :| 0 <= k < n && ordered[k] == below[i].scope;
      }
    }
  }

  // ---------------------------------------------------------------- resolution

  /** The values resolve: the default and each of them is accepted. */
  predicate Resolves(d: Descriptor, values: seq<ScopedValue>) {
    Accepts(d, d.fallback) && forall v :: v in values ==> Admissible(d, v)
  }

  lemma RisingResolves(registry: Registry, key: string, values: seq<ScopedValue>)
    requires key in registry && StrictlyOrdered(values, LowerRank)
    ensures Resolve(registry, key, values).Success? <==> Resolves(registry[key], values)
    ensures Resolves(registry[key], values) ==>
      Resolve(registry, key, values).value.value == Top(registry[key], values)
  {
    CompatibleIff(registry[key], values);
    RisingKinds(values);
    if Resolves(registry[key], values) { ResolveRising(registry, key, values); }
  }

  lemma RisingKinds(values: seq<ScopedValue>)
    requires StrictlyOrdered(values, LowerRank)
    ensures DistinctKinds(values)
  {
    forall i, j | 0 <= i < j < |values| ensures values[i].scope.kind != values[j].scope.kind {
      assert LowerRank(values[i], values[j]);
    }
  }

  function Resolved(registry: Registry, store: Store, scopes: seq<ScopeRef>, key: string): Result<EffectiveValue> {
    Resolve(registry, key, Stack(store, scopes, key))
  }

  lemma StackResolves(registry: Registry, store: Store, scopes: seq<ScopeRef>, key: string)
    requires AllowedScopes(scopes) && key in registry
    ensures Resolved(registry, store, scopes, key).Success? <==> Resolves(registry[key], Stack(store, scopes, key))
    ensures Resolves(registry[key], Stack(store, scopes, key)) ==>
      Resolved(registry, store, scopes, key).value.value == Top(registry[key], Stack(store, scopes, key))
  {
    SortedScopes(scopes);
    LayeredRises(store, SortBy(scopes, LowerScope), key);
    RisingResolves(registry, key, Stack(store, scopes, key));
  }

  /** The values of the list: for each key that of the highest scope storing it, or the default. */
  function Tops(registry: Registry, store: Store, scopes: seq<ScopeRef>): Values {
    map key | key in registry :: Top(registry[key], Stack(store, scopes, key))
  }

  predicate AllResolve(registry: Registry, store: Store, scopes: seq<ScopeRef>) {
    forall key :: key in registry ==> Resolves(registry[key], Stack(store, scopes, key))
  }

  lemma EffectiveResolves(registry: Registry, store: Store, scopes: seq<ScopeRef>, key: string)
    requires AllowedScopes(scopes) && key in registry && Effective(registry, store, scopes).Success?
    ensures Effective(registry, store, scopes).value.Keys == registry.Keys
    ensures Resolved(registry, store, scopes, key) == Success(Effective(registry, store, scopes).value[key])
  {
    ResolveAllYields(registry, Grouped(registry, store, SortBy(scopes, LowerScope)), key);
  }

  /** A list resolves exactly when each key's values do, and then has the top values. */
  lemma ListEffective(registry: Registry, store: Store, scopes: seq<ScopeRef>)
    requires AllowedScopes(scopes)
    ensures Effective(registry, store, scopes).Success? <==> AllResolve(registry, store, scopes)
    ensures AllResolve(registry, store, scopes) ==>
      ValuesOf(Effective(registry, store, scopes).value) == Tops(registry, store, scopes)
  {
    forall key | key in registry
      ensures Resolved(registry, store, scopes, key).Success? <==> Resolves(registry[key], Stack(store, scopes, key))
    {
      StackResolves(registry, store, scopes, key);
    }
    ListSucceeds(registry, store, scopes);
    if Effective(registry, store, scopes).Success? { ListValues(registry, store, scopes); }
  }

  lemma ListSucceeds(registry: Registry, store: Store, scopes: seq<ScopeRef>)
    requires AllowedScopes(scopes)
    ensures Effective(registry, store, scopes).Success? <==>
            forall key :: key in registry ==> Resolved(registry, store, scopes, key).Success?
  {
    var lists := Grouped(registry, store, SortBy(scopes, LowerScope));
    assert forall key :: key in registry ==>
      ResolveFrom(registry, lists, key) == Resolved(registry, store, scopes, key);
  }

  lemma ListValues(registry: Registry, store: Store, scopes: seq<ScopeRef>)
    requires AllowedScopes(scopes) && Effective(registry, store, scopes).Success?
    ensures ValuesOf(Effective(registry, store, scopes).value) == Tops(registry, store, scopes)
  {
    var configuration := Effective(registry, store, scopes).value;
    EffectiveKeys(registry, store, scopes);
    forall key | key in registry ensures configuration[key].value == Tops(registry, store, scopes)[key] {
      EffectiveResolves(registry, store, scopes, key);
      StackResolves(registry, store, scopes, key);
    }
    ValuesMatch(configuration, Tops(registry, store, scopes));
  }

  // -------------------------------------------------------------- alike states

  /** Values that are accepted or refused alike, and if they are no secrets are the same. */
  predicate Alike(d: Descriptor, a: seq<ScopedValue>, b: seq<ScopedValue>) {
    |a| == |b| && forall i :: 0 <= i < |a| ==> AlikeValues(d, a[i], b[i])
  }

  predicate AlikeValues(d: Descriptor, a: ScopedValue, b: ScopedValue) {
    (Admissible(d, a) <==> Admissible(d, b)) && (!d.secret ==> a.value == b.value)
  }

  lemma AlikeResolve(d: Descriptor, a: seq<ScopedValue>, b: seq<ScopedValue>)
    requires Alike(d, a, b)
    ensures Resolves(d, a) <==> Resolves(d, b)
    ensures Top(d, a) == Top(d, b)
  {
    if Resolves(d, a) {
      forall v | v in b ensures Admissible(d, v) { var i := IndexOf(b, v); assert AlikeValues(d, a[i], b[i]); }
    }
    if Resolves(d, b) {
      forall v | v in a ensures Admissible(d, v) { var i := IndexOf(a, v); assert AlikeValues(d, a[i], b[i]); }
    }
    if a != [] { assert AlikeValues(d, a[|a| - 1], b[|a| - 1]); }
  }

  lemma {:induction false} AlikeLayers(
    d: Descriptor, store: Store, at: ScopeRef, x: ScopeState, y: ScopeState, ordered: seq<ScopeRef>, key: string)
    requires Alike(d, OwnIn(x.values, at, key), OwnIn(y.values, at, key))
    ensures Alike(d, Layered(store[at := x], ordered, key), Layered(store[at := y], ordered, key))
  {
    if ordered != [] {
      var n := |ordered| - 1;
      AlikeLayers(d, store, at, x, y, ordered[..n], key);
      if ordered[n] == at && key in x.values {
        assert AlikeValues(d, OwnIn(x.values, at, key)[0], OwnIn(y.values, at, key)[0]);
      }
    }
  }

  /** The states of the scope are alike for every registered key. */
  predicate AlikeStates(registry: Registry, at: ScopeRef, x: ScopeState, y: ScopeState) {
    forall key :: key in registry ==> Alike(registry[key], OwnIn(x.values, at, key), OwnIn(y.values, at, key))
  }

  /** With alike states of one scope any list of scopes has the same values, or fails alike. */
  lemma AlikeLists(registry: Registry, store: Store, at: ScopeRef, x: ScopeState, y: ScopeState, scopes: seq<ScopeRef>)
    requires AlikeStates(registry, at, x, y)
    ensures var a, b := Effective(registry, store[at := x], scopes), Effective(registry, store[at := y], scopes);
      (a.Success? <==> b.Success?) && (a.Success? ==> ValuesOf(a.value) == ValuesOf(b.value))
  {
    if AllowedScopes(scopes) {
      forall key | key in registry
        ensures Resolves(registry[key], Stack(store[at := x], scopes, key)) <==>
                Resolves(registry[key], Stack(store[at := y], scopes, key))
        ensures Top(registry[key], Stack(store[at := x], scopes, key)) ==
                Top(registry[key], Stack(store[at := y], scopes, key))
      {
        AlikeLayers(registry[key], store, at, x, y, SortBy(scopes, LowerScope), key);
        AlikeResolve(registry[key], Stack(store[at := x], scopes, key), Stack(store[at := y], scopes, key));
      }
      ListEffective(registry, store[at := x], scopes);
      ListEffective(registry, store[at := y], scopes);
      assert Tops(registry, store[at := x], scopes) == Tops(registry, store[at := y], scopes);
    }
  }
}
