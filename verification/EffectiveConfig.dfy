/**
 * The effective configuration of a set of scopes, and the snapshot a job
 * keeps of it.
 */
module EffectiveConfig {
  import opened Documents
  import opened Ordering
  import opened Registry

  datatype StoredValue = StoredValue(value: Raw, configured: bool, secret: bool, version: int, revision: string)

  /** What the repository holds for one scope. */
  datatype ScopeState = ScopeState(version: int, values: map<string, StoredValue>)

  type Store = map<ScopeRef, ScopeState>

  function StateOf(store: Store, scope: ScopeRef): ScopeState {
    if scope in store then store[scope] else ScopeState(0, map[])
  }

  type Configuration = map<string, EffectiveValue>

  /** Valid stored scopes, at most one of each kind. */
  predicate AllowedScopes(scopes: seq<ScopeRef>) {
    scopes == [] ||
    (var last, rest := scopes[|scopes| - 1], scopes[..|scopes| - 1];
     AllowedScopes(rest) && ValidScope(last) && !last.kind.BuiltIn? && forall s :: s in rest ==> s.kind != last.kind)
  }

  lemma {:induction false} AllowedPrefix(scopes: seq<ScopeRef>, n: nat)
    requires n <= |scopes|
    ensures AllowedScopes(scopes) ==> AllowedScopes(scopes[..n])
  {
    if n < |scopes| {
      AllowedPrefix(scopes[..|scopes| - 1], n);
      assert scopes[..|scopes| - 1][..n] == scopes[..n];
    } else {
      assert scopes[..n] == scopes;
    }
  }

  predicate LowerScope(a: ScopeRef, b: ScopeRef) {
    Rank(a.kind) < Rank(b.kind)
  }

  function Scoped(key: string, scope: ScopeRef, v: StoredValue): ScopedValue {
    ScopedValue(key, scope, v.value, v.configured, v.secret, v.revision, v.version)
  }

  /** The values the scopes store for one key, in the order of the scopes. */
  function Layered(store: Store, scopes: seq<ScopeRef>, key: string): seq<ScopedValue> {
    if scopes == [] then []
    else
      var scope := scopes[|scopes| - 1];
      var below := Layered(store, scopes[..|scopes| - 1], key);
      if key in StateOf(store, scope).values then below + [Scoped(key, scope, StateOf(store, scope).values[key])]
      else below
  }

  function Found<T>(values: map<string, seq<T>>, key: string): seq<T> {
    if key in values then values[key] else []
  }

  function ResolveFrom(registry: Registry, lists: map<string, seq<ScopedValue>>, key: string): Result<EffectiveValue> {
    Resolve(registry, key, Found(lists, key))
  }

  /** Every registered setting resolved over its list, or a failure if one does not resolve. */
  function ResolveAll(registry: Registry, lists: map<string, seq<ScopedValue>>): Result<Configuration> {
    if exists k :: k in registry && ResolveFrom(registry, lists, k).Failure? then Failure
    else Success(map k | k in registry :: ResolveFrom(registry, lists, k).value)
  }

  predicate Settled(registry: Registry, lists: map<string, seq<ScopedValue>>, m: Configuration) {
    forall k :: k in m ==> ResolveFrom(registry, lists, k) == Success(m[k])
  }

  lemma Settle(registry: Registry, lists: map<string, seq<ScopedValue>>, m: Configuration, key: string)
    requires Settled(registry, lists, m) && ResolveFrom(registry, lists, key).Success?
    ensures Settled(registry, lists, m[key := ResolveFrom(registry, lists, key).value])
  {
  }

  lemma ResolveAllIs(registry: Registry, lists: map<string, seq<ScopedValue>>, m: Configuration)
    requires m.Keys == registry.Keys && Settled(registry, lists, m)
    ensures ResolveAll(registry, lists) == Success(m)
  {
    assert (map k | k in registry :: ResolveFrom(registry, lists, k).value) == m;
  }

  lemma ResolveAllYields(registry: Registry, lists: map<string, seq<ScopedValue>>, key: string)
    requires ResolveAll(registry, lists).Success? && key in registry
    ensures ResolveAll(registry, lists).value.Keys == registry.Keys
    ensures ResolveFrom(registry, lists, key) == Success(ResolveAll(registry, lists).value[key])
  {
  }

  lemma ResolveAllFails(registry: Registry, lists: map<string, seq<ScopedValue>>, key: string)
    requires key in registry && ResolveFrom(registry, lists, key).Failure?
    ensures ResolveAll(registry, lists) == Failure
  {
  }

  lemma ResolveAllAgrees(registry: Registry, a: map<string, seq<ScopedValue>>, b: map<string, seq<ScopedValue>>)
    requires forall k :: k in registry ==> Found(a, k) == Found(b, k)
    ensures ResolveAll(registry, a) == ResolveAll(registry, b)
  {
    assert forall k :: k in registry ==> ResolveFrom(registry, a, k) == ResolveFrom(registry, b, k);
    if ResolveAll(registry, b).Success? {
      ResolveAllIs(registry, a, ResolveAll(registry, b).value);
    }
  }

  function Snapshot(registry: Registry, values: map<string, seq<ScopedValue>>): Result<Configuration> {
    if values.Keys <= registry.Keys then ResolveAll(registry, values) else Failure
  }

  function Grouped(registry: Registry, store: Store, scopes: seq<ScopeRef>): map<string, seq<ScopedValue>> {
    map key | key in registry :: Layered(store, scopes, key)
  }

  function Effective(registry: Registry, store: Store, scopes: seq<ScopeRef>): Result<Configuration> {
    if AllowedScopes(scopes) then ResolveAll(registry, Grouped(registry, store, SortBy(scopes, LowerScope)))
    else Failure
  }

  // ------------------------------------------------------- the program's loops

  method TakeSnapshot(registry: Registry, values: map<string, seq<ScopedValue>>) returns (r: Result<Configuration>)
    requires ValidRegistry(registry)
    ensures r == Snapshot(registry, values)
  {
    if !(values.Keys <= registry.Keys) {
      return Failure;
    }
    r := ResolveEach(registry, values);
  }

  /** The first i keys are resolved, and nothing else is. */
  predicate ResolvedSoFar(
    registry: Registry, lists: map<string, seq<ScopedValue>>, ordered: seq<string>, i: nat, m: Configuration)
    requires i <= |ordered|
  {
    && m.Keys <= registry.Keys && Settled(registry, lists, m)
    && forall k :: 0 <= k < i ==> ordered[k] in m
  }

  lemma OneMoreResolved(
    registry: Registry, lists: map<string, seq<ScopedValue>>, ordered: seq<string>, i: nat, m: Configuration)
    requires i < |ordered| && ordered[i] in registry && ResolvedSoFar(registry, lists, ordered, i, m)
    ensures var r := ResolveFrom(registry, lists, ordered[i]);
      if r.Success? then ResolvedSoFar(registry, lists, ordered, i + 1, m[ordered[i] := r.value])
      else ResolveAll(registry, lists) == Failure
  {
    var key := ordered[i];
    if ResolveFrom(registry, lists, key).Success? {
      Settle(registry, lists, m, key);
    } else {
      ResolveAllFails(registry, lists, key);
    }
  }

  /** The loop over the registered keys in order. */
  method ResolveEach(registry: Registry, lists: map<string, seq<ScopedValue>>) returns (r: Result<Configuration>)
    requires ValidRegistry(registry)
    ensures r == ResolveAll(registry, lists)
  {
    var ordered := Sorted(registry.Keys);
    var result: Configuration := map[];
    for i := 0 to |ordered|
      invariant ResolvedSoFar(registry, lists, ordered, i, result)
    {
      var key := ordered[i];
      assert key in ordered;
      OneMoreResolved(registry, lists, ordered, i, result);
      var effective := ResolveValue(registry, key, Found(lists, key));
      if effective.Failure? {
        return Failure;
      }
      result := result[key := effective.value];
    }
    EverySettled(registry, lists, ordered, result);
    r := Success(result);
  }

  lemma EverySettled(registry: Registry, lists: map<string, seq<ScopedValue>>, ordered: seq<string>, m: Configuration)
    requires forall k :: k in registry ==> k in ordered
    requires m.Keys <= registry.Keys && Settled(registry, lists, m)
    requires forall i :: 0 <= i < |ordered| ==> ordered[i] in m
    ensures ResolveAll(registry, lists) == Success(m)
  {
    forall k | k in registry ensures k in m { var i := IndexOf(ordered, k); }
    ResolveAllIs(registry, lists, m);
  }

  /** Appends one scope's stored values to the lists kept by key, in whatever order the state lists them. */
  method AppendScope(store: Store, scopes: seq<ScopeRef>, i: nat, lists: map<string, seq<ScopedValue>>)
    returns (r: map<string, seq<ScopedValue>>)
    requires i < |scopes|
    requires forall k :: Found(lists, k) == Layered(store, scopes[..i], k)
    ensures forall k :: Found(r, k) == Layered(store, scopes[..i + 1], k)
  {
    var scope := scopes[i];
    var state := StateOf(store, scope);
    r := lists;
    var rest := state.values.Keys;
    while rest != {}
      invariant rest <= state.values.Keys
      invariant forall k :: (
        var added := if k in state.values && k !in rest then [Scoped(k, scope, state.values[k])] else [];
        Found(r, k) == Found(lists, k) + added)
    {
      var key :| key in rest;
      r := r[key := Found(r, key) + [Scoped(key, scope, state.values[key])]];
      rest := rest - {key};
    }
    assert scopes[..i + 1][..i] == scopes[..i];
  }

  /** The loop over the scopes asked for: each valid and stored, no kind twice. */
  method CheckScopes(scopes: seq<ScopeRef>) returns (allowed: bool)
    ensures allowed <==> AllowedScopes(scopes)
  {
    var seen := {};
    for i := 0 to |scopes|
      invariant AllowedScopes(scopes[..i])
      invariant seen == set s | s in scopes[..i] :: s.kind
    {
      var n := i + 1;
      assert scopes[..n][..i] == scopes[..i] && scopes[..n][i] == scopes[i];
      if !ValidScope(scopes[i]) || scopes[i].kind.BuiltIn? || scopes[i].kind in seen {
        AllowedPrefix(scopes, n);
        return false;
      }
      seen := seen + {scopes[i].kind};
    }
    assert scopes[..|scopes|] == scopes;
    return true;
  }

  method GroupScopes(store: Store, ordered: seq<ScopeRef>) returns (lists: map<string, seq<ScopedValue>>)
    ensures forall k :: Found(lists, k) == Layered(store, ordered, k)
  {
    lists := map[];
    for i := 0 to |ordered|
      invariant forall k :: Found(lists, k) == Layered(store, ordered[..i], k)
    {
      lists := AppendScope(store, ordered, i, lists);
    }
    assert ordered[..|ordered|] == ordered;
  }

  method ComputeEffective(registry: Registry, store: Store, scopes: seq<ScopeRef>) returns (r: Result<Configuration>)
    requires ValidRegistry(registry)
    ensures r == Effective(registry, store, scopes)
  {
    var allowed := CheckScopes(scopes);
    if !allowed {
      return Failure;
    }
    var ordered := SortBy(scopes, LowerScope);
    var valuesByKey := GroupScopes(store, ordered);
    ResolveAllAgrees(registry, valuesByKey, Grouped(registry, store, ordered));
    r := ResolveEach(registry, valuesByKey);
  }

  // ------------------------------------------------------- job snapshots

  function Refeed(e: EffectiveValue, contributions: seq<Contribution>): seq<ScopedValue> {
    if contributions == [] then []
    else
      var c := contributions[0];
      (if c.scope.kind.BuiltIn? || !c.configured then []
       else [ScopedValue(e.key, c.scope, c.value, true, e.secret, c.revision, c.version)])
      + Refeed(e, contributions[1..])
  }

  /** What SnapshotJob passes on: per key the contributions of stored scopes, keys without one left out. */
  function Contributed(configuration: Configuration): map<string, seq<ScopedValue>> {
    map key | key in configuration && Refeed(configuration[key], configuration[key].contributions) != []
      :: Refeed(configuration[key], configuration[key].contributions)
  }

  lemma {:induction false} RefeedLayers(e: EffectiveValue, contributions: seq<Contribution>, layers: seq<ScopedValue>)
    requires |contributions| == |layers|
    requires forall i :: 0 <= i < |layers| ==>
      && contributions[i].scope == layers[i].scope && contributions[i].value == layers[i].value
      && contributions[i].revision == layers[i].revision && contributions[i].version == layers[i].version
      && contributions[i].configured && layers[i].configured && !layers[i].scope.kind.BuiltIn?
      && layers[i].key == e.key && layers[i].secret == e.secret
    ensures Refeed(e, contributions) == layers
  {
    if layers != [] {
      RefeedLayers(e, contributions[1..], layers[1..]);
    }
  }

  /** The layers above the default are admissible as they are, and admitting them again changes nothing. */
  lemma UpperLayers(d: Descriptor, values: seq<ScopedValue>)
    requires Accepts(d, d.fallback) && DistinctKinds(values)
    requires forall v :: v in values ==> Admissible(d, v)
    ensures var upper := Layers(d, values)[1..];
      && (forall v :: v in upper ==> Admissible(d, v) && v.configured && (d.secret ==> v.value.Absent?))
      && AdmitAll(d, upper) == upper
      && StrictlyOrdered(upper, LowerRank)
  {
    var ranked, all := Layers(d, values), [Default(d)] + AdmitAll(d, values);
    LayersOrdered(d, values);
    SameElements(ranked, all);
    var upper := ranked[1..];
    forall i | 0 <= i < |upper|
      ensures Admissible(d, upper[i]) && upper[i].configured && (d.secret ==> upper[i].value.Absent?)
      ensures Admitted(d, upper[i]) == upper[i]
    {
      assert ranked[i + 1] in all;
      assert LowerRank(ranked[0], ranked[i + 1]);
      var m := IndexOf(all, ranked[i + 1]);
      assert values[m - 1] in values;
    }
    forall i, j | 0 <= i < j < |upper| ensures LowerRank(upper[i], upper[j]) {
      assert LowerRank(ranked[i + 1], ranked[j + 1]);
    }
  }

  lemma RelayerUpper(d: Descriptor, values: seq<ScopedValue>)
    requires Accepts(d, d.fallback) && DistinctKinds(values)
    requires forall v :: v in values ==> Admissible(d, v)
    ensures var upper := Layers(d, values)[1..];
      DistinctKinds(upper) && Layers(d, upper) == Layers(d, values)
  {
    var upper := Layers(d, values)[1..];
    UpperLayers(d, values);
    RisingLayers(d, upper);
    assert Layers(d, values)[0] == Default(d) by { LayersOrdered(d, values); }
    assert [Default(d)] + upper == Layers(d, values);
  }

  /** A layer as SnapshotJob can feed it back. */
  predicate Refeedable(d: Descriptor, v: ScopedValue) {
    && v.key == d.key && v.secret == d.secret && v.configured && !v.scope.kind.BuiltIn?
    && (d.secret ==> v.value.Absent?)
  }

  lemma RankedRefeeds(d: Descriptor, ranked: seq<ScopedValue>)
    requires Accepts(d, d.fallback) && ranked != [] && ranked[0] == Default(d)
    requires forall i :: 1 <= i < |ranked| ==> Refeedable(d, ranked[i])
    ensures var e := Compose(d, ranked); Refeed(e, e.contributions) == ranked[1..]
  {
    var e, upper := Compose(d, ranked), ranked[1..];
    ContributionAt(d, ranked);
    forall i | 0 <= i < |upper| ensures e.contributions[1..][i] == Contribute(d, upper[i], i + 1 == |ranked| - 1) {
      assert Refeedable(d, ranked[i + 1]);
    }
    RefeedLayers(e, e.contributions[1..], upper);
  }

  lemma RefeedsUpper(d: Descriptor, values: seq<ScopedValue>)
    requires Accepts(d, d.fallback) && DistinctKinds(values)
    requires forall v :: v in values ==> Admissible(d, v)
    ensures var e := Compose(d, Layers(d, values));
      Refeed(e, e.contributions) == Layers(d, values)[1..]
  {
    var ranked := Layers(d, values);
    UpperLayers(d, values);
    LayersOrdered(d, values);
    forall i | 1 <= i < |ranked| ensures Refeedable(d, ranked[i]) { assert ranked[1..][i - 1] in ranked[1..]; }
    RankedRefeeds(d, ranked);
  }

  /** Resolving a value's own stored contributions gives the value again. */
  lemma ResolveRefed(registry: Registry, key: string, values: seq<ScopedValue>)
    requires ValidRegistry(registry) && Resolvable(registry, key, values)
    ensures var e := Resolve(registry, key, values).value;
      Resolve(registry, key, Refeed(e, e.contributions)) == Success(e)
  {
    var d := registry[key];
    CompatibleIff(d, values);
    CompatibleIff(d, Layers(d, values)[1..]);
    RelayerUpper(d, values);
    RefeedsUpper(d, values);
    UpperLayers(d, values);
  }

  /** A job snapshot reproduces every effective value with its source and its contribution list. */
  lemma SnapshotIsFixpoint(registry: Registry, store: Store, scopes: seq<ScopeRef>)
    requires ValidRegistry(registry) && Effective(registry, store, scopes).Success?
    ensures Snapshot(registry, Contributed(Effective(registry, store, scopes).value)) ==
            Effective(registry, store, scopes)
  {
    var configuration := Effective(registry, store, scopes).value;
    var lists := Grouped(registry, store, SortBy(scopes, LowerScope));
    var again := Contributed(configuration);
    assert configuration.Keys == registry.Keys;
    forall key | key in registry ensures ResolveFrom(registry, again, key) == Success(configuration[key]) {
      ResolveAllYields(registry, lists, key);
      ResolveRefed(registry, key, Found(lists, key));
    }
    ResolveAllIs(registry, again, configuration);
  }

  method RefeedEach(e: EffectiveValue) returns (list: seq<ScopedValue>)
    ensures list == Refeed(e, e.contributions)
  {
    list := [];
    for i := 0 to |e.contributions|
      invariant list + Refeed(e, e.contributions[i..]) == Refeed(e, e.contributions)
    {
      var c := e.contributions[i];
      assert e.contributions[i..][1..] == e.contributions[i + 1..];
      if !c.scope.kind.BuiltIn? && c.configured {
        list := list + [ScopedValue(e.key, c.scope, c.value, true, e.secret, c.revision, c.version)];
      }
    }
  }

  /** The grouping loop of SnapshotJob followed by the registry's snapshot. */
  method SnapshotJob(registry: Registry, store: Store, scopes: seq<ScopeRef>) returns (r: Result<Configuration>)
    requires ValidRegistry(registry)
    ensures r == Effective(registry, store, scopes)
  {
    var effective := ComputeEffective(registry, store, scopes);
    if effective.Failure? {
      return Failure;
    }
    var values := CollectContributed(effective.value);
    SnapshotIsFixpoint(registry, store, scopes);
    r := TakeSnapshot(registry, values);
  }

  /** The lists of contributions by key, in whatever order the configuration lists its values. */
  method CollectContributed(configuration: Configuration) returns (values: map<string, seq<ScopedValue>>)
    ensures values == Contributed(configuration)
  {
    values := map[];
    ghost var goal := Contributed(configuration);
    var rest := configuration.Keys;
    while rest != {}
      invariant rest <= configuration.Keys
      invariant forall key :: key in values <==> key in goal && key !in rest
      invariant forall key :: key in values ==> values[key] == goal[key]
    {
      var key :| key in rest;
      var list := RefeedEach(configuration[key]);
      if list != [] {
        values := values[key := list];
      }
      rest := rest - {key};
    }
    assert values == goal;
  }
}
