/**
 * Which scope's value decides, by the scopes' own names: what a setting
 * resolves to, and in which order the scopes contribute to it.
 */
module Precedence {
  import opened Registry
  import opened EffectiveConfig
  import opened RegistryService
  import opened Ordering
  import opened ScopeLists

  /** The kinds of scopes the values come from. */
  function KindSet(values: seq<ScopedValue>): set<ScopeKind> {
    set v | v in values :: v.scope.kind
  }

  /** A job's override comes before its template, that before the environment, the project, the pack and the system. */
  function Deciding(present: set<ScopeKind>): ScopeKind {
    if JobOverride in present then JobOverride
    else if JobTemplate in present then JobTemplate
    else if Environment in present then Environment
    else if Project in present then Project
    else if Pack in present then Pack
    else if System in present then System
    else BuiltIn
  }

  /** The order in which the kinds of scopes contribute. */
  function Names(): seq<ScopeKind> {
    [BuiltIn, System, Pack, Project, Environment, JobTemplate, JobOverride]
  }

  /** The built-in default and those of the kinds that are present, in the order of the names. */
  function InOrder(names: seq<ScopeKind>, present: set<ScopeKind>): seq<ScopeKind> {
    if names == [] then []
    else (if names[0] == BuiltIn || names[0] in present then [names[0]] else []) + InOrder(names[1..], present)
  }

  function KindsOf(contributions: seq<Contribution>): (kinds: seq<ScopeKind>)
    ensures |kinds| == |contributions|
    ensures forall i :: 0 <= i < |contributions| ==> kinds[i] == contributions[i].scope.kind
  {
    seq(|contributions|, i requires 0 <= i < |contributions| => contributions[i].scope.kind)
  }

  // ---------------------------------------------------------- one setting

  lemma NoBuiltIn(d: Descriptor, values: seq<ScopedValue>)
    requires Compatible(d, values)
    ensures BuiltIn !in KindSet(values)
  {
    CompatibleIff(d, values);
  }

  /** A value of the deciding scope, where there is one, ranks above all others. */
  lemma DecidingIsHighest(values: seq<ScopedValue>, v: ScopedValue)
    requires v in values && v.scope.kind == Deciding(KindSet(values)) && BuiltIn !in KindSet(values)
    ensures forall w :: w in values ==> Rank(w.scope.kind) <= Rank(v.scope.kind)
  {
    forall w | w in values ensures Rank(w.scope.kind) <= Rank(v.scope.kind) {
      assert w.scope.kind in KindSet(values);
    }
  }

  lemma SomeDecides(values: seq<ScopedValue>) returns (v: ScopedValue)
    requires values != [] && BuiltIn !in KindSet(values)
    ensures v in values && v.scope.kind == Deciding(KindSet(values))
  {
    assert values[0] in values && values[0].scope.kind in KindSet(values);
    v :| v in values && v.scope.kind == Deciding(KindSet(values));
  }

  /** The effective value is this one, or hidden as a secret's. */
  predicate Supplies(d: Descriptor, v: ScopedValue, e: EffectiveValue) {
    && v.scope == e.source && v.revision == e.revision
    && e.value == if d.secret then Absent else Relaid(v.value)
  }

  /**
   * The value that decides is the one stored at the first of job override, job
   * template, environment, project, pack and system that stores one; the
   * built-in default decides only where none does.
   */
  lemma DecidingScopeWins(registry: Registry, key: string, values: seq<ScopedValue>)
    requires ValidRegistry(registry) && Resolvable(registry, key, values)
    ensures Resolve(registry, key, values).Success?
    ensures var d, e := registry[key], Resolve(registry, key, values).value;
      && e.source.kind == Deciding(KindSet(values))
      && (values == [] <==> e.source.kind == BuiltIn)
      && (values == [] ==> e.value == if d.secret then Absent else Relaid(d.fallback))
      && (values != [] ==> exists v :: v in values && Supplies(d, v, e))
  {
    NoBuiltIn(registry[key], values);
    if values != [] {
      var v := SomeDecides(values);
      DecidingIsHighest(values, v);
      ResolvePicksHighest(registry, key, values, v);
      assert v.scope.kind in KindSet(values);
    } else {
      ResolveRising(registry, key, []);
      ResolveContributions(registry, key, []);
    }
  }

  /** Two strictly rising lists of kinds with the same members are the same. */
  predicate RanksRise(kinds: seq<ScopeKind>) {
    forall i, j :: 0 <= i < j < |kinds| ==> Rank(kinds[i]) < Rank(kinds[j])
  }

  predicate LowerKind(a: ScopeKind, b: ScopeKind) {
    Rank(a) < Rank(b)
  }

  lemma RisingKindsUnique(a: seq<ScopeKind>, b: seq<ScopeKind>)
    requires RanksRise(a) && RanksRise(b) && forall k :: k in a <==> k in b
    ensures a == b
  {
    assert StrictOrder(LowerKind) && StrictlyOrdered(a, LowerKind) && StrictlyOrdered(b, LowerKind);
    OrderedMembers(a, b, LowerKind);
  }

  lemma {:induction false} InOrderRises(names: seq<ScopeKind>, present: set<ScopeKind>)
    requires RanksRise(names)
    ensures RanksRise(InOrder(names, present))
    ensures forall k :: k in InOrder(names, present) <==> k in names && (k == BuiltIn || k in present)
  {
    if names != [] {
      InOrderRises(names[1..], present);
      assert names == [names[0]] + names[1..];
      forall k | k in InOrder(names[1..], present) ensures Rank(names[0]) < Rank(k) {
        var i :| 0 <= i < |names[1..]| && names[1..][i] == k;
      }
    }
  }

  lemma NamesRise()
    ensures RanksRise(Names()) && forall k: ScopeKind :: k in Names()
  {
    forall k: ScopeKind ensures k in Names() { assert Names()[Rank(k)] == k; }
  }

  lemma ContributesOnly(registry: Registry, key: string, values: seq<ScopedValue>, i: nat)
    requires ValidRegistry(registry) && Resolvable(registry, key, values) && i <= |values|
    ensures i < |Resolve(registry, key, values).value.contributions|
    ensures var kind := Resolve(registry, key, values).value.contributions[i].scope.kind;
      kind == BuiltIn || kind in KindSet(values)
  {
    var d := registry[key];
    ResolveContributions(registry, key, values);
    CompatibleIff(d, values);
    ContributionAt(d, Layers(d, values));
    LayerFrom(d, values, Layers(d, values)[i]);
  }

  lemma ContributesEach(registry: Registry, key: string, values: seq<ScopedValue>, v: ScopedValue)
    requires ValidRegistry(registry) && Resolvable(registry, key, values) && v in values
    ensures v.scope.kind in KindsOf(Resolve(registry, key, values).value.contributions)
  {
    var cs := Resolve(registry, key, values).value.contributions;
    ResolveContributions(registry, key, values);
    var c :| c in cs && c.scope == v.scope;
    var i :| 0 <= i < |cs| && cs[i] == c;
    assert KindsOf(cs)[i] == v.scope.kind;
  }

  lemma ContributesKind(registry: Registry, key: string, values: seq<ScopedValue>, k: ScopeKind)
    requires ValidRegistry(registry) && Resolvable(registry, key, values)
    ensures k in KindsOf(Resolve(registry, key, values).value.contributions) <==> k == BuiltIn || k in KindSet(values)
  {
    var kinds := KindsOf(Resolve(registry, key, values).value.contributions);
    ResolveContributions(registry, key, values);
    if k in kinds {
      var i :| 0 <= i < |kinds| && kinds[i] == k;
      ContributesOnly(registry, key, values, i);
    }
    if v :| v in values && v.scope.kind == k { ContributesEach(registry, key, values, v); }
    assert kinds[0] == BuiltIn;
  }

  lemma ContributionsRise(registry: Registry, key: string, values: seq<ScopedValue>)
    requires ValidRegistry(registry) && Resolvable(registry, key, values)
    ensures RanksRise(KindsOf(Resolve(registry, key, values).value.contributions))
  {
    ResolveContributions(registry, key, values);
  }

  /**
   * The scopes contribute in the order of their names: built-in, system, pack,
   * project, environment, template, override.
   */
  lemma ContributionsInOrder(registry: Registry, key: string, values: seq<ScopedValue>)
    requires ValidRegistry(registry) && Resolvable(registry, key, values)
    ensures KindsOf(Resolve(registry, key, values).value.contributions) == InOrder(Names(), KindSet(values))
  {
    var kinds := KindsOf(Resolve(registry, key, values).value.contributions);
    NamesRise();
    InOrderRises(Names(), KindSet(values));
    ContributionsRise(registry, key, values);
    forall k ensures k in kinds <==> k in InOrder(Names(), KindSet(values)) {
      ContributesKind(registry, key, values, k);
    }
    RisingKindsUnique(kinds, InOrder(Names(), KindSet(values)));
  }

  // ------------------------------------------------------- a list of scopes

  /** The kinds of the scopes in the list that store the key. */
  function StoredAt(store: Store, scopes: seq<ScopeRef>, key: string): set<ScopeKind> {
    set s | s in scopes && key in StateOf(store, s).values :: s.kind
  }

  lemma StackKinds(store: Store, scopes: seq<ScopeRef>, key: string)
    requires AllowedScopes(scopes)
    ensures KindSet(Stack(store, scopes, key)) == StoredAt(store, scopes, key)
  {
    forall v | v in Stack(store, scopes, key) ensures v.scope.kind in StoredAt(store, scopes, key) {
      StackValues(store, scopes, key, v);
    }
    forall s | s in scopes && key in StateOf(store, s).values ensures s.kind in KindSet(Stack(store, scopes, key)) {
      SortedScopes(scopes);
      LayeredMembers(store, SortBy(scopes, LowerScope), key, Scoped(key, s, StateOf(store, s).values[key]));
    }
  }

  lemma StackValues(store: Store, scopes: seq<ScopeRef>, key: string, v: ScopedValue)
    requires AllowedScopes(scopes) && v in Stack(store, scopes, key)
    ensures v.scope in scopes && key in StateOf(store, v.scope).values
    ensures v == Scoped(key, v.scope, StateOf(store, v.scope).values[key])
  {
    SortedScopes(scopes);
    LayeredMembers(store, SortBy(scopes, LowerScope), key, v);
  }

  /**
   * The effective value of every key of a list of scopes is the one stored by
   * its scope of the deciding kind, and the scopes that store it contribute in
   * the order of their names.
   */
  lemma EffectiveByPrecedence(registry: Registry, store: Store, scopes: seq<ScopeRef>, key: string)
    requires ValidRegistry(registry) && AllowedScopes(scopes) && key in registry
    requires Effective(registry, store, scopes).Success?
    ensures key in Effective(registry, store, scopes).value
    ensures var d, e := registry[key], Effective(registry, store, scopes).value[key];
      && e.source.kind == Deciding(StoredAt(store, scopes, key))
      && KindsOf(e.contributions) == InOrder(Names(), StoredAt(store, scopes, key))
      && (e.source.kind == BuiltIn ==> e.value == if d.secret then Absent else Relaid(d.fallback))
      && (e.source.kind != BuiltIn ==>
            && e.source in scopes && key in StateOf(store, e.source).values
            && e.value == if d.secret then Absent else Relaid(StateOf(store, e.source).values[key].value))
  {
    var stack := Stack(store, scopes, key);
    EffectiveResolves(registry, store, scopes, key);
    assert Resolvable(registry, key, stack);
    DecidingScopeWins(registry, key, stack);
    ContributionsInOrder(registry, key, stack);
    StackKinds(store, scopes, key);
    var e := Resolve(registry, key, stack).value;
    if e.source.kind != BuiltIn {
      var v :| v in stack && Supplies(registry[key], v, e);
      StackValues(store, scopes, key, v);
    }
  }
}
