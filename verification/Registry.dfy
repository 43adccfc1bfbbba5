/**
 * The descriptor registry: scopes and their ranks, resolution of one setting
 * over the scopes that configure it, and snapshots of every setting.
 */
module Registry {
  import opened Documents
  import opened Ordering
  import opened Texts

  datatype ScopeKind =
    | BuiltIn | System | Pack | Project | Environment | JobTemplate | JobOverride

  /** Position in the precedence list; a higher rank overrides a lower one. */
  function Rank(kind: ScopeKind): nat {
    match kind
    case BuiltIn => 0
    case System => 1
    case Pack => 2
    case Project => 3
    case Environment => 4
    case JobTemplate => 5
    case JobOverride => 6
  }

  lemma RankInjective(a: ScopeKind, b: ScopeKind)
    ensures Rank(a) == Rank(b) <==> a == b
  {
  }

  datatype ScopeRef = ScopeRef(kind: ScopeKind, id: string)

  const SYSTEM_SCOPE := ScopeRef(System, "")
  const BUILT_IN_SCOPE := ScopeRef(BuiltIn, "")

  predicate ValidScope(scope: ScopeRef) {
    if scope.kind.BuiltIn? || scope.kind.System? then scope.id == ""
    else !AllSpace(scope.id) && ByteLength(scope.id) <= 256
  }

  /**
   * A raw JSON message: absent, a text with the value it decodes to and a
   * layout (spacing, key order, escapes; layout 0 is what json.Marshal
   * writes), or bytes that do not decode to exactly one value.
   */
  datatype Raw = Absent | Text(value: Json, layout: nat) | Malformed(bytes: string)

  function Canonical(raw: Raw): Result<Raw> {
    if raw.Text? then Success(Text(raw.value, 0)) else Failure
  }

  datatype Operator = Equals | NotEquals | Contains | NotContains

  /** A dependency or an incompatibility on another setting. */
  datatype Relation = Relation(key: string, operator: Operator, value: Raw, whenValue: Raw)

  datatype ApplyMode = Live | NewJobs | ServiceReload | OperatorRestart

  datatype Descriptor = Descriptor(
    key: string,
    permitted: set<ScopeKind>,
    fallback: Raw,
    secret: bool,
    apply: ApplyMode,
    dependencies: seq<Relation>,
    incompatibilities: seq<Relation>,
    exportable: bool,
    importable: bool,
    bootstrapControlled: bool,
    validator: Json -> bool)

  type Registry = map<string, Descriptor>

  /** A value the descriptor's canonicalisation and trusted validator accept. */
  predicate Accepts(d: Descriptor, raw: Raw) {
    raw.Text? && d.validator(raw.value)
  }

  predicate ValidRelation(registry: Registry, d: Descriptor, relation: Relation) {
    && relation.key in registry && relation.key != d.key
    && !registry[relation.key].secret
    && (relation.whenValue.Absent? || Accepts(d, relation.whenValue))
    && (relation.operator.Equals? || relation.operator.NotEquals? ==>
          Accepts(registry[relation.key], relation.value))
  }

  /** What NewRegistry checks of the descriptors it accepts, as far as resolution depends on it. */
  predicate ValidRegistry(registry: Registry) {
    forall key :: key in registry ==>
      var d := registry[key];
      && d.key == key
      && BuiltIn in d.permitted
      && Accepts(d, d.fallback)
      && (d.secret ==> !d.exportable)
      && (d.bootstrapControlled ==> d.permitted == {BuiltIn})
      && (forall r :: r in d.dependencies + d.incompatibilities ==> ValidRelation(registry, d, r))
  }

  // -------------------------------------------------------------- resolution

  datatype ScopedValue = ScopedValue(
    key: string, scope: ScopeRef, value: Raw, configured: bool, secret: bool, revision: string, version: int)

  datatype Contribution = Contribution(
    scope: ScopeRef, value: Raw, configured: bool, revision: string, version: int,
    effective: bool, overridden: bool)

  datatype EffectiveValue = EffectiveValue(
    key: string, value: Raw, configured: bool, source: ScopeRef, revision: string,
    contributions: seq<Contribution>, apply: ApplyMode, secret: bool)

  /** A stored value the resolver takes into account rather than refuses. */
  predicate Admissible(d: Descriptor, v: ScopedValue) {
    && v.key == d.key
    && ValidScope(v.scope) && !v.scope.kind.BuiltIn? && v.scope.kind in d.permitted
    && v.version >= 1 && v.revision != ""
    && if d.secret then v.secret && v.value.Absent? && v.configured
       else !v.secret && Accepts(d, v.value)
  }

  /** The value with the layout json.Marshal gives it. */
  function Relaid(raw: Raw): Raw {
    if raw.Text? then Text(raw.value, 0) else raw
  }

  function Admitted(d: Descriptor, v: ScopedValue): ScopedValue {
    v.(configured := true, value := if d.secret then v.value else Relaid(v.value))
  }

  predicate DistinctKinds(values: seq<ScopedValue>) {
    forall i, j :: 0 <= i < j < |values| ==> values[i].scope.kind != values[j].scope.kind
  }

  /** The first n values are admissible and no two of them share a scope kind. */
  predicate CompatibleTo(d: Descriptor, values: seq<ScopedValue>, n: nat)
    requires n <= |values|
  {
    n == 0 ||
    (CompatibleTo(d, values, n - 1) && Admissible(d, values[n - 1])
     && values[n - 1].scope.kind !in KindsTo(values, n - 1))
  }

  function KindsTo(values: seq<ScopedValue>, n: nat): set<ScopeKind>
    requires n <= |values|
  {
    set i | 0 <= i < n :: values[i].scope.kind
  }

  predicate Compatible(d: Descriptor, values: seq<ScopedValue>) {
    CompatibleTo(d, values, |values|)
  }

  lemma {:induction false} CompatibleToIff(d: Descriptor, values: seq<ScopedValue>, n: nat)
    requires n <= |values|
    ensures CompatibleTo(d, values, n) <==>
      && (forall i :: 0 <= i < n ==> Admissible(d, values[i]))
      && (forall i, j :: 0 <= i < j < n ==> values[i].scope.kind != values[j].scope.kind)
  {
    if n > 0 {
      CompatibleToIff(d, values, n - 1);
    }
  }

  lemma CompatibleIff(d: Descriptor, values: seq<ScopedValue>)
    ensures Compatible(d, values) <==> (forall v :: v in values ==> Admissible(d, v)) && DistinctKinds(values)
  {
    CompatibleToIff(d, values, |values|);
  }

  lemma {:induction false} CompatibleStops(d: Descriptor, values: seq<ScopedValue>, n: nat)
    requires n < |values| && !CompatibleTo(d, values, n + 1)
    ensures !Compatible(d, values)
  {
    CompatibleToIff(d, values, n + 1);
    CompatibleToIff(d, values, |values|);
  }

  predicate Resolvable(registry: Registry, key: string, values: seq<ScopedValue>) {
    && key in registry && Accepts(registry[key], registry[key].fallback)
    && Compatible(registry[key], values)
  }

  function Default(d: Descriptor): ScopedValue
    requires Accepts(d, d.fallback)
  {
    ScopedValue(d.key, BUILT_IN_SCOPE, Text(d.fallback.value, 0), true, false, "registry-v1", 1)
  }

  function AdmitAll(d: Descriptor, values: seq<ScopedValue>): (all: seq<ScopedValue>)
    ensures |all| == |values|
    ensures forall i :: 0 <= i < |values| ==> all[i] == Admitted(d, values[i])
  {
    if values == [] then [] else [Admitted(d, values[0])] + AdmitAll(d, values[1..])
  }

  predicate LowerRank(a: ScopedValue, b: ScopedValue) {
    Rank(a.scope.kind) < Rank(b.scope.kind)
  }

  function Contribute(d: Descriptor, v: ScopedValue, last: bool): Contribution {
    Contribution(v.scope, if d.secret then Absent else v.value, v.configured, v.revision, v.version, last, !last)
  }

  function Contributions(d: Descriptor, ranked: seq<ScopedValue>): (cs: seq<Contribution>)
    ensures |cs| == |ranked|
  {
    if ranked == [] then []
    else [Contribute(d, ranked[0], |ranked| == 1)] + Contributions(d, ranked[1..])
  }

  function Compose(d: Descriptor, ranked: seq<ScopedValue>): EffectiveValue
    requires ranked != []
  {
    var winner := ranked[|ranked| - 1];
    EffectiveValue(d.key, if d.secret then Absent else winner.value, winner.configured, winner.scope, winner.revision,
      Contributions(d, ranked), d.apply, d.secret)
  }

  function Layers(d: Descriptor, values: seq<ScopedValue>): (ranked: seq<ScopedValue>)
    requires Accepts(d, d.fallback)
    ensures |ranked| == |values| + 1
  {
    var all := [Default(d)] + AdmitAll(d, values);
    SortPermutes(all, LowerRank);
    SortBy(all, LowerRank)
  }

  function Resolve(registry: Registry, key: string, values: seq<ScopedValue>): Result<EffectiveValue> {
    if !Resolvable(registry, key, values) then Failure
    else Success(Compose(registry[key], Layers(registry[key], values)))
  }

  /** The resolver as the program runs it, one stored value after the other. */
  method ResolveValue(registry: Registry, key: string, values: seq<ScopedValue>) returns (r: Result<EffectiveValue>)
    requires ValidRegistry(registry)
    ensures r == Resolve(registry, key, values)
  {
    if key !in registry {
      return Failure;
    }
    var d := registry[key];
    var admitted := AdmitEach(d, values);
    if admitted.Failure? {
      return Failure;
    }
    var effective := ComposeValue(d, SortBy([Default(d)] + admitted.value, LowerRank));
    r := Success(effective);
  }

  /** The scope kinds that a further value may not have. */
  function SeenTo(values: seq<ScopedValue>, i: nat): set<ScopeKind>
    requires i <= |values|
  {
    {BuiltIn} + KindsTo(values, i)
  }

  lemma SeenNext(values: seq<ScopedValue>, i: nat)
    requires i < |values|
    ensures SeenTo(values, i + 1) == SeenTo(values, i) + {values[i].scope.kind}
  {
  }

  lemma AdmitNext(d: Descriptor, values: seq<ScopedValue>, i: nat)
    requires i < |values| && CompatibleTo(d, values, i)
    ensures CompatibleTo(d, values, i + 1) <==> values[i].scope.kind !in SeenTo(values, i) && Admissible(d, values[i])
    ensures !CompatibleTo(d, values, i + 1) ==> !Compatible(d, values)
    ensures AdmitAll(d, values[..i + 1]) == AdmitAll(d, values[..i]) + [Admitted(d, values[i])]
  {
    assert values[..i + 1] == values[..i] + [values[i]];
    AdmitConcat(d, values[..i], [values[i]]);
    if !CompatibleTo(d, values, i + 1) { CompatibleStops(d, values, i); }
  }

  /** The loop over the stored values; a scope kind seen before is refused. */
  method AdmitEach(d: Descriptor, values: seq<ScopedValue>) returns (r: Result<seq<ScopedValue>>)
    ensures r == if Compatible(d, values) then Success(AdmitAll(d, values)) else Failure
  {
    var all := [];
    var seen := {BuiltIn};
    for i := 0 to |values|
      invariant CompatibleTo(d, values, i)
      invariant seen == SeenTo(values, i)
      invariant all == AdmitAll(d, values[..i])
    {
      AdmitNext(d, values, i);
      SeenNext(values, i);
      if values[i].scope.kind in seen {
        return Failure;
      }
      var admitted := AdmitValue(d, values[i]);
      if admitted.Failure? {
        return Failure;
      }
      seen := seen + {values[i].scope.kind};
      all := all + [admitted.value];
    }
    assert values[..|values|] == values;
    r := Success(all);
  }

  /** One stored value: refused, or as it enters the ranking. */
  method AdmitValue(d: Descriptor, candidate: ScopedValue) returns (r: Result<ScopedValue>)
    ensures r == if Admissible(d, candidate) then Success(Admitted(d, candidate)) else Failure
  {
    if candidate.key != d.key || !ValidScope(candidate.scope) || candidate.scope.kind.BuiltIn?
       || candidate.scope.kind !in d.permitted {
      return Failure;
    }
    if candidate.version < 1 || candidate.revision == "" {
      return Failure;
    }
    var admitted := candidate;
    if d.secret {
      if !candidate.secret || !candidate.value.Absent? || !candidate.configured {
        return Failure;
      }
    } else {
      if candidate.secret {
        return Failure;
      }
      if !Accepts(d, candidate.value) {
        return Failure;
      }
      admitted := admitted.(value := Text(candidate.value.value, 0));
    }
    r := Success(admitted.(configured := true));
  }

  method ComposeValue(d: Descriptor, ranked: seq<ScopedValue>) returns (r: EffectiveValue)
    requires ranked != []
    ensures r == Compose(d, ranked)
  {
    ContributionAt(d, ranked);
    var contributions := [];
    for i := 0 to |ranked|
      invariant |contributions| == i
      invariant forall k :: 0 <= k < i ==> contributions[k] == Contribute(d, ranked[k], k == |ranked| - 1)
    {
      contributions := contributions + [Contribute(d, ranked[i], i == |ranked| - 1)];
    }
    var winner := ranked[|ranked| - 1];
    r := EffectiveValue(d.key, if d.secret then Absent else winner.value, winner.configured, winner.scope,
      winner.revision, contributions, d.apply, d.secret);
  }

  // ------------------------------------------------- what resolution promises

  lemma LowerRankIsStrict()
    ensures StrictOrder(LowerRank)
  {
  }

  lemma AllComparable(d: Descriptor, values: seq<ScopedValue>)
    requires Accepts(d, d.fallback) && DistinctKinds(values)
    requires forall v :: v in values ==> Admissible(d, v)
    ensures Comparable([Default(d)] + AdmitAll(d, values), LowerRank)
  {
    var all := [Default(d)] + AdmitAll(d, values);
    forall i, j | 0 <= i < j < |all| ensures LowerRank(all[i], all[j]) || LowerRank(all[j], all[i]) {
      assert all[j] == Admitted(d, values[j - 1]) && values[j - 1] in values;
      RankInjective(all[i].scope.kind, all[j].scope.kind);
      if i > 0 { assert all[i] == Admitted(d, values[i - 1]); }
    }
  }

  lemma LayersOrdered(d: Descriptor, values: seq<ScopedValue>)
    requires Accepts(d, d.fallback) && DistinctKinds(values)
    requires forall v :: v in values ==> Admissible(d, v)
    ensures StrictlyOrdered(Layers(d, values), LowerRank)
    ensures multiset(Layers(d, values)) == multiset([Default(d)] + AdmitAll(d, values))
    ensures Layers(d, values)[0] == Default(d)
  {
    var all := [Default(d)] + AdmitAll(d, values);
    LowerRankIsStrict();
    AllComparable(d, values);
    SortOrders(all, LowerRank);
    SortPermutes(all, LowerRank);
    var ranked := Layers(d, values);
    SameElements(ranked, all);
    assert all[0] in ranked;
    assert forall k :: 0 < k < |ranked| ==> LowerRank(ranked[0], ranked[k]);
  }

  lemma {:induction false} AdmitConcat(d: Descriptor, a: seq<ScopedValue>, b: seq<ScopedValue>)
    ensures AdmitAll(d, a + b) == AdmitAll(d, a) + AdmitAll(d, b)
  {
  }

  lemma {:induction false} AdmitPermuted(d: Descriptor, a: seq<ScopedValue>, b: seq<ScopedValue>)
    requires multiset(a) == multiset(b)
    ensures multiset(AdmitAll(d, a)) == multiset(AdmitAll(d, b))
  {
    SameElements(a, b);
    if a != [] {
      var i := IndexOf(b, a[0]);
      RestPermuted(a, b, i);
      AdmitPermuted(d, a[1..], b[..i] + b[i + 1..]);
      WithoutFirst(a);
      AdmitSplit(d, a, 0, a[1..]);
      AdmitSplit(d, b, i, b[..i] + b[i + 1..]);
    }
  }

  lemma WithoutFirst<T>(a: seq<T>)
    requires a != []
    ensures a[1..] == a[..0] + a[1..]
  {
  }

  lemma SplitAt<T>(a: seq<T>, i: nat)
    requires i < |a|
    ensures a == a[..i] + ([a[i]] + a[i + 1..])
  {
  }

  lemma AdmitSplit(d: Descriptor, a: seq<ScopedValue>, i: nat, rest: seq<ScopedValue>)
    requires i < |a| && rest == a[..i] + a[i + 1..]
    ensures multiset(AdmitAll(d, a)) == multiset(AdmitAll(d, rest)) + multiset{Admitted(d, a[i])}
  {
    SplitAt(a, i);
    AdmitAround(d, a[..i], a[i], a[i + 1..]);
  }

  lemma RestPermuted<T>(a: seq<T>, b: seq<T>, i: nat)
    requires multiset(a) == multiset(b) && a != [] && i < |b| && b[i] == a[0]
    ensures multiset(a[1..]) == multiset(b[..i] + b[i + 1..])
  {
    Without(a, 0);
    Without(b, i);
    assert a[..0] + a[1..] == a[1..];
  }

  lemma Without<T>(a: seq<T>, i: nat)
    requires i < |a|
    ensures multiset(a[..i] + a[i + 1..]) == multiset(a) - multiset{a[i]}
  {
    SplitAt(a, i);
    assert multiset(a) == multiset(a[..i]) + (multiset{a[i]} + multiset(a[i + 1..]));
  }

  lemma AdmitAround(d: Descriptor, before: seq<ScopedValue>, v: ScopedValue, later: seq<ScopedValue>)
    ensures multiset(AdmitAll(d, before + ([v] + later))) ==
            multiset(AdmitAll(d, before + later)) + multiset{Admitted(d, v)}
  {
    AdmitConcat(d, before, [v] + later);
    AdmitConcat(d, [v], later);
    AdmitConcat(d, before, later);
    assert AdmitAll(d, [v]) == [Admitted(d, v)];
  }

  lemma IndexOf<T>(s: seq<T>, x: T) returns (i: nat)
    requires x in s
    ensures i < |s| && s[i] == x
  {
    i :| 0 <= i < |s| && s[i] == x;
  }

  lemma DistinctPermuted(a: seq<ScopedValue>, b: seq<ScopedValue>)
    requires multiset(a) == multiset(b) && DistinctKinds(a)
    ensures DistinctKinds(b)
  {
    LowerRankIsStrict();
    forall i, j | 0 <= i < j < |a| ensures LowerRank(a[i], a[j]) || LowerRank(a[j], a[i]) {
      RankInjective(a[i].scope.kind, a[j].scope.kind);
    }
    ArrangementComparable(a, b, LowerRank);
    forall i, j | 0 <= i < j < |b| ensures b[i].scope.kind != b[j].scope.kind {
      assert LowerRank(b[i], b[j]) || LowerRank(b[j], b[i]);
    }
  }

  /** The order in which the stored values arrive does not matter, nor whether they are refused. */
  lemma ResolveIgnoresOrder(registry: Registry, key: string, a: seq<ScopedValue>, b: seq<ScopedValue>)
    requires ValidRegistry(registry) && multiset(a) == multiset(b)
    ensures Resolve(registry, key, a) == Resolve(registry, key, b)
  {
    SameElements(a, b);
    if key in registry {
      CompatibleIff(registry[key], a);
      CompatibleIff(registry[key], b);
    }
    if DistinctKinds(a) { DistinctPermuted(a, b); }
    if DistinctKinds(b) { DistinctPermuted(b, a); }
    if Resolvable(registry, key, a) {
      var d := registry[key];
      AdmitPermuted(d, a, b);
      LayersOrdered(d, a);
      LayersOrdered(d, b);
      LowerRankIsStrict();
      OrderUnique(Layers(d, a), Layers(d, b), LowerRank);
    }
  }

  lemma {:induction false} ContributionAt(d: Descriptor, ranked: seq<ScopedValue>)
    ensures forall i :: 0 <= i < |ranked| ==>
      Contributions(d, ranked)[i] == Contribute(d, ranked[i], i == |ranked| - 1)
  {
    if ranked != [] {
      ContributionAt(d, ranked[1..]);
    }
  }

  lemma LayerOf(d: Descriptor, values: seq<ScopedValue>, i: nat) returns (k: nat)
    requires Accepts(d, d.fallback) && DistinctKinds(values) && i < |values|
    requires forall v :: v in values ==> Admissible(d, v)
    ensures k < |Layers(d, values)| && Layers(d, values)[k] == Admitted(d, values[i])
  {
    var all := [Default(d)] + AdmitAll(d, values);
    LayersOrdered(d, values);
    SameElements(Layers(d, values), all);
    assert all[i + 1] in Layers(d, values);
    k :| 0 <= k < |Layers(d, values)| && Layers(d, values)[k] == all[i + 1];
  }

  /** The built-in default and every stored value contribute, in rising rank; exactly the last is effective. */
  lemma ResolveContributions(registry: Registry, key: string, values: seq<ScopedValue>)
    requires ValidRegistry(registry) && Resolvable(registry, key, values)
    ensures Resolve(registry, key, values).Success?
    ensures var cs := Resolve(registry, key, values).value.contributions;
      && |cs| == |values| + 1 && cs[0].scope == BUILT_IN_SCOPE
      && (forall i, j :: 0 <= i < j < |cs| ==> Rank(cs[i].scope.kind) < Rank(cs[j].scope.kind))
      && (forall i :: 0 <= i < |cs| ==> (cs[i].effective <==> i == |values|) && cs[i].overridden == !cs[i].effective)
    ensures var cs := Resolve(registry, key, values).value.contributions;
      forall v :: v in values ==> exists c :: c in cs && c.scope == v.scope && c.revision == v.revision
  {
    var d := registry[key];
    var ranked, cs := Layers(d, values), Resolve(registry, key, values).value.contributions;
    CompatibleIff(d, values);
    LayersOrdered(d, values);
    ContributionAt(d, ranked);
    forall i, j | 0 <= i < j < |cs| ensures Rank(cs[i].scope.kind) < Rank(cs[j].scope.kind) {
      assert LowerRank(ranked[i], ranked[j]);
    }
    forall v | v in values ensures exists c :: c in cs && c.scope == v.scope && c.revision == v.revision {
      var i := IndexOf(values, v);
      var k := LayerOf(d, values, i);
      assert cs[k] in cs;
    }
  }

  /** The result is the value of the highest-ranked contributing scope; a secret's value never shows. */
  lemma ResolvePicksHighest(registry: Registry, key: string, values: seq<ScopedValue>, v: ScopedValue)
    requires ValidRegistry(registry) && Resolvable(registry, key, values)
    requires v in values && forall w :: w in values ==> Rank(w.scope.kind) <= Rank(v.scope.kind)
    ensures Resolve(registry, key, values).Success?
    ensures var r := Resolve(registry, key, values).value;
      && r.source == v.scope && r.revision == v.revision && r.configured
      && r.value == (if registry[key].secret then Absent else Relaid(v.value))
  {
    var d := registry[key];
    assert Layers(d, values)[|values|] == Admitted(d, v) by {
      CompatibleIff(d, values);
      LastLayer(d, values, v);
    }
  }

  lemma LastLayer(d: Descriptor, values: seq<ScopedValue>, v: ScopedValue)
    requires Accepts(d, d.fallback) && DistinctKinds(values) && v in values
    requires forall w :: w in values ==> Admissible(d, w) && Rank(w.scope.kind) <= Rank(v.scope.kind)
    ensures Layers(d, values)[|values|] == Admitted(d, v)
  {
    var i := IndexOf(values, v);
    var k := LayerOf(d, values, i);
    LayersOrdered(d, values);
    LayerFrom(d, values, Layers(d, values)[|values|]);
    LastIsHighest(Layers(d, values), k, |values|);
  }

  lemma LastIsHighest(ranked: seq<ScopedValue>, k: nat, n: nat)
    requires k < |ranked| && |ranked| == n + 1 && StrictlyOrdered(ranked, LowerRank)
    ensures k == n || LowerRank(ranked[k], ranked[n])
  {
  }

  /** A layer is the default or one of the values as admitted. */
  lemma LayerFrom(d: Descriptor, values: seq<ScopedValue>, layer: ScopedValue)
    requires Accepts(d, d.fallback) && DistinctKinds(values) && layer in Layers(d, values)
    requires forall w :: w in values ==> Admissible(d, w)
    ensures layer == Default(d) || exists w :: w in values && layer == Admitted(d, w)
  {
    var all := [Default(d)] + AdmitAll(d, values);
    LayersOrdered(d, values);
    SameElements(Layers(d, values), all);
    var m := IndexOf(all, layer);
    if m > 0 { assert values[m - 1] in values && layer == Admitted(d, values[m - 1]); }
  }

  /** Stored values that already arrive in rising rank are layered as they are. */
  lemma RisingLayers(d: Descriptor, values: seq<ScopedValue>)
    requires Accepts(d, d.fallback)
    requires forall v :: v in values ==> Admissible(d, v)
    requires StrictlyOrdered(values, LowerRank)
    ensures DistinctKinds(values)
    ensures Layers(d, values) == [Default(d)] + AdmitAll(d, values)
  {
    LowerRankIsStrict();
    forall i, j | 0 <= i < j < |values| ensures values[i].scope.kind != values[j].scope.kind {
      assert LowerRank(values[i], values[j]);
    }
    AdmittedRise(d, values, AdmitAll(d, values));
    SortReaches([Default(d)] + AdmitAll(d, values), [Default(d)] + AdmitAll(d, values), LowerRank);
  }

  lemma AdmittedRise(d: Descriptor, values: seq<ScopedValue>, admitted: seq<ScopedValue>)
    requires Accepts(d, d.fallback) && StrictlyOrdered(values, LowerRank)
    requires forall v :: v in values ==> Admissible(d, v)
    requires |admitted| == |values| && forall i :: 0 <= i < |values| ==> admitted[i] == Admitted(d, values[i])
    ensures StrictlyOrdered([Default(d)] + admitted, LowerRank)
  {
    forall i | 0 <= i < |values| ensures LowerRank(Default(d), admitted[i]) { assert values[i] in values; }
    forall i, j | 0 <= i < j < |values| ensures LowerRank(admitted[i], admitted[j]) {
      assert LowerRank(values[i], values[j]);
    }
  }
}
