/**
 * Which stored values a setting resolves from, and what the result shows of
 * each of them, said of the values themselves.
 */
module RegistryRules {
  import opened Texts
  import opened Registry

  /** The scope's identity: none for the system, something to read in at most 256 bytes for the others. */
  predicate Identified(scope: ScopeRef) {
    if scope.kind == System then scope.id == ""
    else (exists i :: 0 <= i < |scope.id| && !IsSpace(scope.id[i])) && ByteLength(scope.id) < 257
  }

  /** The value is a document that the descriptor's validator takes. */
  predicate Validates(d: Descriptor, raw: Raw) {
    match raw
    case Text(value, _) => d.validator(value)
    case _ => false
  }

  /** A secret is stored as the fact that it is configured, anything else as a document. */
  predicate StoredRightly(d: Descriptor, v: ScopedValue) {
    if d.secret then v.secret && v.configured && v.value == Absent else !v.secret && Validates(d, v.value)
  }

  /** The stored value may be resolved from. */
  predicate Usable(d: Descriptor, v: ScopedValue) {
    && v.key == d.key && v.version > 0 && |v.revision| > 0
    && v.scope.kind in d.permitted && v.scope.kind != BuiltIn && Identified(v.scope)
    && StoredRightly(d, v)
  }

  lemma UsableIff(d: Descriptor, v: ScopedValue)
    ensures Usable(d, v) <==> Admissible(d, v)
  {
    assert AllSpace(v.scope.id) <==> forall i :: 0 <= i < |v.scope.id| ==> IsSpace(v.scope.id[i]);
  }

  /**
   * A setting resolves exactly when it is registered with a default it takes,
   * and is stored by at most one scope of each kind, always in a usable way.
   */
  lemma ResolvesIff(registry: Registry, key: string, values: seq<ScopedValue>)
    ensures Resolve(registry, key, values).Success? <==>
      && key in registry && Validates(registry[key], registry[key].fallback)
      && (forall i :: 0 <= i < |values| ==> Usable(registry[key], values[i]))
      && (forall i, j :: 0 <= i < j < |values| ==> values[i].scope.kind != values[j].scope.kind)
  {
    if key in registry {
      CompatibleToIff(registry[key], values, |values|);
      forall i | 0 <= i < |values| ensures Usable(registry[key], values[i]) <==> Admissible(registry[key], values[i]) {
        UsableIff(registry[key], values[i]);
      }
    }
  }

  /** The document in its plain layout, or nothing for a secret. */
  function Plainly(d: Descriptor, raw: Raw): Raw {
    if d.secret then Absent
    else
      match raw
      case Text(value, _) => Text(value, 0)
      case _ => raw
  }

  /** The contribution shows the stored value, except what is secret, and whether it is the effective one. */
  predicate Tells(d: Descriptor, c: Contribution, v: ScopedValue, effective: bool) {
    && c.scope == v.scope && c.revision == v.revision && c.version == v.version && c.configured
    && c.value == Plainly(d, v.value)
    && (c.effective <==> effective) && (c.overridden <==> !effective)
  }

  /** The built-in default as it contributes. */
  function BuiltInValue(d: Descriptor): ScopedValue {
    ScopedValue(d.key, ScopeRef(BuiltIn, ""), d.fallback, true, false, "registry-v1", 1)
  }

  predicate HasContribution(e: EffectiveValue, d: Descriptor, v: ScopedValue) {
    exists i :: 0 <= i < |e.contributions| && Tells(d, e.contributions[i], v, v.scope == e.source)
  }

  lemma LayerTells(d: Descriptor, layer: ScopedValue, v: ScopedValue, last: bool)
    requires (v.value.Text? && layer == Admitted(d, v)) ||
             (d.secret && layer.value == Absent && layer == Admitted(d, v))
             || (Accepts(d, d.fallback) && layer == Default(d) && v == BuiltInValue(d))
    ensures Tells(d, Contribute(d, layer, last), v, last)
  {
  }

  /** The scopes of the layers differ, so that the effective one is told by its scope. */
  lemma LastByScope(d: Descriptor, values: seq<ScopedValue>, i: nat)
    requires Accepts(d, d.fallback) && Compatible(d, values) && i <= |values|
    ensures i == |values| <==> Layers(d, values)[i].scope == Layers(d, values)[|values|].scope
  {
    CompatibleIff(d, values);
    LayersOrdered(d, values);
    var ranked := Layers(d, values);
    assert i < |values| ==> LowerRank(ranked[i], ranked[|values|]);
  }

  lemma ContributionTells(registry: Registry, key: string, values: seq<ScopedValue>, i: nat, v: ScopedValue)
    requires ValidRegistry(registry) && Resolvable(registry, key, values) && i <= |values|
    requires var layer := Layers(registry[key], values)[i];
      (v in values && layer == Admitted(registry[key], v)) ||
      (layer == Default(registry[key]) && v == BuiltInValue(registry[key]))
    ensures HasContribution(Resolve(registry, key, values).value, registry[key], v)
  {
    var d, e := registry[key], Resolve(registry, key, values).value;
    CompatibleIff(d, values);
    ContributionAt(d, Layers(d, values));
    LastByScope(d, values, i);
    LayerTells(d, Layers(d, values)[i], v, i == |values|);
    assert Tells(d, e.contributions[i], v, v.scope == e.source);
  }

  /**
   * The result names the setting and the mode it applies in, hides a secret and
   * says it is configured, and shows the default and each stored value once, the
   * effective one marked.
   */
  lemma ResultShows(registry: Registry, key: string, values: seq<ScopedValue>)
    requires ValidRegistry(registry) && Resolve(registry, key, values).Success?
    ensures var d, e := registry[key], Resolve(registry, key, values).value;
      && e.key == key && e.apply == d.apply && e.secret == d.secret && e.configured
      && |e.contributions| == |values| + 1
      && HasContribution(e, d, BuiltInValue(d)) && forall v :: v in values ==> HasContribution(e, d, v)
  {
    var d, e := registry[key], Resolve(registry, key, values).value;
    CompatibleIff(d, values);
    LayersOrdered(d, values);
    ContributionTells(registry, key, values, 0, BuiltInValue(d));
    forall v | v in values ensures HasContribution(e, d, v) {
      var i := IndexOf(values, v);
      var k := LayerOf(d, values, i);
      ContributionTells(registry, key, values, k, v);
    }
    LayerFrom(d, values, Layers(d, values)[|values|]);
  }
}
