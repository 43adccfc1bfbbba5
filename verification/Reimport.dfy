/**
 * Importing a scope's own export into the unchanged scope: it passes the
 * contextual check as well, and predicts the configuration there is.
 */
module Reimport {
  import opened Registry
  import opened EffectiveConfig
  import opened Drafts
  import opened RegistryService
  import ExportImport

  lemma NormalIsAccepted(registry: Registry, scope: ScopeRef, entry: DraftEntry)
    requires Normal(registry, scope, entry)
    ensures Judge(registry, scope, entry) == Accepted(entry)
  {
  }

  /** Validating what validation returned accepts it and returns it unchanged. */
  lemma ValidationIsIdempotent(registry: Registry, scope: ScopeRef, entries: seq<DraftEntry>)
    requires Validate(registry, scope, entries).valid
    ensures var normalized := Validate(registry, scope, entries).normalized;
      var again := Validate(registry, scope, normalized);
      again.valid && again.normalized == normalized
  {
    var normalized := Validate(registry, scope, entries).normalized;
    ValidatedIsNormal(registry, scope, entries);
    forall i | 0 <= i < |normalized| ensures Judge(registry, scope, normalized[i]) == Accepted(normalized[i]) {
      NormalIsAccepted(registry, scope, normalized[i]);
    }
    ReviewValidIff(registry, scope, normalized);
  }

  /** A stored value that is no secret is the effective one of its scope's own chain. */
  lemma OwnIsEffective(registry: Registry, store: Store, scope: ScopeRef, key: string)
    requires ValidScope(scope) && !scope.kind.BuiltIn? && key in registry && !registry[key].secret
    requires Effective(registry, store, Chain(scope)).Success? && key in StateOf(store, scope).values
    ensures key in Effective(registry, store, Chain(scope)).value
    ensures Effective(registry, store, Chain(scope)).value[key].value == Relaid(StateOf(store, scope).values[key].value)
  {
    KeyBeforeDraft(registry, store, scope, key);
    ChainShape(store, scope, key);
    var values := Underneath(store, scope, key) + Own(store, scope, key);
    assert Resolvable(registry, key, values);
    ResolveRising(registry, key, values);
    assert values[|values| - 1] == Own(store, scope, key)[0];
  }

  /** The entry predicts the value the configuration has. */
  predicate Confirms(configuration: Configuration, scope: ScopeRef, entry: DraftEntry) {
    entry.key in configuration && Expected(configuration, scope, entry) == configuration[entry.key].value
  }

  lemma {:induction false} NothingNew(configuration: Configuration, scope: ScopeRef, entries: seq<DraftEntry>)
    requires forall e :: e in entries ==> Confirms(configuration, scope, e)
    ensures Prospective(configuration, scope, entries) == ValuesOf(configuration)
  {
    if entries != [] {
      var n := |entries| - 1;
      assert Confirms(configuration, scope, entries[n]);
      NothingNew(configuration, scope, entries[..n]);
    }
  }

  lemma OwnEntriesConfirm(registry: Registry, store: Store, scope: ScopeRef, entries: seq<DraftEntry>)
    requires ValidScope(scope) && !scope.kind.BuiltIn? && Effective(registry, store, Chain(scope)).Success?
    requires forall e :: e in entries ==> ExportImport.IsOwn(registry, StateOf(store, scope).values, e)
    ensures forall e :: e in entries ==> Confirms(Effective(registry, store, Chain(scope)).value, scope, e)
  {
    forall e | e in entries ensures Confirms(Effective(registry, store, Chain(scope)).value, scope, e) {
      assert ExportImport.IsOwn(registry, StateOf(store, scope).values, e);
      OwnIsEffective(registry, store, scope, e.key);
    }
  }

  lemma ConfirmedIsConsistent(
    registry: Registry, configuration: Configuration, scope: ScopeRef, entries: seq<DraftEntry>)
    requires Consistent(registry, ValuesOf(configuration))
    requires forall e :: e in entries ==> Confirms(configuration, scope, e)
    ensures ContextIssues(registry, Prospective(configuration, scope, entries), Keys(entries)) == []
  {
    NothingNew(configuration, scope, entries);
    CheckDecides(registry, configuration, scope, entries);
  }

  /**
   * A preview that takes a scope's own values passes the contextual check of the
   * unchanged scope when its chain is consistent, with the same entries and the
   * configuration there is as the prediction.
   */
  lemma ReimportIsAccepted(registry: Registry, store: Store, scope: ScopeRef)
    requires ValidRegistry(registry) && ChainConsistent(registry, store, scope)
    requires ExportImport.Held(registry, scope, StateOf(store, scope).values)
    requires Validate(registry, scope, ExportImport.Own(registry, StateOf(store, scope).values)).valid
    ensures var own := ExportImport.Own(registry, StateOf(store, scope).values);
      var entries := Validate(registry, scope, own).normalized;
      var configuration := Effective(registry, store, Chain(scope)).value;
      var report := ContextReport(registry, configuration, scope, entries);
      && report.valid && report.normalized == entries
      && Prospective(configuration, scope, entries) == ValuesOf(configuration)
  {
    var own := ExportImport.Own(registry, StateOf(store, scope).values);
    var entries := Validate(registry, scope, own).normalized;
    var configuration := Effective(registry, store, Chain(scope)).value;
    ValidatedIsNormal(registry, scope, own);
    ValidationIsIdempotent(registry, scope, own);
    ExportImport.NormalizedOwn(registry, scope, StateOf(store, scope).values);
    OwnEntriesConfirm(registry, store, scope, entries);
    NothingNew(configuration, scope, entries);
    ConfirmedIsConsistent(registry, configuration, scope, entries);
  }
}
