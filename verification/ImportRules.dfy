/**
 * What an export holds and what the preview of any document reports, takes in
 * and preserves, said of the stored and the imported values themselves.
 */
module ImportRules {
  import opened Documents
  import opened Ordering
  import opened Texts
  import opened Registry
  import opened RegistryRules
  import opened EffectiveConfig
  import opened Drafts
  import opened ExportImport

  // ------------------------------------------------------------------- export

  /** The stored value as it travels: a secret as the fact that it is configured, any other as it is. */
  predicate Travels(d: Descriptor, stored: StoredValue, iv: ImportValue) {
    && iv.configured == stored.configured
    && if d.secret then iv.value == Absent && iv.secret && iv.redacted
       else d.exportable && iv.value == stored.value && !iv.secret && !iv.redacted
  }

  /** The values are every secret and every exportable value of the scope, as they travel. */
  ghost predicate HoldsWhatTravels(registry: Registry, stored: map<string, StoredValue>, values: seq<ImportValue>) {
    forall iv :: iv in values <==>
      iv.key in stored && iv.key in registry && Travels(registry[iv.key], stored[iv.key], iv)
  }

  predicate KeysInOrder(values: seq<ImportValue>) {
    forall i, j :: 0 <= i < j < |values| ==> ComesBefore(values[i].key, values[j].key)
  }

  lemma ExportedTravel(registry: Registry, stored: map<string, StoredValue>)
    requires forall key :: key in stored ==> key in registry
    ensures HoldsWhatTravels(registry, stored, Exported(registry, stored, Sorted(stored.Keys), |stored.Keys|))
  {
    var keys := Sorted(stored.Keys);
    assert keys[..|keys|] == keys;
    forall iv ensures iv in Exported(registry, stored, keys, |keys|) <==>
      iv.key in stored && iv.key in registry && Travels(registry[iv.key], stored[iv.key], iv)
    {
      ExportedMembers(registry, stored, keys, |keys|, iv);
    }
  }

  lemma ExportedInOrder(registry: Registry, stored: map<string, StoredValue>)
    requires forall key :: key in stored ==> key in registry
    ensures KeysInOrder(Exported(registry, stored, Sorted(stored.Keys), |stored.Keys|))
  {
    var values := Exported(registry, stored, Sorted(stored.Keys), |stored.Keys|);
    SortedAscending(stored.Keys);
    ExportedOrder(registry, stored, Sorted(stored.Keys), |stored.Keys|);
    forall i, j | 0 <= i < j < |values| ensures ComesBefore(values[i].key, values[j].key) {
      assert LowerKey(values[i], values[j]);
      BelowIff(values[i].key, values[j].key);
    }
  }

  /**
   * An export states its schema, registry, scope and version, and holds every
   * secret and every exportable value of the scope, in the order of their keys.
   */
  lemma ExportHolds(registry: Registry, hashing: Hashing, state: ScopeState, scope: ScopeRef, document: Declarative)
    requires Export(registry, hashing, state, scope) == Success(document)
    ensures document.schemaVersion == 1 && document.registryHash == hashing.registryHash
    ensures document.scope == scope && document.scopeVersion == state.version
    ensures document.documentHash == hashing.digest(document.(documentHash := ""))
    ensures HoldsWhatTravels(registry, state.values, document.values) && KeysInOrder(document.values)
  {
    ExportedTravel(registry, state.values);
    ExportedInOrder(registry, state.values);
  }

  /** A scope is exported exactly when its keys are registered and what travels can be encoded. */
  lemma ExportsIff(registry: Registry, hashing: Hashing, state: ScopeState, scope: ScopeRef)
    ensures Export(registry, hashing, state, scope).Success? <==>
      && (forall key :: key in state.values ==> key in registry)
      && forall key :: key in state.values && key in registry && !registry[key].secret && registry[key].exportable ==>
           !state.values[key].value.Malformed?
  {
    if forall key :: key in state.values ==> key in registry {
      var keys := Sorted(state.values.Keys);
      var values := Unhashed(registry, hashing, state, scope).values;
      assert keys[..|keys|] == keys;
      forall iv ensures iv in values <==>
        iv.key in state.values && Exports(registry[iv.key]) &&
        iv == ExportValue(registry[iv.key], iv.key, state.values[iv.key])
      {
        ExportedMembers(registry, state.values, keys, |keys|, iv);
      }
      MalformedTravels(registry, state.values, values);
    }
  }

  lemma MalformedTravels(registry: Registry, stored: map<string, StoredValue>, values: seq<ImportValue>)
    requires forall key :: key in stored ==> key in registry
    requires forall iv :: iv in values <==>
      iv.key in stored && Exports(registry[iv.key]) && iv == ExportValue(registry[iv.key], iv.key, stored[iv.key])
    ensures (exists i :: 0 <= i < |values| && values[i].value.Malformed?) <==>
      exists key :: key in stored && !registry[key].secret && registry[key].exportable && stored[key].value.Malformed?
  {
    if i :| 0 <= i < |values| && values[i].value.Malformed? { assert values[i] in values; }
    if key :| key in stored && !registry[key].secret && registry[key].exportable && stored[key].value.Malformed? {
      assert ExportValue(registry[key], key, stored[key]) in values;
    }
  }

  // ----------------------------------------------------------------- scanning

  /** No earlier value has the key. */
  predicate First(values: seq<ImportValue>, i: nat)
    requires i < |values|
  {
    forall j :: 0 <= j < i ==> values[j].key != values[i].key
  }

  /** An unregistered value that a forward-compatible import keeps: a document, or a redacted secret. */
  predicate Keeps(registry: Registry, mode: Mode, v: ImportValue) {
    && v.key !in registry && mode == ForwardCompatible
    && (v.value.Text? || (v.secret && v.redacted && v.value == Absent))
  }

  predicate Withheld(registry: Registry, v: ImportValue) {
    v.key in registry && (registry[v.key].secret || v.secret || v.redacted)
  }

  /** A registered value that is no secret, and importable. */
  predicate Imports(registry: Registry, v: ImportValue) {
    v.key in registry && !Withheld(registry, v) && registry[v.key].importable
  }

  /** What is reported of a value whose key is new. */
  predicate Told(registry: Registry, mode: Mode, v: ImportValue, code: ImportCode) {
    match code
    case UnknownPreserved => Keeps(registry, mode, v)
    case UnknownKey => v.key !in registry && !Keeps(registry, mode, v)
    case SecretNotImported => Withheld(registry, v)
    case NotImportable => v.key in registry && !Withheld(registry, v) && !registry[v.key].importable
    case _ => false
  }

  predicate ToldAt(registry: Registry, mode: Mode, values: seq<ImportValue>, i: nat, issue: ImportIssue)
    requires i < |values|
  {
    && issue.key == values[i].key
    && if First(values, i) then Told(registry, mode, values[i], issue.code) else issue.code == RepeatedKey
  }

  function EntryFor(v: ImportValue): DraftEntry {
    DraftEntry(v.key, v.value, false, false, v.configured)
  }

  lemma ConsiderSays(registry: Registry, mode: Mode, v: ImportValue)
    ensures Consider(registry, mode, v) == Taken(EntryFor(v)) <==> Imports(registry, v)
    ensures Consider(registry, mode, v).Taken? ==> Consider(registry, mode, v) == Taken(EntryFor(v))
    ensures Consider(registry, mode, v) == Preserved <==> Keeps(registry, mode, v)
    ensures forall code :: Told(registry, mode, v, code) <==>
      Consider(registry, mode, v) == Ignored(code) || (Keeps(registry, mode, v) && code == UnknownPreserved)
  {
  }

  lemma StepReports(registry: Registry, mode: Mode, values: seq<ImportValue>, n: nat, issue: ImportIssue)
    requires 0 < n <= |values|
    ensures issue in Scan(registry, mode, values, n).issues <==>
            issue in Scan(registry, mode, values, n - 1).issues || ToldAt(registry, mode, values, n - 1, issue)
  {
    var v := values[n - 1];
    assert First(values, n - 1) <==> !Met(values, n - 1, v.key);
    ConsiderSays(registry, mode, v);
    if First(values, n - 1) && Consider(registry, mode, v).Ignored? {
      assert issue == ImportIssue(v.key, Consider(registry, mode, v).code) <==>
             issue.key == v.key && Told(registry, mode, v, issue.code);
    }
  }

  /** The issues that the loop over the values reports, value by value. */
  lemma {:induction false} ScanIssueIff(
    registry: Registry, mode: Mode, values: seq<ImportValue>, n: nat, issue: ImportIssue)
    requires n <= |values|
    ensures issue in Scan(registry, mode, values, n).issues <==>
            exists i :: 0 <= i < n && ToldAt(registry, mode, values, i, issue)
  {
    if n > 0 {
      ScanIssueIff(registry, mode, values, n - 1, issue);
      StepReports(registry, mode, values, n, issue);
    }
  }

  lemma {:induction false} ScanEntryIff(
    registry: Registry, mode: Mode, values: seq<ImportValue>, n: nat, entry: DraftEntry)
    requires n <= |values|
    ensures entry in Scan(registry, mode, values, n).entries <==>
            exists i :: 0 <= i < n && First(values, i) && Imports(registry, values[i]) && entry == EntryFor(values[i])
  {
    if n > 0 {
      ScanEntryIff(registry, mode, values, n - 1, entry);
      ConsiderSays(registry, mode, values[n - 1]);
      assert First(values, n - 1) <==> !Met(values, n - 1, values[n - 1].key);
    }
  }

  lemma StepPreserves(registry: Registry, mode: Mode, values: seq<ImportValue>, n: nat, v: ImportValue)
    requires 0 < n <= |values|
    ensures v in Scan(registry, mode, values, n).preserved <==>
            || v in Scan(registry, mode, values, n - 1).preserved
            || (First(values, n - 1) && Keeps(registry, mode, values[n - 1]) && v == values[n - 1])
  {
    ConsiderSays(registry, mode, values[n - 1]);
    assert First(values, n - 1) <==> !Met(values, n - 1, values[n - 1].key);
  }

  lemma {:induction false} ScanPreservedIff(
    registry: Registry, mode: Mode, values: seq<ImportValue>, n: nat, v: ImportValue)
    requires n <= |values|
    ensures v in Scan(registry, mode, values, n).preserved <==>
            exists i :: 0 <= i < n && First(values, i) && Keeps(registry, mode, values[i]) && v == values[i]
  {
    if n > 0 {
      ScanPreservedIff(registry, mode, values, n - 1, v);
      StepPreserves(registry, mode, values, n, v);
    }
  }

  // ------------------------------------------------------------------ preview

  /** What is wrong with the document as a whole. */
  predicate HeaderSays(hashing: Hashing, document: Declarative, mode: Mode, target: ScopeRef, code: ImportCode) {
    match code
    case InvalidImportMode => mode != Strict && mode != ForwardCompatible
    case InvalidTarget => target.kind == BuiltIn || !Identified(target)
    case UnsupportedSchema => document.schemaVersion != 1
    case ScopeMismatch => document.scope.kind != target.kind || document.scope.id != target.id
    case HashMismatch =>
      || document.documentHash == "" || hashing.digest(document.(documentHash := "")) != document.documentHash
      || exists i :: 0 <= i < |document.values| && document.values[i].value.Malformed?
    case RegistryMismatch => document.registryHash != hashing.registryHash
    case _ => false
  }

  lemma InSix<T>(a: seq<T>, b: seq<T>, c: seq<T>, d: seq<T>, e: seq<T>, f: seq<T>, x: T)
    ensures x in a + b + c + d + e + f <==> x in a || x in b || x in c || x in d || x in e || x in f
  {
  }

  lemma Flagged(condition: bool, code: ImportCode, issue: ImportIssue)
    ensures issue in Flag(condition, code) <==> condition && issue.key == "" && issue.code == code
  {
  }

  lemma TargetInvalidIff(target: ScopeRef)
    ensures !ValidScope(target) || target.kind.BuiltIn? <==> target.kind == BuiltIn || !Identified(target)
  {
    assert AllSpace(target.id) <==> forall i :: 0 <= i < |target.id| ==> IsSpace(target.id[i]);
  }

  lemma HashMismatchIff(hashing: Hashing, document: Declarative, target: ScopeRef, mode: Mode)
    ensures var hash := DocumentHash(hashing, document);
      hash.Failure? || document.documentHash == "" || hash.value != document.documentHash <==>
      HeaderSays(hashing, document, mode, target, HashMismatch)
  {
  }

  lemma HeaderIssueIff(hashing: Hashing, document: Declarative, mode: Mode, target: ScopeRef, issue: ImportIssue)
    ensures issue in HeaderIssues(hashing, document, mode, target) <==>
            issue.key == "" && HeaderSays(hashing, document, mode, target, issue.code)
  {
    var hash := DocumentHash(hashing, document);
    var mismatch := hash.Failure? || document.documentHash == "" || hash.value != document.documentHash;
    HashMismatchIff(hashing, document, target, mode);
    TargetInvalidIff(target);
    SixFlags(mode.OtherMode?, !ValidScope(target) || target.kind.BuiltIn?, document.schemaVersion != SCHEMA_VERSION,
             document.scope != target, mismatch, document.registryHash != hashing.registryHash, issue);
  }

  lemma SixFlags(mode: bool, target: bool, schema: bool, scope: bool, hash: bool, registry: bool, issue: ImportIssue)
    ensures issue in Flag(mode, InvalidImportMode) + Flag(target, InvalidTarget) + Flag(schema, UnsupportedSchema)
                     + Flag(scope, ScopeMismatch) + Flag(hash, HashMismatch) + Flag(registry, RegistryMismatch) <==>
      issue.key == "" && match issue.code
                         case InvalidImportMode => mode
                         case InvalidTarget => target
                         case UnsupportedSchema => schema
                         case ScopeMismatch => scope
                         case HashMismatch => hash
                         case RegistryMismatch => registry
                         case _ => false
  {
    InSix(Flag(mode, InvalidImportMode), Flag(target, InvalidTarget), Flag(schema, UnsupportedSchema),
          Flag(scope, ScopeMismatch), Flag(hash, HashMismatch), Flag(registry, RegistryMismatch), issue);
    Flagged(mode, InvalidImportMode, issue);
    Flagged(target, InvalidTarget, issue);
    Flagged(schema, UnsupportedSchema, issue);
    Flagged(scope, ScopeMismatch, issue);
    Flagged(hash, HashMismatch, issue);
    Flagged(registry, RegistryMismatch, issue);
  }

  /** Some value is taken in. */
  predicate SomeImports(registry: Registry, values: seq<ImportValue>) {
    exists i :: 0 <= i < |values| && First(values, i) && Imports(registry, values[i])
  }

  lemma NothingTakenIff(registry: Registry, mode: Mode, values: seq<ImportValue>)
    ensures SortBy(Scan(registry, mode, values, |values|).entries, LowerEntry) == [] <==>
            !SomeImports(registry, values)
  {
    var entries := Scan(registry, mode, values, |values|).entries;
    SortPermutes(entries, LowerEntry);
    if SomeImports(registry, values) {
      var i :| 0 <= i < |values| && First(values, i) && Imports(registry, values[i]);
      ScanEntryIff(registry, mode, values, |values|, EntryFor(values[i]));
    }
    if entries != [] {
      assert entries[0] in entries;
      ScanEntryIff(registry, mode, values, |values|, entries[0]);
    }
  }

  /** The issue is of the document, of one of its values, of the entries taken in, or that there are none. */
  predicate Reported(
    registry: Registry, hashing: Hashing, document: Declarative, mode: Mode, target: ScopeRef,
    entries: seq<DraftEntry>, issue: ImportIssue)
  {
    || (issue.key == "" && HeaderSays(hashing, document, mode, target, issue.code))
    || (exists i :: 0 <= i < |document.values| && ToldAt(registry, mode, document.values, i, issue))
    || (issue.key == "" && issue.code == NothingApplicable && !SomeImports(registry, document.values))
    || (SomeImports(registry, document.values) && issue.code.Entry?
        && Issue(issue.key, issue.code.code) in Validate(registry, target, entries).issues)
  }

  /** The entries of a document that are taken in, in the order of their keys. */
  function TakenIn(registry: Registry, mode: Mode, document: Declarative): seq<DraftEntry> {
    SortBy(Scan(registry, mode, document.values, |document.values|).entries, LowerEntry)
  }

  lemma EntryIssueIff(issues: seq<Issue>, issue: ImportIssue)
    ensures issue in EntryIssues(issues) <==> issue.code.Entry? && Issue(issue.key, issue.code.code) in issues
  {
    if issue.code.Entry? && Issue(issue.key, issue.code.code) in issues {
      var i := IndexOf(issues, Issue(issue.key, issue.code.code));
      assert EntryIssues(issues)[i] == issue;
    }
  }

  /** The issues of a preview, for any document, mode and target. */
  lemma PreviewIssueIff(
    registry: Registry, hashing: Hashing, document: Declarative, mode: Mode, target: ScopeRef, issue: ImportIssue)
    ensures issue in PreviewOf(registry, hashing, document, mode, target).issues <==>
            Reported(registry, hashing, document, mode, target, TakenIn(registry, mode, document), issue)
  {
    var values := document.values;
    HeaderIssueIff(hashing, document, mode, target, issue);
    ScanIssueIff(registry, mode, values, |values|, issue);
    NothingTakenIff(registry, mode, values);
    EntryIssueIff(Validate(registry, target, TakenIn(registry, mode, document)).issues, issue);
  }

  /** A preview is valid exactly when something is taken in and nothing is reported but three kinds of warnings. */
  lemma PreviewValidIff(
    registry: Registry, hashing: Hashing, document: Declarative, mode: Mode, target: ScopeRef)
    ensures var preview := PreviewOf(registry, hashing, document, mode, target);
      preview.valid <==>
        && SomeImports(registry, document.values)
        && forall issue :: issue in preview.issues ==>
             issue.code == RegistryMismatch || issue.code == UnknownPreserved || issue.code == SecretNotImported
  {
    var issues := PreviewOf(registry, hashing, document, mode, target).issues;
    NothingTakenIff(registry, mode, document.values);
    assert OnlyWarnings(issues) <==> forall issue :: issue in issues ==> IsWarning(issue.code) by {
      assert forall i :: 0 <= i < |issues| ==> issues[i] in issues;
    }
  }

  /** What is preserved, and which entries are taken in: those of each key's first value, in the order of the keys. */
  lemma PreviewHolds(registry: Registry, hashing: Hashing, document: Declarative, mode: Mode, target: ScopeRef)
    ensures var preview, values := PreviewOf(registry, hashing, document, mode, target), document.values;
      && (forall v :: v in preview.preserved <==>
            exists i :: 0 <= i < |values| && First(values, i) && Keeps(registry, mode, values[i]) && v == values[i])
      && (forall e :: e in TakenIn(registry, mode, document) <==>
            exists i :: 0 <= i < |values| && First(values, i) && Imports(registry, values[i]) &&
              e == EntryFor(values[i]))
      && preview.entries == if SomeImports(registry, values)
           then Validate(registry, target, TakenIn(registry, mode, document)).normalized else []
  {
    var values := document.values;
    var scanned := Scan(registry, mode, values, |values|);
    NothingTakenIff(registry, mode, values);
    SortPermutes(scanned.entries, LowerEntry);
    SameElements(SortBy(scanned.entries, LowerEntry), scanned.entries);
    SortPermutes(scanned.preserved, LowerKey);
    SameElements(SortBy(scanned.preserved, LowerKey), scanned.preserved);
    forall v ensures v in scanned.preserved <==>
      exists i :: 0 <= i < |values| && First(values, i) && Keeps(registry, mode, values[i]) && v == values[i]
    {
      ScanPreservedIff(registry, mode, values, |values|, v);
    }
    forall e ensures e in scanned.entries <==>
      exists i :: 0 <= i < |values| && First(values, i) && Imports(registry, values[i]) && e == EntryFor(values[i])
    {
      ScanEntryIff(registry, mode, values, |values|, e);
    }
  }
}
