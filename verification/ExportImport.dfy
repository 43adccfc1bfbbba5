/**
 * Declarative export of a scope and the preview of importing such a document:
 * what a scope exports is what a strict import of it takes in.
 */
module ExportImport {
  import opened Documents
  import opened Ordering
  import opened Registry
  import opened EffectiveConfig
  import opened Drafts
  import opened RegistryService

  datatype ImportValue = ImportValue(key: string, value: Raw, configured: bool, secret: bool, redacted: bool)

  datatype Declarative = Declarative(
    schemaVersion: int, registryHash: string, scope: ScopeRef, scopeVersion: int,
    values: seq<ImportValue>, documentHash: string)

  datatype Mode = Strict | ForwardCompatible | OtherMode

  datatype ImportCode =
    | InvalidImportMode | InvalidTarget | UnsupportedSchema | ScopeMismatch | HashMismatch | RegistryMismatch
    | RepeatedKey | UnknownPreserved | UnknownKey | SecretNotImported | NotImportable | NothingApplicable
    | Entry(code: IssueCode)

  datatype ImportIssue = ImportIssue(key: string, code: ImportCode)

  datatype Preview = Preview(
    valid: bool, issues: seq<ImportIssue>, entries: seq<DraftEntry>, preserved: seq<ImportValue>)

  /** The registry's fingerprint and the digest of a document without its own hash. */
  datatype Hashing = Hashing(registryHash: string, digest: Declarative -> string)

  const SCHEMA_VERSION := 1

  // ------------------------------------------------------------------- export

  predicate Exports(d: Descriptor) {
    d.secret || d.exportable
  }

  function ExportValue(d: Descriptor, key: string, v: StoredValue): ImportValue {
    if d.secret then ImportValue(key, Absent, v.configured, true, true)
    else ImportValue(key, v.value, v.configured, false, false)
  }

  /** What the loop has appended after the first n stored keys. */
  function Exported(registry: Registry, values: map<string, StoredValue>, keys: seq<string>, n: nat): seq<ImportValue>
    requires n <= |keys| && forall i :: 0 <= i < |keys| ==> keys[i] in values && keys[i] in registry
  {
    if n == 0 then [] else
      var key, rest := keys[n - 1], Exported(registry, values, keys, n - 1);
      if Exports(registry[key]) then rest + [ExportValue(registry[key], key, values[key])] else rest
  }

  predicate LowerKey(a: ImportValue, b: ImportValue) {
    Below(a.key, b.key)
  }

  /** The document's own hash takes no part in it; a value that is no JSON text cannot be encoded. */
  function DocumentHash(hashing: Hashing, document: Declarative): Result<string> {
    if exists i :: 0 <= i < |document.values| && document.values[i].value.Malformed? then Failure
    else Success(hashing.digest(document.(documentHash := "")))
  }

  function Export(registry: Registry, hashing: Hashing, state: ScopeState, scope: ScopeRef): Result<Declarative> {
    if exists key :: key in state.values && key !in registry then Failure
    else
      var document := Unhashed(registry, hashing, state, scope);
      match DocumentHash(hashing, document)
      case Failure => Failure
      case Success(hash) => Success(document.(documentHash := hash))
  }

  function Unhashed(registry: Registry, hashing: Hashing, state: ScopeState, scope: ScopeRef): Declarative
    requires forall key :: key in state.values ==> key in registry
  {
    var keys := Sorted(state.values.Keys);
    Declarative(SCHEMA_VERSION, hashing.registryHash, scope, state.version,
                Exported(registry, state.values, keys, |keys|), "")
  }

  predicate Lists(keys: seq<string>, values: map<string, StoredValue>) {
    && (forall i :: 0 <= i < |keys| ==> keys[i] in values)
    && (forall key :: key in values ==> key in keys)
    && (forall i, j :: 0 <= i < j < |keys| ==> keys[i] != keys[j])
  }

  lemma {:induction false} ExportedMembers(
    registry: Registry, values: map<string, StoredValue>, keys: seq<string>, n: nat, iv: ImportValue)
    requires n <= |keys| && forall i :: 0 <= i < |keys| ==> keys[i] in values && keys[i] in registry
    ensures iv in Exported(registry, values, keys, n) <==>
            iv.key in keys[..n] && Exports(registry[iv.key]) &&
              iv == ExportValue(registry[iv.key], iv.key, values[iv.key])
  {
    if n > 0 {
      ExportedMembers(registry, values, keys, n - 1, iv);
      assert keys[..n] == keys[..n - 1] + [keys[n - 1]];
    }
  }

  lemma {:induction false} ExportedOrder(
    registry: Registry, values: map<string, StoredValue>, keys: seq<string>, n: nat)
    requires n <= |keys| && forall i :: 0 <= i < |keys| ==> keys[i] in values && keys[i] in registry
    requires Ascending(keys)
    ensures StrictlyOrdered(Exported(registry, values, keys, n), LowerKey)
  {
    if n > 0 {
      ExportedOrder(registry, values, keys, n - 1);
      var rest := Exported(registry, values, keys, n - 1);
      forall i | 0 <= i < |rest| ensures Below(rest[i].key, keys[n - 1]) {
        ExportedMembers(registry, values, keys, n - 1, rest[i]);
        var j :| 0 <= j < n - 1 && keys[j] == rest[i].key;
      }
    }
  }

  lemma LowerKeyIsStrict()
    ensures StrictOrder(LowerKey)
  {
    forall a, b | LowerKey(a, b) ensures !LowerKey(b, a) { BelowTotal(a.key, b.key); }
    forall a, b, c | LowerKey(a, b) && LowerKey(b, c) ensures LowerKey(a, c) { BelowTransitive(a.key, b.key, c.key); }
  }

  lemma {:induction false} ExportedComparable(
    registry: Registry, values: map<string, StoredValue>, keys: seq<string>, n: nat)
    requires n <= |keys| && forall i :: 0 <= i < |keys| ==> keys[i] in values && keys[i] in registry
    requires forall i, j :: 0 <= i < j < |keys| ==> keys[i] != keys[j]
    ensures Comparable(Exported(registry, values, keys, n), LowerKey)
  {
    if n > 0 {
      ExportedComparable(registry, values, keys, n - 1);
      var rest := Exported(registry, values, keys, n - 1);
      forall i | 0 <= i < |rest| ensures Below(rest[i].key, keys[n - 1]) || Below(keys[n - 1], rest[i].key) {
        ExportedMembers(registry, values, keys, n - 1, rest[i]);
        var j :| 0 <= j < n - 1 && keys[j] == rest[i].key;
        BelowTotal(rest[i].key, keys[n - 1]);
      }
    }
  }

  lemma SameExports(registry: Registry, values: map<string, StoredValue>, a: seq<string>, b: seq<string>)
    requires forall i :: 0 <= i < |a| ==> a[i] in values && a[i] in registry
    requires forall i :: 0 <= i < |b| ==> b[i] in values && b[i] in registry
    requires forall key :: key in a <==> key in b
    ensures forall iv :: iv in Exported(registry, values, a, |a|) <==> iv in Exported(registry, values, b, |b|)
  {
    assert a[..|a|] == a && b[..|b|] == b;
    forall iv ensures iv in Exported(registry, values, a, |a|) <==> iv in Exported(registry, values, b, |b|) {
      ExportedMembers(registry, values, a, |a|, iv);
      ExportedMembers(registry, values, b, |b|, iv);
    }
  }

  /** The order in which the repository lists a scope does not show in its export. */
  lemma SortingExport(registry: Registry, values: map<string, StoredValue>, listing: seq<string>)
    requires Lists(listing, values) && forall key :: key in values ==> key in registry
    ensures SortBy(Exported(registry, values, listing, |listing|), LowerKey) ==
            Exported(registry, values, Sorted(values.Keys), |values.Keys|)
  {
    var keys := Sorted(values.Keys);
    var all, want := Exported(registry, values, listing, |listing|), Exported(registry, values, keys, |keys|);
    LowerKeyIsStrict();
    SortedAscending(values.Keys);
    ExportedOrder(registry, values, keys, |keys|);
    ExportedComparable(registry, values, listing, |listing|);
    SortOrders(all, LowerKey);
    SortPermutes(all, LowerKey);
    SameElements(SortBy(all, LowerKey), all);
    SameExports(registry, values, listing, keys);
    OrderedMembers(SortBy(all, LowerKey), want, LowerKey);
  }

  method ExportScope(registry: Registry, hashing: Hashing, state: ScopeState, listing: seq<string>, scope: ScopeRef)
    returns (r: Result<Declarative>)
    requires Lists(listing, state.values)
    ensures r == Export(registry, hashing, state, scope)
  {
    var collected := CollectExports(registry, state.values, listing);
    if collected.Failure? {
      return Failure;
    }
    SortingExport(registry, state.values, listing);
    var values := SortBy(collected.value, LowerKey);
    var document := Declarative(SCHEMA_VERSION, hashing.registryHash, scope, state.version, values, "");
    var hash := DocumentHash(hashing, document);
    if hash.Failure? {
      return Failure;
    }
    return Success(document.(documentHash := hash.value));
  }

  method CollectExports(registry: Registry, stored: map<string, StoredValue>, listing: seq<string>)
    returns (r: Result<seq<ImportValue>>)
    requires Lists(listing, stored)
    ensures r.Success? <==> forall key :: key in stored ==> key in registry
    ensures r.Success? ==> r.value == Exported(registry, stored, listing, |listing|)
  {
    var values := [];
    for i := 0 to |listing|
      invariant forall j :: 0 <= j < i ==> listing[j] in registry
      invariant values == Exported(registry, stored, listing[..i], i)
    {
      var key := listing[i];
      assert listing[..i + 1][..i] == listing[..i];
      if key !in registry {
        return Failure;
      }
      ExportedPrefix(registry, stored, listing[..i + 1], listing[..i], i);
      var d := registry[key];
      if d.secret {
        values := values + [ImportValue(key, Absent, stored[key].configured, true, true)];
        continue;
      }
      if !d.exportable {
        continue;
      }
      values := values + [ImportValue(key, stored[key].value, stored[key].configured, false, false)];
    }
    assert listing[..|listing|] == listing;
    return Success(values);
  }

  lemma {:induction false} ExportedPrefix(
    registry: Registry, values: map<string, StoredValue>, a: seq<string>, b: seq<string>, n: nat)
    requires n <= |a| && n <= |b| && a[..n] == b[..n]
    requires forall i :: 0 <= i < |a| ==> a[i] in values && a[i] in registry
    requires forall i :: 0 <= i < |b| ==> b[i] in values && b[i] in registry
    ensures Exported(registry, values, a, n) == Exported(registry, values, b, n)
  {
    if n > 0 {
      assert a[..n - 1] == a[..n][..n - 1] && b[..n - 1] == b[..n][..n - 1];
      assert a[n - 1] == a[..n][n - 1] == b[n - 1];
      ExportedPrefix(registry, values, a, b, n - 1);
    }
  }

  // ------------------------------------------------------------------ preview

  datatype Outcome = Taken(entry: DraftEntry) | Preserved | Ignored(code: ImportCode)

  /** What the import loop does with a value whose key it has not met before. */
  function Consider(registry: Registry, mode: Mode, v: ImportValue): Outcome {
    if v.key !in registry then
      if mode.ForwardCompatible? && (v.value.Text? || (v.value.Absent? && v.secret && v.redacted)) then Preserved
      else Ignored(UnknownKey)
    else if registry[v.key].secret || v.secret || v.redacted then Ignored(SecretNotImported)
    else if !registry[v.key].importable then Ignored(NotImportable)
    else Taken(DraftEntry(v.key, v.value, false, false, v.configured))
  }

  predicate IsWarning(code: ImportCode) {
    code.RegistryMismatch? || code.UnknownPreserved? || code.SecretNotImported?
  }

  datatype Scanned = Scanned(issues: seq<ImportIssue>, entries: seq<DraftEntry>, preserved: seq<ImportValue>)

  predicate Met(values: seq<ImportValue>, n: nat, key: string)
    requires n <= |values|
  {
    exists i :: 0 <= i < n && values[i].key == key
  }

  /** What the import loop has collected after the first n values. */
  function Scan(registry: Registry, mode: Mode, values: seq<ImportValue>, n: nat): Scanned
    requires n <= |values|
  {
    if n == 0 then Scanned([], [], []) else
      var v, s := values[n - 1], Scan(registry, mode, values, n - 1);
      if Met(values, n - 1, v.key) then s.(issues := s.issues + [ImportIssue(v.key, RepeatedKey)])
      else Absorb(s, v, Consider(registry, mode, v))
  }

  function Absorb(s: Scanned, v: ImportValue, o: Outcome): Scanned {
    match o
    case Taken(entry) => s.(entries := s.entries + [entry])
    case Preserved => s.(issues := s.issues + [ImportIssue(v.key, UnknownPreserved)], preserved := s.preserved + [v])
    case Ignored(code) => s.(issues := s.issues + [ImportIssue(v.key, code)])
  }

  predicate LowerEntry(a: DraftEntry, b: DraftEntry) {
    Below(a.key, b.key)
  }

  function Flag(condition: bool, code: ImportCode): seq<ImportIssue> {
    if condition then [ImportIssue("", code)] else []
  }

  /** The issues found before any value is looked at. */
  function HeaderIssues(hashing: Hashing, document: Declarative, mode: Mode, target: ScopeRef): seq<ImportIssue> {
    var hash := DocumentHash(hashing, document);
    Flag(mode.OtherMode?, InvalidImportMode)
    + Flag(!ValidScope(target) || target.kind.BuiltIn?, InvalidTarget)
    + Flag(document.schemaVersion != SCHEMA_VERSION, UnsupportedSchema)
    + Flag(document.scope != target, ScopeMismatch)
    + Flag(hash.Failure? || document.documentHash == "" || hash.value != document.documentHash, HashMismatch)
    + Flag(document.registryHash != hashing.registryHash, RegistryMismatch)
  }

  function EntryIssues(issues: seq<Issue>): (r: seq<ImportIssue>)
    ensures |r| == |issues|
    ensures forall i :: 0 <= i < |issues| ==> r[i] == ImportIssue(issues[i].key, Entry(issues[i].code))
  {
    seq(|issues|, i requires 0 <= i < |issues| => ImportIssue(issues[i].key, Entry(issues[i].code)))
  }

  predicate OnlyWarnings(issues: seq<ImportIssue>) {
    forall i :: 0 <= i < |issues| ==> IsWarning(issues[i].code)
  }

  function PreviewOf(
    registry: Registry, hashing: Hashing, document: Declarative, mode: Mode, target: ScopeRef): Preview {
    var scanned := Scan(registry, mode, document.values, |document.values|);
    var entries, preserved := SortBy(scanned.entries, LowerEntry), SortBy(scanned.preserved, LowerKey);
    var before := HeaderIssues(hashing, document, mode, target) + scanned.issues;
    if entries == [] then Preview(false, before + [ImportIssue("", NothingApplicable)], [], preserved)
    else
      var report := Validate(registry, target, entries);
      var issues := before + EntryIssues(report.issues);
      Preview(OnlyWarnings(issues), issues, report.normalized, preserved)
  }

  method PreviewImport(registry: Registry, hashing: Hashing, document: Declarative, mode: Mode, target: ScopeRef)
    returns (preview: Preview)
    ensures preview == PreviewOf(registry, hashing, document, mode, target)
  {
    var header := HeaderIssues(hashing, document, mode, target);
    var scanned := ScanValues(registry, mode, document.values);
    var issues := header + scanned.issues;
    var entries, preserved := SortBy(scanned.entries, LowerEntry), SortBy(scanned.preserved, LowerKey);
    if entries == [] {
      return Preview(false, issues + [ImportIssue("", NothingApplicable)], [], preserved);
    }
    var report := ValidateEntries(registry, target, entries);
    issues := issues + EntryIssues(report.issues);
    var valid := NoErrorAmong(issues);
    return Preview(valid, issues, report.normalized, preserved);
  }

  method ScanValues(registry: Registry, mode: Mode, values: seq<ImportValue>) returns (scanned: Scanned)
    ensures scanned == Scan(registry, mode, values, |values|)
  {
    var issues, entries, preserved := [], [], [];
    var seen := {};
    for i := 0 to |values|
      invariant forall key :: key in seen <==> Met(values, i, key)
      invariant Scan(registry, mode, values, i) == Scanned(issues, entries, preserved)
    {
      var value := values[i];
      if value.key in seen {
        issues := issues + [ImportIssue(value.key, RepeatedKey)];
        continue;
      }
      seen := seen + {value.key};
      match Consider(registry, mode, value) {
        case Taken(entry) =>
          entries := entries + [entry];
        case Preserved =>
          preserved := preserved + [value];
          issues := issues + [ImportIssue(value.key, UnknownPreserved)];
        case Ignored(code) =>
          issues := issues + [ImportIssue(value.key, code)];
      }
    }
    return Scanned(issues, entries, preserved);
  }

  method NoErrorAmong(issues: seq<ImportIssue>) returns (valid: bool)
    ensures valid <==> OnlyWarnings(issues)
  {
    for i := 0 to |issues|
      invariant forall j :: 0 <= j < i ==> IsWarning(issues[j].code)
    {
      if !IsWarning(issues[i].code) {
        return false;
      }
    }
    return true;
  }

  // --------------------------------------------------------------- round trip

  /** A stored value as an applied draft leaves it: resolvable, configured, and of a registered setting. */
  predicate Held(registry: Registry, scope: ScopeRef, values: map<string, StoredValue>) {
    forall key :: key in values ==> key in registry && HeldAt(registry[key], scope, key, values[key])
  }

  predicate HeldAt(d: Descriptor, scope: ScopeRef, key: string, v: StoredValue) {
    v.configured && Admissible(d, Scoped(key, scope, v))
  }

  /** Exported with its value and taken back in. */
  predicate Travels(d: Descriptor) {
    !d.secret && d.exportable && d.importable
  }

  /** The entries for the travelling keys among the first n. */
  function Travellers(registry: Registry, values: map<string, StoredValue>, keys: seq<string>, n: nat): seq<DraftEntry>
    requires n <= |keys| && forall i :: 0 <= i < |keys| ==> keys[i] in values && keys[i] in registry
  {
    if n == 0 then [] else
      var key, rest := keys[n - 1], Travellers(registry, values, keys, n - 1);
      if Travels(registry[key]) then rest + [DraftEntry(key, values[key].value, false, false, values[key].configured)]
      else rest
  }

  /** Exported with its value but not taken back in. */
  predicate Stranded(d: Descriptor) {
    !d.secret && d.exportable && !d.importable
  }

  predicate NoneStranded(registry: Registry, keys: seq<string>, n: nat)
    requires n <= |keys| && forall i :: 0 <= i < |keys| ==> keys[i] in registry
  {
    n == 0 || (NoneStranded(registry, keys, n - 1) && !Stranded(registry[keys[n - 1]]))
  }

  lemma {:induction false} ScanPrefix(registry: Registry, mode: Mode, a: seq<ImportValue>, b: seq<ImportValue>, n: nat)
    requires n <= |a| && n <= |b| && forall i :: 0 <= i < n ==> a[i] == b[i]
    ensures Scan(registry, mode, a, n) == Scan(registry, mode, b, n)
  {
    if n > 0 { ScanPrefix(registry, mode, a, b, n - 1); }
  }

  lemma ExportedUnmet(
    registry: Registry, values: map<string, StoredValue>, keys: seq<string>, n: nat, all: seq<ImportValue>)
    requires n < |keys| && forall i :: 0 <= i < |keys| ==> keys[i] in values && keys[i] in registry
    requires forall i, j :: 0 <= i < j < |keys| ==> keys[i] != keys[j]
    requires Exported(registry, values, keys, n) <= all
    ensures !Met(all, |Exported(registry, values, keys, n)|, keys[n])
  {
    var before := Exported(registry, values, keys, n);
    forall i | 0 <= i < |before| ensures all[i].key != keys[n] {
      assert before[i] in before && all[i] == before[i];
      ExportedMembers(registry, values, keys, n, before[i]);
      var j :| 0 <= j < n && keys[j] == before[i].key;
    }
  }

  predicate Harmless(o: Outcome) {
    o.Ignored? ==> IsWarning(o.code)
  }

  lemma AbsorbHarmless(s: Scanned, v: ImportValue, o: Outcome)
    ensures var t := Absorb(s, v, o);
      && t.entries == (if o.Taken? then s.entries + [o.entry] else s.entries)
      && (OnlyWarnings(t.issues) <==> OnlyWarnings(s.issues) && Harmless(o))
  {
    match o
    case Taken(entry) =>
    case Preserved => OneMoreIssue(s.issues, ImportIssue(v.key, UnknownPreserved));
    case Ignored(code) => OneMoreIssue(s.issues, ImportIssue(v.key, code));
  }

  lemma ScanStep(registry: Registry, mode: Mode, before: seq<ImportValue>, v: ImportValue)
    requires !Met(before + [v], |before|, v.key)
    ensures Scan(registry, mode, before + [v], |before| + 1) ==
            Absorb(Scan(registry, mode, before, |before|), v, Consider(registry, mode, v))
  {
    ScanPrefix(registry, mode, before, before + [v], |before|);
  }

  lemma ConsiderExported(registry: Registry, mode: Mode, key: string, v: StoredValue)
    requires key in registry && Exports(registry[key])
    ensures var o := Consider(registry, mode, ExportValue(registry[key], key, v));
      && (o.Taken? <==> Travels(registry[key]))
      && (o.Taken? ==> o.entry == DraftEntry(key, v.value, false, false, v.configured))
      && (Harmless(o) <==> !Stranded(registry[key]))
  {
  }

  /** The issues and entries collected agree with what the first n keys should give. */
  ghost predicate Agrees(s: Scanned, registry: Registry, values: map<string, StoredValue>, keys: seq<string>, n: nat)
    requires n <= |keys| && forall i :: 0 <= i < |keys| ==> keys[i] in values && keys[i] in registry
  {
    s.entries == Travellers(registry, values, keys, n) && (OnlyWarnings(s.issues) <==> NoneStranded(registry, keys, n))
  }

  lemma AbsorbAgrees(
    s: Scanned, registry: Registry, mode: Mode, values: map<string, StoredValue>, keys: seq<string>, n: nat)
    requires 0 < n <= |keys| && forall i :: 0 <= i < |keys| ==> keys[i] in values && keys[i] in registry
    requires Agrees(s, registry, values, keys, n - 1) && Exports(registry[keys[n - 1]])
    ensures var v := ExportValue(registry[keys[n - 1]], keys[n - 1], values[keys[n - 1]]);
      Agrees(Absorb(s, v, Consider(registry, mode, v)), registry, values, keys, n)
  {
    var key := keys[n - 1];
    var v := ExportValue(registry[key], key, values[key]);
    AbsorbHarmless(s, v, Consider(registry, mode, v));
    ConsiderExported(registry, mode, key, values[key]);
  }

  lemma {:induction false} ScanOfExport(
    registry: Registry, mode: Mode, values: map<string, StoredValue>, keys: seq<string>, n: nat)
    requires n <= |keys| && forall i :: 0 <= i < |keys| ==> keys[i] in values && keys[i] in registry
    requires forall i, j :: 0 <= i < j < |keys| ==> keys[i] != keys[j]
    ensures var all := Exported(registry, values, keys, n);
      Agrees(Scan(registry, mode, all, |all|), registry, values, keys, n)
  {
    if n > 0 {
      ScanOfExport(registry, mode, values, keys, n - 1);
      var before, key := Exported(registry, values, keys, n - 1), keys[n - 1];
      if Exports(registry[key]) {
        var v := ExportValue(registry[key], key, values[key]);
        ExportedUnmet(registry, values, keys, n - 1, before + [v]);
        ScanStep(registry, mode, before, v);
        AbsorbAgrees(Scan(registry, mode, before, |before|), registry, mode, values, keys, n);
      }
    }
  }

  lemma OneMoreIssue(issues: seq<ImportIssue>, issue: ImportIssue)
    ensures OnlyWarnings(issues + [issue]) <==> OnlyWarnings(issues) && IsWarning(issue.code)
  {
    if OnlyWarnings(issues + [issue]) {
      forall i | 0 <= i < |issues| ensures IsWarning(issues[i].code) { assert (issues + [issue])[i] == issues[i]; }
      assert (issues + [issue])[|issues|] == issue;
    }
  }

  lemma {:induction false} TravellersOrder(
    registry: Registry, values: map<string, StoredValue>, keys: seq<string>, n: nat)
    requires n <= |keys| && forall i :: 0 <= i < |keys| ==> keys[i] in values && keys[i] in registry
    requires Ascending(keys)
    ensures StrictlyOrdered(Travellers(registry, values, keys, n), LowerEntry)
    ensures forall e :: e in Travellers(registry, values, keys, n) ==>
      && e.key in keys[..n] && Travels(registry[e.key])
      && e == DraftEntry(e.key, values[e.key].value, false, false, values[e.key].configured)
  {
    if n > 0 {
      TravellersOrder(registry, values, keys, n - 1);
      var rest := Travellers(registry, values, keys, n - 1);
      assert keys[..n] == keys[..n - 1] + [keys[n - 1]];
      forall i | 0 <= i < |rest| ensures Below(rest[i].key, keys[n - 1]) {
        assert rest[i] in rest;
        var j :| 0 <= j < n - 1 && keys[j] == rest[i].key;
      }
    }
  }

  lemma {:induction false} TravellersAll(
    registry: Registry, values: map<string, StoredValue>, keys: seq<string>, n: nat, i: nat)
    requires i < n <= |keys| && forall j :: 0 <= j < |keys| ==> keys[j] in values && keys[j] in registry
    requires Travels(registry[keys[i]])
    ensures exists e :: e in Travellers(registry, values, keys, n) && e.key == keys[i]
  {
    if i == n - 1 {
      var all := Travellers(registry, values, keys, n);
      assert all[|all| - 1] in all;
    } else {
      TravellersAll(registry, values, keys, n - 1, i);
    }
  }

  lemma LowerEntryIsStrict()
    ensures StrictOrder(LowerEntry)
  {
    forall a, b | LowerEntry(a, b) ensures !LowerEntry(b, a) { BelowTotal(a.key, b.key); }
    forall a, b, c | LowerEntry(a, b) && LowerEntry(b, c) ensures LowerEntry(a, c) {
      BelowTransitive(a.key, b.key, c.key);
    }
  }

  lemma TravellersSorted(registry: Registry, values: map<string, StoredValue>)
    requires forall key :: key in values ==> key in registry
    ensures var all := Travellers(registry, values, Sorted(values.Keys), |values.Keys|);
      SortBy(all, LowerEntry) == all
  {
    var keys := Sorted(values.Keys);
    var all := Travellers(registry, values, keys, |keys|);
    LowerEntryIsStrict();
    SortedAscending(values.Keys);
    TravellersOrder(registry, values, keys, |keys|);
    SortReaches(all, all, LowerEntry);
  }

  lemma HeldEntryAccepted(registry: Registry, scope: ScopeRef, key: string, v: StoredValue)
    requires ValidRegistry(registry) && key in registry && HeldAt(registry[key], scope, key, v) &&
             Travels(registry[key])
    ensures Judge(registry, scope, DraftEntry(key, v.value, false, false, v.configured)) ==
            Accepted(DraftEntry(key, Relaid(v.value), false, false, true))
  {
  }

  /** Everything the scope exports in its own right, as import entries. */
  ghost function Own(registry: Registry, values: map<string, StoredValue>): seq<DraftEntry>
    requires forall key :: key in values ==> key in registry
  {
    Travellers(registry, values, Sorted(values.Keys), |values.Keys|)
  }

  predicate IsOwn(registry: Registry, values: map<string, StoredValue>, entry: DraftEntry) {
    && entry.key in values && entry.key in registry && Travels(registry[entry.key])
    && entry == DraftEntry(entry.key, Relaid(values[entry.key].value), false, false, true)
  }

  lemma OwnAcceptable(registry: Registry, scope: ScopeRef, values: map<string, StoredValue>)
    requires ValidRegistry(registry) && Held(registry, scope, values)
    ensures Acceptable(registry, scope, Own(registry, values))
    ensures forall i :: 0 <= i < |Own(registry, values)| ==>
      var entry := Own(registry, values)[i];
      && entry.key in values && entry.key in registry
      && Judge(registry, scope, entry) ==
           Accepted(DraftEntry(entry.key, Relaid(values[entry.key].value), false, false, true))
      && Travels(registry[entry.key])
  {
    var keys, own := Sorted(values.Keys), Own(registry, values);
    SortedAscending(values.Keys);
    TravellersOrder(registry, values, keys, |keys|);
    assert keys[..|keys|] == keys;
    forall i | 0 <= i < |own| ensures
      var entry := own[i];
      && entry.key in values && entry.key in registry && Travels(registry[entry.key])
      && Judge(registry, scope, entry) ==
           Accepted(DraftEntry(entry.key, Relaid(values[entry.key].value), false, false, true))
    {
      assert own[i] in own;
      HeldEntryAccepted(registry, scope, own[i].key, values[own[i].key]);
    }
    forall i, j | 0 <= i < j < |own| ensures own[i].key != own[j].key { BelowTotal(own[i].key, own[j].key); }
  }

  lemma ExportEncodes(registry: Registry, scope: ScopeRef, values: map<string, StoredValue>)
    requires Held(registry, scope, values)
    ensures forall iv :: iv in Exported(registry, values, Sorted(values.Keys), |values.Keys|) ==> !iv.value.Malformed?
  {
    var keys := Sorted(values.Keys);
    forall iv | iv in Exported(registry, values, keys, |keys|) ensures !iv.value.Malformed? {
      ExportedMembers(registry, values, keys, |keys|, iv);
      assert HeldAt(registry[iv.key], scope, iv.key, values[iv.key]);
    }
  }

  lemma Rehash(hashing: Hashing, document: Declarative, hash: string)
    ensures DocumentHash(hashing, document.(documentHash := hash)) == DocumentHash(hashing, document)
  {
    assert document.(documentHash := hash).(documentHash := "") == document.(documentHash := "");
  }

  lemma ExportSucceeds(registry: Registry, hashing: Hashing, state: ScopeState, scope: ScopeRef)
    requires Held(registry, scope, state.values)
    ensures var document := Unhashed(registry, hashing, state, scope);
      Export(registry, hashing, state, scope) == Success(document.(documentHash := hashing.digest(document)))
  {
    ExportEncodes(registry, scope, state.values);
  }

  lemma HeaderClean(hashing: Hashing, document: Declarative, mode: Mode)
    requires !mode.OtherMode? && ValidScope(document.scope) && !document.scope.kind.BuiltIn?
    requires document.schemaVersion == SCHEMA_VERSION && document.registryHash == hashing.registryHash
    requires DocumentHash(hashing, document) == Success(document.documentHash) && document.documentHash != ""
    ensures HeaderIssues(hashing, document, mode, document.scope) == []
  {
  }

  /** The preview of a document whose values are the given entries, all of them acceptable. */
  lemma PreviewAccepts(registry: Registry, hashing: Hashing, document: Declarative, mode: Mode, own: seq<DraftEntry>)
    requires ValidScope(document.scope) && !document.scope.kind.BuiltIn?
    requires HeaderIssues(hashing, document, mode, document.scope) == []
    requires Scan(registry, mode, document.values, |document.values|).entries == own == SortBy(own, LowerEntry)
    requires Acceptable(registry, document.scope, own)
    ensures var p := PreviewOf(registry, hashing, document, mode, document.scope);
      && (p.valid <==>
           OnlyWarnings(Scan(registry, mode, document.values, |document.values|).issues) && 1 <= |own| <= 500)
      && (p.valid ==> p.entries == Validate(registry, document.scope, own).normalized)
  {
    var scanned := Scan(registry, mode, document.values, |document.values|);
    var report := Validate(registry, document.scope, own);
    ReviewValidIff(registry, document.scope, own);
    if own != [] {
      var issues := scanned.issues + EntryIssues(report.issues);
      if |own| <= 500 {
        assert |report.issues| == 0;
        assert issues == scanned.issues;
      } else {
        assert issues[|scanned.issues|] == ImportIssue("", Entry(InvalidEntryCount));
      }
      assert HeaderIssues(hashing, document, mode, document.scope) + scanned.issues == scanned.issues;
    }
  }

  /** Nothing the scope exports with its value is barred from import. */
  ghost predicate Importable(registry: Registry, values: map<string, StoredValue>)
    requires forall key :: key in values ==> key in registry
  {
    NoneStranded(registry, Sorted(values.Keys), |values.Keys|)
  }

  lemma {:induction false} NoneStrandedIff(registry: Registry, keys: seq<string>, n: nat)
    requires n <= |keys| && forall i :: 0 <= i < |keys| ==> keys[i] in registry
    ensures NoneStranded(registry, keys, n) <==> forall i :: 0 <= i < n ==> !Stranded(registry[keys[i]])
  {
    if n > 0 { NoneStrandedIff(registry, keys, n - 1); }
  }

  lemma ImportableIff(registry: Registry, values: map<string, StoredValue>)
    requires forall key :: key in values ==> key in registry
    ensures Importable(registry, values) <==> forall key :: key in values ==> !Stranded(registry[key])
  {
    var keys := Sorted(values.Keys);
    NoneStrandedIff(registry, keys, |keys|);
    forall key | key in values ensures exists i :: 0 <= i < |keys| && keys[i] == key {
      assert key in keys;
    }
  }

  /**
   * The export of a scope previews as a valid import of that scope exactly when
   * between 1 and 500 of its values travel and none of them is stranded.
   */
  lemma ExportThenPreview(registry: Registry, hashing: Hashing, state: ScopeState, scope: ScopeRef, mode: Mode)
    requires ValidRegistry(registry) && ValidScope(scope) && !scope.kind.BuiltIn? && !mode.OtherMode?
    requires Held(registry, scope, state.values)
    requires forall document :: hashing.digest(document) != ""
    ensures Export(registry, hashing, state, scope).Success?
    ensures var own, p := Own(registry, state.values),
                          PreviewOf(registry, hashing, Export(registry, hashing, state, scope).value, mode, scope);
      && (p.valid <==> Importable(registry, state.values) && 1 <= |own| <= 500)
      && (p.valid ==> p.entries == Validate(registry, scope, own).normalized && Validate(registry, scope, own).valid)
  {
    var keys, own := Sorted(state.values.Keys), Own(registry, state.values);
    var unhashed := Unhashed(registry, hashing, state, scope);
    var document := unhashed.(documentHash := hashing.digest(unhashed));
    ExportSucceeds(registry, hashing, state, scope);
    ExportEncodes(registry, scope, state.values);
    Rehash(hashing, unhashed, hashing.digest(unhashed));
    HeaderClean(hashing, document, mode);
    SortedAscending(state.values.Keys);
    AscendingDistinct(keys);
    ScanOfExport(registry, mode, state.values, keys, |keys|);
    TravellersSorted(registry, state.values);
    OwnAcceptable(registry, scope, state.values);
    PreviewAccepts(registry, hashing, document, mode, own);
    ReviewValidIff(registry, scope, own);
  }

  lemma NormalizedOwn(registry: Registry, scope: ScopeRef, values: map<string, StoredValue>)
    requires ValidRegistry(registry) && Held(registry, scope, values)
    requires Validate(registry, scope, Own(registry, values)).valid
    ensures DistinctEntries(Validate(registry, scope, Own(registry, values)).normalized)
    ensures forall e :: e in Validate(registry, scope, Own(registry, values)).normalized ==> IsOwn(registry, values, e)
  {
    var own := Own(registry, values);
    OwnAcceptable(registry, scope, values);
    ValidatedIsNormal(registry, scope, own);
  }

  lemma TravellerNormalized(registry: Registry, scope: ScopeRef, values: map<string, StoredValue>, key: string)
    requires ValidRegistry(registry) && Held(registry, scope, values)
    requires Validate(registry, scope, Own(registry, values)).valid
    requires key in values && Travels(registry[key])
    ensures exists e :: e in Validate(registry, scope, Own(registry, values)).normalized && e.key == key
  {
    var own, keys := Own(registry, values), Sorted(values.Keys);
    OwnAcceptable(registry, scope, values);
    ValidatedIsNormal(registry, scope, own);
    assert key in keys;
    var i :| 0 <= i < |keys| && keys[i] == key;
    TravellersAll(registry, values, keys, |keys|, i);
    var e :| e in own && e.key == key;
    var j :| 0 <= j < |own| && own[j] == e;
    var normal := Validate(registry, scope, own).normalized;
    assert normal[j].key == key && normal[j] in normal;
  }

  lemma ChangesDistinct(entries: seq<DraftEntry>)
    requires DistinctEntries(entries)
    ensures DistinctChanges(ToChanges(entries))
  {
  }

  /** Distinct entries that all put their values, applied one by one. */
  lemma EntriesApplied(
    entries: seq<DraftEntry>, other: map<string, StoredValue>, version: int, revision: string, key: string)
    requires DistinctEntries(entries)
    ensures forall e :: e in entries && e.key == key && e.configured && !e.reset ==>
      var after := ApplyChanges(other, ToChanges(entries), version, revision);
      key in after && after[key] == StoredValue(e.value, true, e.secret, version, revision)
    ensures (forall e :: e in entries ==> e.key != key) ==>
      var after := ApplyChanges(other, ToChanges(entries), version, revision);
      (key in after <==> key in other) && (key in after ==> after[key] == other[key])
  {
    var changes := ToChanges(entries);
    ChangesDistinct(entries);
    if e :| e in entries && e.key == key {
      var j :| 0 <= j < |entries| && entries[j] == e;
      ChangeHits(other, changes, version, revision, j);
      forall f | f in entries && f.key == key ensures f == e {
        var k :| 0 <= k < |entries| && entries[k] == f;
      }
    } else {
      forall i | 0 <= i < |changes| ensures changes[i].key != key { assert entries[i] in entries; }
      ChangeMisses(other, changes, version, revision, key);
    }
  }

  /** The previewed entries, applied to any state of the scope, put back every value that travels and touch no other. */
  lemma ImportPutsBack(
    registry: Registry, scope: ScopeRef, values: map<string, StoredValue>, entries: seq<DraftEntry>,
    other: map<string, StoredValue>, version: int, revision: string, key: string)
    requires ValidRegistry(registry) && Held(registry, scope, values)
    requires Validate(registry, scope, Own(registry, values)).valid
    requires entries == Validate(registry, scope, Own(registry, values)).normalized
    ensures var after := ApplyChanges(other, ToChanges(entries), version, revision);
      if key in values && Travels(registry[key])
      then key in after && after[key] == StoredValue(Relaid(values[key].value), true, false, version, revision)
      else (key in after <==> key in other) && (key in after ==> after[key] == other[key])
  {
    NormalizedOwn(registry, scope, values);
    EntriesApplied(entries, other, version, revision, key);
    if key in values && Travels(registry[key]) {
      TravellerNormalized(registry, scope, values, key);
      var e :| e in entries && e.key == key;
      assert IsOwn(registry, values, e);
    } else {
      forall e | e in entries ensures e.key != key { assert IsOwn(registry, values, e); }
    }
  }
}
