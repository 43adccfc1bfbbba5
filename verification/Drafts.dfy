/**
 * Validation of configuration drafts: entry by entry, and in the context of
 * the configuration the draft would produce.
 */
module Drafts {
  import opened Documents
  import opened Ordering
  import opened Registry
  import opened EffectiveConfig

  datatype DraftEntry = DraftEntry(key: string, value: Raw, reset: bool, secret: bool, configured: bool)

  datatype IssueCode =
    | InvalidScope | InvalidEntryCount | DuplicateKey | UnregisteredKey | ScopeNotPermitted
    | InvalidReset | InvalidSecret | InvalidValue | SchemaValidation
    | DependencyUnsatisfied | Incompatibility | CrossField

  datatype Issue = Issue(key: string, code: IssueCode)

  datatype Report = Report(valid: bool, issues: seq<Issue>, normalized: seq<DraftEntry>, needsReauthentication: bool)

  // ----------------------------------------------------- entries one by one

  datatype Verdict = Accepted(entry: DraftEntry) | Refused(code: IssueCode)

  function Judge(registry: Registry, scope: ScopeRef, entry: DraftEntry): Verdict {
    if entry.key !in registry then Refused(UnregisteredKey)
    else
      var d := registry[entry.key];
      if scope.kind !in d.permitted || d.bootstrapControlled then Refused(ScopeNotPermitted)
      else if entry.reset then
        if entry.configured || !entry.value.Absent? then Refused(InvalidReset) else Accepted(entry.(secret := d.secret))
      else if d.secret then
        if !entry.secret || !entry.configured || !entry.value.Absent? then Refused(InvalidSecret)
        else Accepted(entry.(secret := true))
      else if entry.secret || !entry.configured then Refused(InvalidValue)
      else if !Accepts(d, entry.value) then Refused(SchemaValidation)
      else Accepted(entry.(value := Text(entry.value.value, 0), secret := false))
  }

  predicate HasKey(entries: seq<DraftEntry>, key: string) {
    exists e :: e in entries && e.key == key
  }

  /** What the entry loop has reported after these entries. */
  function Review(registry: Registry, scope: ScopeRef, entries: seq<DraftEntry>): (r: Report)
    ensures |r.normalized| + |r.issues| == |entries|
  {
    if entries == [] then Report(true, [], [], false)
    else
      var last, rest := entries[|entries| - 1], entries[..|entries| - 1];
      var r := Review(registry, scope, rest);
      if HasKey(rest, last.key) then Rejected(r, last.key, DuplicateKey)
      else Noted(r, last.key, Judge(registry, scope, last))
  }

  function Rejected(r: Report, key: string, code: IssueCode): Report {
    r.(valid := false, issues := r.issues + [Issue(key, code)])
  }

  /** The report with the verdict on one more entry. */
  function Noted(r: Report, key: string, verdict: Verdict): Report {
    match verdict
    case Refused(code) => Rejected(r, key, code)
    case Accepted(entry) => r.(
      normalized := r.normalized + [entry],
      needsReauthentication := r.needsReauthentication || (!entry.reset && entry.secret))
  }

  function Validate(registry: Registry, scope: ScopeRef, entries: seq<DraftEntry>): Report {
    if !ValidScope(scope) || scope.kind.BuiltIn? then Report(false, [Issue("", InvalidScope)], [], false)
    else if |entries| == 0 || |entries| > 500 then Report(false, [Issue("", InvalidEntryCount)], [], false)
    else Review(registry, scope, entries)
  }

  /** The keys of the first i entries. */
  ghost predicate Seen(seen: set<string>, entries: seq<DraftEntry>, i: nat)
    requires i <= |entries|
  {
    forall k :: k in seen <==> HasKey(entries[..i], k)
  }

  lemma SeenNext(seen: set<string>, entries: seq<DraftEntry>, i: nat)
    requires i < |entries| && Seen(seen, entries, i)
    ensures Seen(seen + {entries[i].key}, entries, i + 1)
    ensures entries[i].key in seen ==> Seen(seen, entries, i + 1)
  {
    assert entries[..i + 1] == entries[..i] + [entries[i]];
    forall k ensures HasKey(entries[..i + 1], k) <==> HasKey(entries[..i], k) || k == entries[i].key {
      if HasKey(entries[..i], k) {
        var e :| e in entries[..i] && e.key == k;
        assert e in entries[..i + 1];
      }
      assert entries[i] in entries[..i + 1];
    }
  }

  lemma ReviewNext(registry: Registry, scope: ScopeRef, entries: seq<DraftEntry>, i: nat)
    requires i < |entries|
    ensures var r, key := Review(registry, scope, entries[..i]), entries[i].key;
      Review(registry, scope, entries[..i + 1]) ==
      if HasKey(entries[..i], key) then Rejected(r, key, DuplicateKey)
      else Noted(r, key, Judge(registry, scope, entries[i]))
  {
    assert entries[..i + 1][..i] == entries[..i] && entries[..i + 1][i] == entries[i];
  }

  method ValidateEntries(registry: Registry, scope: ScopeRef, entries: seq<DraftEntry>) returns (report: Report)
    ensures report == Validate(registry, scope, entries)
  {
    report := Report(false, [], [], false);
    if !ValidScope(scope) || scope.kind.BuiltIn? {
      return report.(issues := [Issue("", InvalidScope)]);
    }
    if |entries| == 0 || |entries| > 500 {
      return report.(issues := [Issue("", InvalidEntryCount)]);
    }
    report := ReviewEach(registry, scope, entries);
    return report.(valid := report.issues == [] && |report.normalized| == |entries|);
  }

  /** The loop over the entries. */
  method ReviewEach(registry: Registry, scope: ScopeRef, entries: seq<DraftEntry>) returns (report: Report)
    ensures report == Review(registry, scope, entries) && (report.valid <==> report.issues == [])
  {
    var seen := {};
    report := Report(true, [], [], false);
    for i := 0 to |entries|
      invariant Seen(seen, entries, i)
      invariant report == Review(registry, scope, entries[..i]) && (report.valid <==> report.issues == [])
    {
      var entry := entries[i];
      SeenNext(seen, entries, i);
      ReviewNext(registry, scope, entries, i);
      if entry.key in seen {
        report := report.(valid := false, issues := report.issues + [Issue(entry.key, DuplicateKey)]);
        continue;
      }
      seen := seen + {entry.key};
      match Judge(registry, scope, entry) {
        case Refused(code) =>
          report := report.(valid := false, issues := report.issues + [Issue(entry.key, code)]);
        case Accepted(accepted) =>
          var needs := report.needsReauthentication || (!accepted.reset && accepted.secret);
          report := report.(normalized := report.normalized + [accepted], needsReauthentication := needs);
      }
    }
    assert entries[..|entries|] == entries;
  }

  predicate DistinctEntries(entries: seq<DraftEntry>) {
    forall i, j :: 0 <= i < j < |entries| ==> entries[i].key != entries[j].key
  }

  predicate Acceptable(registry: Registry, scope: ScopeRef, entries: seq<DraftEntry>) {
    DistinctEntries(entries) && forall i :: 0 <= i < |entries| ==> Judge(registry, scope, entries[i]).Accepted?
  }

  /** The entry loop reports nothing exactly when every entry is accepted and no key occurs twice. */
  lemma {:induction false} ReviewValidIff(registry: Registry, scope: ScopeRef, entries: seq<DraftEntry>)
    ensures Review(registry, scope, entries).valid <==> Acceptable(registry, scope, entries)
    ensures var r := Review(registry, scope, entries);
      r.valid ==>
        && |r.normalized| == |entries|
        && (forall i :: 0 <= i < |entries| ==> Judge(registry, scope, entries[i]) == Accepted(r.normalized[i]))
        && (r.needsReauthentication <==> exists e :: e in r.normalized && !e.reset && e.secret)
  {
    if entries != [] {
      var n := |entries| - 1;
      var rest := entries[..n];
      ReviewValidIff(registry, scope, rest);
      AcceptableNext(registry, scope, entries);
      var r, before := Review(registry, scope, entries), Review(registry, scope, rest);
      if r.valid {
        assert r.normalized == before.normalized + [r.normalized[n]];
        assert forall e :: e in r.normalized <==> e in before.normalized || e == r.normalized[n];
      }
    }
  }

  lemma {:induction false} AcceptableNext(registry: Registry, scope: ScopeRef, entries: seq<DraftEntry>)
    requires entries != []
    ensures var n := |entries| - 1;
      Acceptable(registry, scope, entries) <==>
      (&& Acceptable(registry, scope, entries[..n]) && !HasKey(entries[..n], entries[n].key)
       && Judge(registry, scope, entries[n]).Accepted?)
  {
    var n := |entries| - 1;
    var rest := entries[..n];
    assert forall i :: 0 <= i < n ==> rest[i] == entries[i];
    KeyAmong(rest, entries[n].key);
  }

  lemma KeyAmong(entries: seq<DraftEntry>, key: string)
    ensures HasKey(entries, key) <==> exists i :: 0 <= i < |entries| && entries[i].key == key
  {
    if HasKey(entries, key) {
      var e :| e in entries && e.key == key;
      var i := IndexOf(entries, e);
      assert entries[i].key == key;
    }
    if i :| 0 <= i < |entries| && entries[i].key == key { assert entries[i] in entries; }
  }

  /** What an accepted entry is after normalisation. */
  predicate Normal(registry: Registry, scope: ScopeRef, entry: DraftEntry) {
    && entry.key in registry
    && var d := registry[entry.key];
       && scope.kind in d.permitted && !d.bootstrapControlled && entry.secret == d.secret
       && (entry.configured <==> !entry.reset)
       && (if entry.reset || d.secret then entry.value.Absent?
           else Accepts(d, entry.value) && entry.value.layout == 0)
  }

  lemma AcceptedIsNormal(registry: Registry, scope: ScopeRef, entry: DraftEntry)
    requires Judge(registry, scope, entry).Accepted?
    ensures Normal(registry, scope, Judge(registry, scope, entry).entry)
    ensures Judge(registry, scope, entry).entry.key == entry.key
  {
  }

  /** Entries as validation returns them: normal, and each key once. */
  predicate NormalEntries(registry: Registry, scope: ScopeRef, entries: seq<DraftEntry>) {
    DistinctEntries(entries) && forall i :: 0 <= i < |entries| ==> Normal(registry, scope, entries[i])
  }

  lemma ValidatedIsNormal(registry: Registry, scope: ScopeRef, entries: seq<DraftEntry>)
    requires Validate(registry, scope, entries).valid
    ensures ValidScope(scope) && !scope.kind.BuiltIn? && 1 <= |entries| <= 500
    ensures NormalEntries(registry, scope, Validate(registry, scope, entries).normalized)
    ensures |Validate(registry, scope, entries).normalized| == |entries|
    ensures forall i :: 0 <= i < |entries| ==>
      Judge(registry, scope, entries[i]) == Accepted(Validate(registry, scope, entries).normalized[i])
  {
    ReviewValidIff(registry, scope, entries);
    forall i | 0 <= i < |entries| ensures
      var normal := Review(registry, scope, entries).normalized[i];
      Normal(registry, scope, normal) && normal.key == entries[i].key
    {
      AcceptedIsNormal(registry, scope, entries[i]);
    }
  }

  // --------------------------------------------------------------- relations

  type Values = map<string, Raw>

  function At(values: Values, key: string): Raw {
    if key in values then values[key] else Absent
  }

  predicate SameCanonical(a: Raw, b: Raw) {
    Canonical(a).Success? && Canonical(a) == Canonical(b)
  }

  predicate Active(relation: Relation, current: Raw) {
    relation.whenValue.Absent? || SameCanonical(current, relation.whenValue)
  }

  /** Decoding into a string: null leaves it empty. */
  function DecodeString(raw: Raw): Result<string> {
    if !raw.Text? then Failure
    else match raw.value case String(s) => Success(s) case Null => Success("") case _ => Failure
  }

  function DecodeItems(items: seq<Json>): Result<seq<string>> {
    if items == [] then Success([])
    else
      match (DecodeString(Text(items[0], 0)), DecodeItems(items[1..]))
      case (Success(s), Success(rest)) => Success([s] + rest)
      case _ => Failure
  }

  /** Decoding into a list of strings: null leaves it empty. */
  function DecodeStrings(raw: Raw): Result<seq<string>> {
    if !raw.Text? then Failure
    else match raw.value case Array(items) => DecodeItems(items) case Null => Success([]) case _ => Failure
  }

  predicate ListContains(relation: Relation, current: Raw) {
    match (DecodeStrings(current), DecodeString(relation.value))
    case (Success(list), Success(wanted)) => wanted in list
    case _ => false
  }

  predicate Matches(relation: Relation, current: Raw) {
    match relation.operator
    case Equals => SameCanonical(current, relation.value)
    case NotEquals => !SameCanonical(current, relation.value)
    case Contains => ListContains(relation, current)
    case NotContains => !ListContains(relation, current)
  }

  predicate DependencyBroken(d: Descriptor, relation: Relation, values: Values) {
    Active(relation, At(values, d.key)) && !Matches(relation, At(values, relation.key))
  }

  predicate IncompatibilityMet(d: Descriptor, relation: Relation, values: Values) {
    Active(relation, At(values, d.key)) && Matches(relation, At(values, relation.key))
  }

  /** One descriptor's dependencies and incompatibilities hold of these values. */
  predicate Holds(d: Descriptor, values: Values) {
    && (forall r :: r in d.dependencies ==> !DependencyBroken(d, r, values))
    && (forall r :: r in d.incompatibilities ==> !IncompatibilityMet(d, r, values))
  }

  const INPUT_BUDGET := "intelligence.context_input_tokens"
  const OUTPUT_RESERVE := "intelligence.context_output_reserve_tokens"

  function DecimalValue(s: string): Result<int> {
    if s == "" then Success(0)
    else if !('0' <= s[|s| - 1] <= '9') then Failure
    else
      match DecimalValue(s[..|s| - 1])
      case Success(n) => Success(10 * n + (s[|s| - 1] as int - '0' as int))
      case Failure => Failure
  }

  /** Decoding into a 64-bit int: null leaves it zero, a literal must be an integer in range. */
  function DecodeInt(raw: Raw): Result<int> {
    if !raw.Text? then Failure
    else
      match raw.value
      case Null => Success(0)
      case Number(text) =>
        var negative := text != "" && text[0] == '-';
        var digits := if negative then text[1..] else text;
        if digits == "" then Failure
        else
          (match DecimalValue(digits)
           case Failure => Failure
           case Success(n) =>
             if negative then (if n <= 0x8000_0000_0000_0000 then Success(-n) else Failure)
             else if n < 0x8000_0000_0000_0000 then Success(n) else Failure)
      case _ => Failure
  }

  /** The output reserve lies below the input budget, where both decode. */
  predicate BudgetsOrdered(values: Values) {
    match (DecodeInt(At(values, INPUT_BUDGET)), DecodeInt(At(values, OUTPUT_RESERVE)))
    case (Success(input), Success(reserve)) => reserve < input
    case _ => true
  }

  /** The whole configuration satisfies every registered relation and the cross-field rule. */
  predicate Consistent(registry: Registry, values: Values) {
    (forall key :: key in registry ==> Holds(registry[key], values)) && BudgetsOrdered(values)
  }

  function ValuesOf(configuration: Configuration): Values {
    map key | key in configuration :: configuration[key].value
  }

  // -------------------------------------------- the configuration to come

  /** The scopes whose configuration a draft for this scope is checked against. */
  function Chain(scope: ScopeRef): seq<ScopeRef> {
    if scope.kind.System? then [SYSTEM_SCOPE] else [SYSTEM_SCOPE, scope]
  }

  /** The highest contribution that does not come from the scope. */
  function Fallback(contributions: seq<Contribution>, scope: ScopeRef): Raw {
    if contributions == [] then Absent
    else
      var last := contributions[|contributions| - 1];
      if last.scope != scope && last.configured then last.value
      else Fallback(contributions[..|contributions| - 1], scope)
  }

  function Expected(configuration: Configuration, scope: ScopeRef, entry: DraftEntry): Raw {
    if !entry.reset then entry.value
    else if entry.key in configuration then Fallback(configuration[entry.key].contributions, scope)
    else Absent
  }

  /** The values after the draft, as the check predicts them without applying it. */
  function Prospective(configuration: Configuration, scope: ScopeRef, entries: seq<DraftEntry>): Values {
    if entries == [] then ValuesOf(configuration)
    else
      var last := entries[|entries| - 1];
      Prospective(configuration, scope, entries[..|entries| - 1])[last.key := Expected(configuration, scope, last)]
  }

  function Keys(entries: seq<DraftEntry>): set<string> {
    set e | e in entries :: e.key
  }

  predicate Impacted(d: Descriptor, changed: set<string>) {
    d.key in changed || exists r :: r in d.dependencies + d.incompatibilities && r.key in changed
  }

  /** Only the impacted descriptors are looked at again. */
  predicate ImpactedHold(registry: Registry, values: Values, changed: set<string>) {
    forall key :: key in registry && Impacted(registry[key], changed) ==> Holds(registry[key], values)
  }

  /** A descriptor that is not impacted holds after a change exactly when it held before. */
  lemma UntouchedHolds(d: Descriptor, before: Values, after: Values, changed: set<string>)
    requires !Impacted(d, changed)
    requires forall key :: key !in changed ==> At(before, key) == At(after, key)
    ensures Holds(d, before) <==> Holds(d, after)
  {
    forall r | r in d.dependencies
      ensures DependencyBroken(d, r, before) <==> DependencyBroken(d, r, after)
    {
      assert r in d.dependencies + d.incompatibilities;
    }
    forall r | r in d.incompatibilities
      ensures IncompatibilityMet(d, r, before) <==> IncompatibilityMet(d, r, after)
    {
      assert r in d.dependencies + d.incompatibilities;
    }
  }

  /**
   * The incremental check against the whole: after a change of some keys the
   * whole configuration is consistent exactly when the impacted descriptors
   * and the cross-field rule pass the check and the others held before.
   */
  lemma IncrementalCheckIsExact(registry: Registry, before: Values, after: Values, changed: set<string>)
    requires forall key :: key !in changed ==> At(before, key) == At(after, key)
    ensures Consistent(registry, after) <==>
      && ImpactedHold(registry, after, changed) && BudgetsOrdered(after)
      && forall key :: key in registry && !Impacted(registry[key], changed) ==> Holds(registry[key], before)
  {
    forall key | key in registry && !Impacted(registry[key], changed)
      ensures Holds(registry[key], before) <==> Holds(registry[key], after)
    {
      UntouchedHolds(registry[key], before, after, changed);
    }
  }

  lemma {:induction false} ProspectiveUnchanged(
    configuration: Configuration, scope: ScopeRef, entries: seq<DraftEntry>, key: string)
    requires key !in Keys(entries)
    ensures At(Prospective(configuration, scope, entries), key) == At(ValuesOf(configuration), key)
  {
    if entries != [] {
      var n := |entries| - 1;
      assert entries[n] in entries;
      assert forall e :: e in entries[..n] ==> e in entries;
      ProspectiveUnchanged(configuration, scope, entries[..n], key);
    }
  }

  lemma {:induction false} ProspectiveChanged(
    configuration: Configuration, scope: ScopeRef, entries: seq<DraftEntry>, i: nat)
    requires i < |entries| && DistinctEntries(entries)
    ensures At(Prospective(configuration, scope, entries), entries[i].key)
         == Expected(configuration, scope, entries[i])
  {
    var n := |entries| - 1;
    if i < n {
      ProspectiveChanged(configuration, scope, entries[..n], i);
    }
  }

  // ------------------------------------------------------ the contextual check

  function DependencyIssues(d: Descriptor, relations: seq<Relation>, values: Values): seq<Issue> {
    if relations == [] then []
    else
      DependencyIssues(d, relations[..|relations| - 1], values)
      + if DependencyBroken(d, relations[|relations| - 1], values) then [Issue(d.key, DependencyUnsatisfied)] else []
  }

  function IncompatibilityIssues(d: Descriptor, relations: seq<Relation>, values: Values): seq<Issue> {
    if relations == [] then []
    else
      IncompatibilityIssues(d, relations[..|relations| - 1], values)
      + if IncompatibilityMet(d, relations[|relations| - 1], values) then [Issue(d.key, Incompatibility)] else []
  }

  function RelationIssues(d: Descriptor, values: Values): seq<Issue> {
    DependencyIssues(d, d.dependencies, values) + IncompatibilityIssues(d, d.incompatibilities, values)
  }

  function ImpactIssues(registry: Registry, values: Values, changed: set<string>, keys: seq<string>): seq<Issue>
    requires forall k :: k in keys ==> k in registry
  {
    if keys == [] then []
    else
      var last := keys[|keys| - 1];
      ImpactIssues(registry, values, changed, keys[..|keys| - 1])
      + if Impacted(registry[last], changed) then RelationIssues(registry[last], values) else []
  }

  lemma {:induction false} NoDependencyIssue(d: Descriptor, relations: seq<Relation>, values: Values)
    ensures DependencyIssues(d, relations, values) == [] <==>
      forall r :: r in relations ==> !DependencyBroken(d, r, values)
  {
    if relations != [] {
      var n := |relations| - 1;
      NoDependencyIssue(d, relations[..n], values);
      assert forall r :: r in relations <==> r in relations[..n] || r == relations[n];
    }
  }

  lemma {:induction false} NoIncompatibilityIssue(d: Descriptor, relations: seq<Relation>, values: Values)
    ensures IncompatibilityIssues(d, relations, values) == [] <==>
      forall r :: r in relations ==> !IncompatibilityMet(d, r, values)
  {
    if relations != [] {
      var n := |relations| - 1;
      NoIncompatibilityIssue(d, relations[..n], values);
      assert forall r :: r in relations <==> r in relations[..n] || r == relations[n];
    }
  }

  lemma {:induction false} NoImpactIssue(registry: Registry, values: Values, changed: set<string>, keys: seq<string>)
    requires forall k :: k in keys ==> k in registry
    ensures ImpactIssues(registry, values, changed, keys) == [] <==>
      forall k :: k in keys && Impacted(registry[k], changed) ==> Holds(registry[k], values)
  {
    if keys != [] {
      var n := |keys| - 1;
      NoImpactIssue(registry, values, changed, keys[..n]);
      NoDependencyIssue(registry[keys[n]], registry[keys[n]].dependencies, values);
      NoIncompatibilityIssue(registry[keys[n]], registry[keys[n]].incompatibilities, values);
      assert forall k :: k in keys <==> k in keys[..n] || k == keys[n];
    }
  }

  function ContextIssues(registry: Registry, values: Values, changed: set<string>): seq<Issue> {
    ImpactIssues(registry, values, changed, Sorted(registry.Keys))
    + if BudgetsOrdered(values) then [] else [Issue(OUTPUT_RESERVE, CrossField)]
  }

  /** The contextual check reports nothing exactly when the impacted relations and the cross-field rule hold. */
  lemma NoContextIssue(registry: Registry, values: Values, changed: set<string>)
    ensures ContextIssues(registry, values, changed) == [] <==>
      ImpactedHold(registry, values, changed) && BudgetsOrdered(values)
  {
    NoImpactIssue(registry, values, changed, Sorted(registry.Keys));
  }

  method CheckRelations(d: Descriptor, values: Values) returns (issues: seq<Issue>)
    ensures issues == RelationIssues(d, values)
  {
    issues := [];
    for i := 0 to |d.dependencies|
      invariant issues == DependencyIssues(d, d.dependencies[..i], values)
    {
      assert d.dependencies[..i + 1][..i] == d.dependencies[..i];
      if Active(d.dependencies[i], At(values, d.key)) {
        if !Matches(d.dependencies[i], At(values, d.dependencies[i].key)) {
          issues := issues + [Issue(d.key, DependencyUnsatisfied)];
        }
      }
    }
    assert d.dependencies[..|d.dependencies|] == d.dependencies;
    for i := 0 to |d.incompatibilities|
      invariant issues == DependencyIssues(d, d.dependencies, values)
                        + IncompatibilityIssues(d, d.incompatibilities[..i], values)
    {
      assert d.incompatibilities[..i + 1][..i] == d.incompatibilities[..i];
      if Active(d.incompatibilities[i], At(values, d.key)) {
        if Matches(d.incompatibilities[i], At(values, d.incompatibilities[i].key)) {
          issues := issues + [Issue(d.key, Incompatibility)];
        }
      }
    }
    assert d.incompatibilities[..|d.incompatibilities|] == d.incompatibilities;
  }

  method IsImpacted(d: Descriptor, changed: set<string>) returns (impacted: bool)
    ensures impacted <==> Impacted(d, changed)
  {
    impacted := d.key in changed;
    var relations := d.dependencies + d.incompatibilities;
    for i := 0 to |relations|
      invariant impacted <==> d.key in changed || exists r :: r in relations[..i] && r.key in changed
    {
      assert relations[..i + 1] == relations[..i] + [relations[i]];
      impacted := impacted || relations[i].key in changed;
    }
    assert relations[..|relations|] == relations;
  }

  lemma ImpactNext(registry: Registry, values: Values, changed: set<string>, ordered: seq<string>, i: nat)
    requires i < |ordered| && forall k :: k in ordered ==> k in registry
    ensures ordered[i] in registry
    ensures forall k :: k in ordered[..i + 1] ==> k in registry
    ensures ImpactIssues(registry, values, changed, ordered[..i + 1]) ==
            ImpactIssues(registry, values, changed, ordered[..i]) +
            if Impacted(registry[ordered[i]], changed) then RelationIssues(registry[ordered[i]], values) else []
  {
    assert ordered[i] in ordered && ordered[..i + 1][..i] == ordered[..i];
  }

  method CheckImpacted(registry: Registry, values: Values, changed: set<string>) returns (issues: seq<Issue>)
    ensures issues == ContextIssues(registry, values, changed)
  {
    issues := [];
    var ordered := Sorted(registry.Keys);
    for i := 0 to |ordered|
      invariant forall k :: k in ordered[..i] ==> k in registry
      invariant issues == ImpactIssues(registry, values, changed, ordered[..i])
    {
      ImpactNext(registry, values, changed, ordered, i);
      var impacted := IsImpacted(registry[ordered[i]], changed);
      if impacted {
        var found := CheckRelations(registry[ordered[i]], values);
        issues := issues + found;
      }
    }
    assert ordered[..|ordered|] == ordered;
    if !BudgetsOrdered(values) {
      issues := issues + [Issue(OUTPUT_RESERVE, CrossField)];
    }
  }

  /** The walk down the contributions that finds what a reset falls back to. */
  method FindFallback(contributions: seq<Contribution>, scope: ScopeRef) returns (value: Raw)
    ensures value == Fallback(contributions, scope)
  {
    value := Absent;
    var index := |contributions| - 1;
    assert contributions[..index + 1] == contributions;
    while index >= 0
      invariant -1 <= index < |contributions|
      invariant Fallback(contributions, scope) == Fallback(contributions[..index + 1], scope)
    {
      assert contributions[..index + 1][..index] == contributions[..index];
      if contributions[index].scope != scope && contributions[index].configured {
        return contributions[index].value;
      }
      index := index - 1;
    }
  }

  method Predict(configuration: Configuration, scope: ScopeRef, entries: seq<DraftEntry>)
    returns (prospective: Values, changed: set<string>)
    requires forall e :: e in entries ==> e.key in configuration
    ensures prospective == Prospective(configuration, scope, entries)
    ensures changed == Keys(entries)
  {
    prospective := ValuesOf(configuration);
    changed := {};
    for i := 0 to |entries|
      invariant prospective == Prospective(configuration, scope, entries[..i])
      invariant changed == Keys(entries[..i])
    {
      var entry := entries[i];
      assert entry in entries;
      assert entries[..i + 1][..i] == entries[..i];
      assert entries[..i + 1] == entries[..i] + [entry];
      changed := changed + {entry.key};
      if !entry.reset {
        prospective := prospective[entry.key := entry.value];
      } else {
        var value := FindFallback(configuration[entry.key].contributions, scope);
        prospective := prospective[entry.key := value];
      }
    }
    assert entries[..|entries|] == entries;
  }

  /** What validation in context decides for a draft against a store. */
  function ContextReport(registry: Registry, configuration: Configuration, scope: ScopeRef, entries: seq<DraftEntry>)
    : Report
  {
    var report := Validate(registry, scope, entries);
    if !report.valid then report
    else
      var issues := ContextIssues(registry, Prospective(configuration, scope, report.normalized),
        Keys(report.normalized));
      report.(valid := issues == [], issues := report.issues + issues)
  }

  method ValidateInContext(registry: Registry, store: Store, scope: ScopeRef, entries: seq<DraftEntry>)
    returns (r: Result<Report>)
    requires ValidRegistry(registry)
    ensures r == var report := Validate(registry, scope, entries);
      if !report.valid then Success(report)
      else match Effective(registry, store, Chain(scope))
        case Failure => Failure
        case Success(configuration) => Success(ContextReport(registry, configuration, scope, entries))
  {
    var report := ValidateEntries(registry, scope, entries);
    if !report.valid {
      return Success(report);
    }
    var effective := ComputeEffective(registry, store, Chain(scope));
    if effective.Failure? {
      return Failure;
    }
    EffectiveKeys(registry, store, Chain(scope));
    ValidatedIsNormal(registry, scope, entries);
    forall e | e in report.normalized ensures e.key in effective.value {
      var i := IndexOf(report.normalized, e);
    }
    var prospective, changed := Predict(effective.value, scope, report.normalized);
    var issues := CheckImpacted(registry, prospective, changed);
    r := Success(report.(valid := issues == [], issues := report.issues + issues));
  }

  lemma EffectiveKeys(registry: Registry, store: Store, scopes: seq<ScopeRef>)
    ensures Effective(registry, store, scopes).Success? ==>
      Effective(registry, store, scopes).value.Keys == registry.Keys
  {
  }
}
