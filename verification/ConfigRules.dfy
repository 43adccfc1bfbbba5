/**
 * The rules a draft is checked against, on the JSON values themselves: when a
 * relation between two settings is broken, and when the token budgets clash.
 */
module ConfigRules {
  import opened Documents
  import opened Ordering
  import opened Registry
  import opened Drafts

  // --------------------------------------------------------------- decimals

  function Digit(n: nat): char
    requires n < 10
  {
    '0' + n as char
  }

  /** A natural number as it is written. */
  function Decimal(n: nat): string {
    if n < 10 then [Digit(n)] else Decimal(n / 10) + [Digit(n % 10)]
  }

  function Signed(n: int): string {
    if n < 0 then "-" + Decimal(-n) else Decimal(n)
  }

  lemma {:induction false} DecimalReads(n: nat)
    ensures DecimalValue(Decimal(n)) == Success(n)
    ensures Decimal(n) != "" && Decimal(n)[0] != '-'
  {
    if n < 10 {
      assert Decimal(n)[..0] == "";
    } else {
      DecimalReads(n / 10);
      assert Decimal(n)[..|Decimal(n)| - 1] == Decimal(n / 10);
    }
  }

  /** A written integer decodes to itself exactly when it fits in 64 bits. */
  lemma SignedDecodes(n: int, layout: nat)
    ensures DecodeInt(Text(Number(Signed(n)), layout)) ==
            if -0x8000_0000_0000_0000 <= n <= 0x7fff_ffff_ffff_ffff then Success(n) else Failure
  {
    if n < 0 {
      DecimalReads(-n);
      assert Signed(n)[1..] == Decimal(-n);
    } else {
      DecimalReads(n);
    }
  }

  /** A number with a fraction or an exponent. */
  predicate NotWhole(text: string) {
    exists i :: 0 < i < |text| && text[i] in {'.', 'e', 'E'}
  }

  lemma {:induction false} OddDigitsFail(s: string, i: nat)
    requires i < |s| && !('0' <= s[i] <= '9')
    ensures DecimalValue(s) == Failure
  {
    if i < |s| - 1 { OddDigitsFail(s[..|s| - 1], i); }
  }

  /** What does not decode to an integer: nothing, text that is no JSON, other values than numbers, and fractions. */
  lemma OthersDoNotDecode(raw: Raw)
    requires raw.Text? ==> !raw.value.Null? && (raw.value.Number? ==> NotWhole(raw.value.text))
    ensures DecodeInt(raw) == Failure
  {
    if raw.Text? && raw.value.Number? {
      var text := raw.value.text;
      var i :| 0 < i < |text| && text[i] in {'.', 'e', 'E'};
      if text[0] == '-' { OddDigitsFail(text[1..], i - 1); } else { OddDigitsFail(text, i); }
    }
  }

  // -------------------------------------------------------- issues of a check

  lemma {:induction false} DependencyIssueIff(d: Descriptor, relations: seq<Relation>, values: Values, issue: Issue)
    ensures issue in DependencyIssues(d, relations, values) <==>
            issue == Issue(d.key, DependencyUnsatisfied) && exists r :: r in relations && DependencyBroken(d, r, values)
  {
    if relations != [] {
      var n := |relations| - 1;
      DependencyIssueIff(d, relations[..n], values, issue);
      assert relations == relations[..n] + [relations[n]];
    }
  }

  lemma {:induction false} IncompatibilityIssueIff(
    d: Descriptor, relations: seq<Relation>, values: Values, issue: Issue)
    ensures issue in IncompatibilityIssues(d, relations, values) <==>
            issue == Issue(d.key, Incompatibility) && exists r :: r in relations && IncompatibilityMet(d, r, values)
  {
    if relations != [] {
      var n := |relations| - 1;
      IncompatibilityIssueIff(d, relations[..n], values, issue);
      assert relations == relations[..n] + [relations[n]];
    }
  }

  predicate SomeBroken(d: Descriptor, values: Values) {
    exists r :: r in d.dependencies && DependencyBroken(d, r, values)
  }

  predicate SomeMet(d: Descriptor, values: Values) {
    exists r :: r in d.incompatibilities && IncompatibilityMet(d, r, values)
  }

  /** The issue is one of this descriptor's relations. */
  predicate Raises(d: Descriptor, values: Values, issue: Issue) {
    || (issue == Issue(d.key, DependencyUnsatisfied) && SomeBroken(d, values))
    || (issue == Issue(d.key, Incompatibility) && SomeMet(d, values))
  }

  lemma {:induction false} ImpactIssueIff(
    registry: Registry, values: Values, changed: set<string>, keys: seq<string>, issue: Issue)
    requires forall k :: k in keys ==> k in registry
    ensures issue in ImpactIssues(registry, values, changed, keys) <==>
            exists k :: k in keys && Impacted(registry[k], changed) && Raises(registry[k], values, issue)
  {
    if keys != [] {
      var n := |keys| - 1;
      var d := registry[keys[n]];
      ImpactIssueIff(registry, values, changed, keys[..n], issue);
      assert keys == keys[..n] + [keys[n]];
      DependencyIssueIff(d, d.dependencies, values, issue);
      IncompatibilityIssueIff(d, d.incompatibilities, values, issue);
    }
  }

  lemma ContextIssueIff(registry: Registry, values: Values, changed: set<string>, issue: Issue)
    ensures issue in ContextIssues(registry, values, changed) <==>
            || (issue == Issue(OUTPUT_RESERVE, CrossField) && !BudgetsOrdered(values))
            || exists k :: k in registry && Impacted(registry[k], changed) && Raises(registry[k], values, issue)
  {
    ImpactIssueIff(registry, values, changed, Sorted(registry.Keys), issue);
  }

  // ------------------------------------------------------------- the budgets

  predicate InRange(n: int) {
    -0x8000_0000_0000_0000 <= n <= 0x7fff_ffff_ffff_ffff
  }

  /**
   * With both budgets written as integers, the check reports the output reserve
   * exactly when both fit in 64 bits and the reserve is not below the input budget.
   */
  lemma CrossFieldIff(
    registry: Registry, values: Values, changed: set<string>, input: string, reserve: string, i: int, r: int, a: nat,
    b: nat)
    requires input == "intelligence.context_input_tokens" && reserve == "intelligence.context_output_reserve_tokens"
    requires At(values, input) == Text(Number(Signed(i)), a) && At(values, reserve) == Text(Number(Signed(r)), b)
    ensures Issue(reserve, CrossField) in ContextIssues(registry, values, changed) <==>
            InRange(i) && InRange(r) && r >= i
  {
    SignedDecodes(i, a);
    SignedDecodes(r, b);
    ContextIssueIff(registry, values, changed, Issue(reserve, CrossField));
  }

  /** Without a number in one of them the check says nothing of the budgets; null counts as zero. */
  lemma NoCrossField(
    registry: Registry, values: Values, changed: set<string>, input: string, reserve: string, key: string)
    requires input == "intelligence.context_input_tokens" && reserve == "intelligence.context_output_reserve_tokens"
    requires var a, b := At(values, input), At(values, reserve);
      || (a.Text? ==> !a.value.Null? && (a.value.Number? ==> NotWhole(a.value.text)))
      || (b.Text? ==> !b.value.Null? && (b.value.Number? ==> NotWhole(b.value.text)))
    ensures Issue(key, CrossField) !in ContextIssues(registry, values, changed)
  {
    var a, b := At(values, input), At(values, reserve);
    if a.Text? ==> !a.value.Null? && (a.value.Number? ==> NotWhole(a.value.text)) {
      OthersDoNotDecode(a);
    } else {
      OthersDoNotDecode(b);
    }
    ContextIssueIff(registry, values, changed, Issue(key, CrossField));
  }

  // ------------------------------------------------------------ the relations

  /** The setting is the value, however it is laid out. */
  predicate Reads(raw: Raw, value: Json) {
    raw.Text? && raw.value == value
  }

  /** The relation applies: it has no condition, or its own setting has the value of the condition. */
  predicate Applies(r: Relation, own: Raw) {
    r.whenValue.Absent? || (r.whenValue.Text? && Reads(own, r.whenValue.value))
  }

  /** A list of texts, nulls counting as empty ones. */
  predicate IsTexts(items: seq<Json>) {
    forall j :: j in items ==> j.String? || j.Null?
  }

  predicate Is(item: Json, wanted: string) {
    item == String(wanted) || (item.Null? && wanted == "")
  }

  predicate Lists(items: seq<Json>, wanted: string) {
    exists j :: j in items && Is(j, wanted)
  }

  lemma TextsNext(items: seq<Json>, wanted: string)
    requires items != []
    ensures IsTexts(items) <==> (items[0].String? || items[0].Null?) && IsTexts(items[1..])
    ensures Lists(items, wanted) <==> Is(items[0], wanted) || Lists(items[1..], wanted)
  {
    assert forall j :: j in items <==> j == items[0] || j in items[1..] by {
      assert items == [items[0]] + items[1..];
    }
  }

  lemma {:induction false} ItemsDecode(items: seq<Json>, wanted: string)
    ensures DecodeItems(items).Success? <==> IsTexts(items)
    ensures DecodeItems(items).Success? ==> (wanted in DecodeItems(items).value <==> Lists(items, wanted))
  {
    if items != [] {
      ItemsDecode(items[1..], wanted);
      TextsNext(items, wanted);
    }
  }

  /** The other setting holds the text among its items. */
  predicate HoldsText(other: Raw, wanted: Raw) {
    && other.Text? && wanted.Text? && (wanted.value.String? || wanted.value.Null?)
    && other.value.Array? && IsTexts(other.value.items)
    && Lists(other.value.items, if wanted.value.String? then wanted.value.chars else "")
  }

  /** What each operator asks of the other setting. */
  predicate Meets(r: Relation, other: Raw) {
    match r.operator
    case Equals => r.value.Text? && Reads(other, r.value.value)
    case NotEquals => !(r.value.Text? && Reads(other, r.value.value))
    case Contains => HoldsText(other, r.value)
    case NotContains => !HoldsText(other, r.value)
  }

  lemma MatchesMeans(r: Relation, other: Raw)
    ensures Matches(r, other) <==> Meets(r, other)
  {
    if other.Text? && other.value.Array? {
      var wanted := DecodeString(r.value);
      ItemsDecode(other.value.items, if wanted.Success? then wanted.value else "");
    }
  }

  lemma ActiveMeans(r: Relation, own: Raw)
    ensures Active(r, own) <==> Applies(r, own)
  {
  }

  /**
   * The check reports a setting for a dependency exactly when it, or a setting it
   * relates to, was changed, and one of its dependencies applies and is not met;
   * for an incompatibility exactly when one applies and is met.
   */
  lemma RelationIssueIff(registry: Registry, values: Values, changed: set<string>, key: string)
    requires ValidRegistry(registry) && key in registry
    ensures var d := registry[key];
      var touched := key in changed || exists r :: r in d.dependencies + d.incompatibilities && r.key in changed;
      && (Issue(key, DependencyUnsatisfied) in ContextIssues(registry, values, changed) <==>
            touched && exists r :: r in d.dependencies && Applies(r, At(values, key)) && !Meets(r, At(values, r.key)))
      && (Issue(key, Incompatibility) in ContextIssues(registry, values, changed) <==>
            touched &&
            exists r :: r in d.incompatibilities && Applies(r, At(values, key)) && Meets(r, At(values, r.key)))
  {
    var d := registry[key];
    ContextIssueIff(registry, values, changed, Issue(key, DependencyUnsatisfied));
    ContextIssueIff(registry, values, changed, Issue(key, Incompatibility));
    forall r: Relation
      ensures DependencyBroken(d, r, values) <==> Applies(r, At(values, key)) && !Meets(r, At(values, r.key))
      ensures IncompatibilityMet(d, r, values) <==> Applies(r, At(values, key)) && Meets(r, At(values, r.key))
    {
      ActiveMeans(r, At(values, key));
      MatchesMeans(r, At(values, r.key));
    }
  }
}
