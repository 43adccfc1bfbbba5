/**
 * Whether a normalised configuration depends on the order in which its maps are
 * walked: which values show in the document, and when only one answer is left.
 */
module CapabilityOrder {
  import opened Documents
  import opened Ordering
  import opened DottedKeys
  import opened OverwrittenKeys
  import opened CapabilityConfig

  // --------------------------------------------------------- what is shown

  /** Another key of the set lies below this one. */
  ghost predicate Covered(keys: set<string>, key: string) {
    exists f :: f in keys && Under(key, f)
  }

  /** The values that the nested document shows: the others are overwritten by objects. */
  ghost function Shown(values: Flat): Flat {
    map key | key in values && !Covered(values.Keys, key) :: values[key]
  }

  lemma ShownNext(taken: Flat, key: string, value: Json)
    requires key !in taken && Anchored(key) && forall f :: f in taken ==> !Under(key, f)
    ensures var more := taken[key := value];
      && (forall f :: f in Shown(more) <==> f == key || (f in Shown(taken) && !Under(f, key)))
      && (forall f :: f in Shown(more) ==> Shown(more)[f] == if f == key then value else taken[f])
  {
    var more := taken[key := value];
    assert more.Keys == taken.Keys + {key};
    assert !Under(key, key);
    forall f | f in taken ensures Covered(more.Keys, f) <==> Covered(taken.Keys, f) || Under(f, key) {
      if Covered(taken.Keys, f) {
        var g :| g in taken.Keys && Under(f, g);
        assert g in more.Keys;
      }
      if Under(f, key) { assert key in more.Keys; }
    }
  }

  lemma ShownPrefixFree(values: Flat)
    ensures PrefixFree(Shown(values).Keys)
  {
  }

  lemma ShownOver(taken: Flat, key: string, value: Json, a: string)
    requires key !in taken && Anchored(key) && forall f :: f in taken ==> !Under(key, f)
    requires a in Shown(taken) && Under(a, key)
    ensures Exchanged(Shown(taken), a, key, value) == Shown(taken[key := value])
  {
    ShownNext(taken, key, value);
    ShownPrefixFree(taken);
    forall f | f in Shown(taken) && f != a ensures !Under(f, key) {
      if Under(f, key) { AncestorsComparable(f, a, key); }
    }
  }

  lemma ShownBeside(taken: Flat, key: string, value: Json)
    requires key !in taken && Anchored(key) && forall f :: f in taken ==> !Under(key, f)
    requires forall f :: f in Shown(taken) ==> !Under(f, key)
    ensures Shown(taken)[key := value] == Shown(taken[key := value])
    ensures PrefixFree(Shown(taken).Keys + {key})
  {
    ShownNext(taken, key, value);
    ShownPrefixFree(taken);
  }

  /** The value may be written next: nothing lies at or below its key, and all is anchored and scalar. */
  ghost predicate Writable(taken: Flat, key: string) {
    key !in taken && Anchored(key) && forall f :: f in taken ==> Anchored(f) && !taken[f].Object? && !Under(key, f)
  }

  lemma WritableOver(taken: Flat, key: string, a: string)
    requires Writable(taken, key) && a in Shown(taken) && Under(a, key)
    ensures OnlyAbove(Shown(taken), a, key)
  {
    ShownPrefixFree(taken);
  }

  /** One more value is written, over a value above it if there is one. */
  lemma OneMoreShown(node: Json, taken: Flat, key: string, value: Json)
    requires node.Object? && Fits(node, Shown(taken), "") && Writable(taken, key)
    ensures Fits(Object(SetValue(node.fields, SplitDots(key), value)), Shown(taken[key := value]), "")
  {
    if a :| a in Shown(taken) && Under(a, key) {
      WritableOver(taken, key, a);
      ShownOver(taken, key, value, a);
      OverFits(node, Shown(taken), "", key, value, a);
    } else {
      ShownBeside(taken, key, value);
      SetFits(node, Shown(taken), "", key, value);
    }
  }

  lemma TakenBefore(values: Flat, order: seq<string>, n: nat)
    requires Orders(values, order) && Ascending(order) && n < |order|
    ensures order[n] !in Taken(values, order, n)
    ensures forall f :: f in Taken(values, order, n) ==>
      f in values && Taken(values, order, n)[f] == values[f] && !Under(order[n], f)
  {
    TakenWithin(values, order, n);
    forall f | f in Taken(values, order, n)
      ensures f in values && Taken(values, order, n)[f] == values[f] && !Under(order[n], f)
    {
      TakenAt(values, order, n, f);
      var i :| 0 <= i < n && order[i] == f;
      BelowTotal(f, order[n]);
      if Under(order[n], f) { UnderIsBelow(order[n], f); }
    }
  }

  /** The object holds exactly what shows of the values. */
  ghost predicate HoldsShown(node: Json, taken: Flat) {
    node.Object? && Fits(node, Shown(taken), "")
  }

  lemma HoldsOneMore(node: Json, taken: Flat, key: string, value: Json, after: Json, more: Flat)
    requires HoldsShown(node, taken) && Writable(taken, key) && more == taken[key := value]
    requires after == Object(SetValue(node.fields, SplitDots(key), value))
    ensures HoldsShown(after, more)
  {
    OneMoreShown(node, taken, key, value);
  }

  lemma HoldsNothing(node: Json, taken: Flat)
    requires node == Object(map[]) && taken == map[]
    ensures HoldsShown(node, taken)
  {
    assert Shown(taken) == map[];
  }

  /** The keys in rising order, with scalar values. */
  predicate Rising(values: Flat, order: seq<string>) {
    Orders(values, order) && Ascending(order) && forall f :: f in values ==> Anchored(f) && !values[f].Object?
  }

  lemma NextIsWritable(values: Flat, order: seq<string>, n: nat)
    requires Rising(values, order) && n < |order|
    ensures Writable(Taken(values, order, n), order[n])
  {
    TakenBefore(values, order, n);
  }

  lemma {:induction false} RebuiltShows(values: Flat, order: seq<string>, n: nat, node: Json, taken: Flat)
    requires Rising(values, order) && n <= |order|
    requires node == Object(Rebuilt(values, order, n)) && taken == Taken(values, order, n)
    ensures HoldsShown(node, taken)
  {
    if n == 0 {
      HoldsNothing(node, taken);
    } else {
      var key, before, held := order[n - 1], Object(Rebuilt(values, order, n - 1)), Taken(values, order, n - 1);
      NextIsWritable(values, order, n - 1);
      RebuiltShows(values, order, n - 1, before, held);
      HoldsOneMore(before, held, key, values[key], node, taken);
    }
  }

  /** The nested document holds exactly the shown values. */
  lemma NestedShows(values: Flat)
    requires forall f :: f in values ==> Anchored(f) && !values[f].Object?
    ensures Fits(Nested(values), Shown(values), "")
  {
    var order := Sorted(values.Keys);
    SortedAscending(values.Keys);
    AscendingDistinct(order);
    TakenAll(values);
    RebuiltShows(values, order, |order|, Nested(values), values);
  }

  /** Only one object holds exactly these values. */
  lemma {:induction false} FitsUnique(a: Json, b: Json, values: Flat, prefix: string)
    requires a.Object? && b.Object? && Fits(a, values, prefix) && Fits(b, values, prefix)
    ensures a == b
    decreases a
  {
    assert a.fields.Keys == b.fields.Keys;
    forall k | k in a.fields ensures a.fields[k] == b.fields[k] {
      assert FitsAt(a, k, values, Candidate(prefix, k)) && FitsAt(b, k, values, Candidate(prefix, k));
      if Candidate(prefix, k) !in values { FitsUnique(a.fields[k], b.fields[k], values, Candidate(prefix, k)); }
    }
    assert a.fields == b.fields;
  }

  /** Two configurations of the same keys nest to the same document exactly when they show the same values. */
  lemma SameDocumentIff(a: Flat, b: Flat)
    requires a.Keys == b.Keys && forall f :: f in a ==> Anchored(f) && !a[f].Object? && !b[f].Object?
    ensures Nested(a) == Nested(b) <==> Shown(a) == Shown(b)
  {
    NestedShows(a);
    NestedShows(b);
    if Shown(a) == Shown(b) { FitsUnique(Nested(a), Nested(b), Shown(a), ""); }
    if Nested(a) == Nested(b) {
      assert Shown(a).Keys == Shown(b).Keys;
      ShownPrefixFree(a);
      ShownPrefixFree(b);
      forall d | d in Shown(a) ensures Shown(a)[d] == Shown(b)[d] {
        FittingSpells(Nested(a), Shown(a), d, Shown(a)[d]);
        FittingSpells(Nested(b), Shown(b), d, Shown(a)[d]);
      }
    }
  }

  // ------------------------------------------------------------ main theorems

  /** What the input maps are: nothing supplied counts as an empty object. */
  function InputOf(submission: Submission): Json {
    if submission.Document? then submission.content else Object(map[])
  }

  /** No two paths spell the same shown key with different values. */
  ghost predicate NoShownAliases(input: Json, keys: set<string>)
    requires input.Object?
  {
    forall d, v, w :: !Covered(keys, d) && Spells("", input, keys, d, v) && Spells("", input, keys, d, w) ==> v == w
  }

  /** However the values are collected, they are allowed and the relations hold. */
  ghost predicate EveryChoicePasses(manifest: Manifest, input: Json)
    requires input.Object?
  {
    forall provided :: Collected(provided, input, KeysOf(manifest)) ==> Passes(manifest, provided)
  }

  /** Every value spelled for a key is allowed for it. */
  ghost predicate SpelledAllowed(manifest: Manifest, input: Json)
    requires input.Object?
  {
    var kinds := Kinds(manifest.fields, |manifest.fields|);
    forall d, v :: Spells("", input, kinds.Keys, d, v) ==> d in kinds && ValueAllowed(kinds[d], v)
  }

  /** A text the key may come to hold: that of a value spelled for it, or of its default when none is. */
  ghost predicate MayHold(manifest: Manifest, input: Json, key: string, text: string)
    requires input.Object?
  {
    if SomeSpelled(input, KeysOf(manifest), key) then
      exists v :: Spells("", input, KeysOf(manifest), key, v) && TextOf(v) == text
    else text == TextAt(Defaults(manifest.fields, |manifest.fields|), key)
  }

  ghost predicate SomeSpelled(input: Json, keys: set<string>, key: string)
    requires input.Object?
  {
    exists v :: Spells("", input, keys, key, v)
  }

  function TextOf(v: Json): string {
    if v.String? then v.chars else ""
  }

  /** The suppression pack's three texts fit together, whichever of those they may hold they do. */
  ghost predicate TextsRelated(manifest: Manifest, input: Json)
    requires input.Object?
  {
    manifest.id == SUPPRESSION_PACK ==>
      forall reference, reason, expires ::
        (&& MayHold(manifest, input, SUPPRESSION_REFERENCE, reference)
         && MayHold(manifest, input, SUPPRESSION_REASON, reason)
         && MayHold(manifest, input, SUPPRESSION_EXPIRY, expires)) ==> Related(reference, reason, expires)
  }

  ghost predicate Passes(manifest: Manifest, provided: Flat) {
    && AllAllowed(Kinds(manifest.fields, |manifest.fields|), provided)
    && RelationsHold(manifest.id, Values(manifest, provided))
  }

  function Values(manifest: Manifest, provided: Flat): Flat {
    Defaults(manifest.fields, |manifest.fields|) + provided
  }

  lemma FinishIs(manifest: Manifest, provided: Flat, size: Json -> nat)
    ensures Finish(manifest, provided, size) ==
            var document := Nested(Values(manifest, provided));
            if Passes(manifest, provided) && size(document) <= MAX_BYTES then Success(document) else Failure
  {
  }

  lemma ValuesAre(manifest: Manifest, provided: Flat)
    requires Usable(manifest.fields, |manifest.fields|) && KeysAnchored(manifest)
    requires provided.Keys <= KeysOf(manifest) && Passes(manifest, provided)
    ensures var values := Values(manifest, provided);
      values.Keys == KeysOf(manifest) && forall f :: f in values ==> Anchored(f) && !values[f].Object?
  {
    OverridingAllowed(manifest.fields, provided);
    ValuesFit(manifest, Values(manifest, provided));
  }

  lemma AnsweredProvided(manifest: Manifest, input: Json, size: Json -> nat, document: Json) returns (provided: Flat)
    requires input.Object? && MayAnswer(manifest, input, size, Success(document))
    ensures Usable(manifest.fields, |manifest.fields|) && Sound("", input, KeysOf(manifest))
    ensures Collected(provided, input, KeysOf(manifest)) && Finish(manifest, provided, size) == Success(document)
    ensures provided.Keys <= KeysOf(manifest)
  {
    provided :| Collected(provided, input, KeysOf(manifest)) && Success(document) == Finish(manifest, provided, size);
    ProvidedWithin(input, KeysOf(manifest), provided);
  }

  /** Choices that agree on what is shown nest to the same document. */
  lemma AgreeingChoices(manifest: Manifest, input: Json, p: Flat, q: Flat)
    requires Usable(manifest.fields, |manifest.fields|) && KeysAnchored(manifest) && input.Object?
    requires NoShownAliases(input, KeysOf(manifest)) && Passes(manifest, p) && Passes(manifest, q)
    requires Collected(p, input, KeysOf(manifest)) && Collected(q, input, KeysOf(manifest))
    ensures Nested(Values(manifest, p)) == Nested(Values(manifest, q))
  {
    var a, b, keys := Values(manifest, p), Values(manifest, q), KeysOf(manifest);
    ProvidedWithin(input, keys, p);
    ProvidedWithin(input, keys, q);
    ValuesAre(manifest, p);
    ValuesAre(manifest, q);
    SameSpelled(input, keys, p, q);
    OverlaysAgree(Defaults(manifest.fields, |manifest.fields|), p, q, keys);
    SameDocumentIff(a, b);
  }

  lemma OverlaysAgree(defaults: Flat, p: Flat, q: Flat, keys: set<string>)
    requires (defaults + p).Keys == keys == (defaults + q).Keys && forall d :: d in p <==> d in q
    requires forall d :: d in p && !Covered(keys, d) ==> p[d] == q[d]
    ensures Shown(defaults + p) == Shown(defaults + q)
  {
  }

  lemma SameSpelled(input: Json, keys: set<string>, p: Flat, q: Flat)
    requires input.Object? && Collected(p, input, keys) && Collected(q, input, keys) && NoShownAliases(input, keys)
    ensures forall d :: d in p <==> d in q
    ensures forall d :: d in p && !Covered(keys, d) ==> p[d] == q[d]
  {
    forall d ensures d in p <==> d in q {
      if d in p { assert Spells("", input, keys, d, p[d]); }
      if d in q { assert Spells("", input, keys, d, q[d]); }
    }
    forall d | d in p && !Covered(keys, d) ensures p[d] == q[d] {
      assert Spells("", input, keys, d, p[d]) && Spells("", input, keys, d, q[d]);
    }
  }

  lemma SwappedCollects(input: Json, keys: set<string>, provided: Flat, d: string, w: Json)
    requires input.Object? && Collected(provided, input, keys) && Spells("", input, keys, d, w)
    ensures d in provided && Collected(provided[d := w], input, keys)
  {
  }

  /** Different values for a shown key never nest to one document. */
  lemma OtherValueShows(manifest: Manifest, provided: Flat, d: string, w: Json)
    requires Usable(manifest.fields, |manifest.fields|) && KeysAnchored(manifest)
    requires provided.Keys <= KeysOf(manifest) && d in provided && provided[d] != w && !Covered(KeysOf(manifest), d)
    requires Passes(manifest, provided) && Passes(manifest, provided[d := w])
    ensures Nested(Values(manifest, provided)) != Nested(Values(manifest, provided[d := w]))
  {
    ValuesAre(manifest, provided);
    ValuesAre(manifest, provided[d := w]);
    OtherShown(Values(manifest, provided), Values(manifest, provided[d := w]), d);
  }

  lemma OtherShown(a: Flat, b: Flat, d: string)
    requires a.Keys == b.Keys && forall f :: f in a ==> Anchored(f) && !a[f].Object? && !b[f].Object?
    requires d in a && !Covered(a.Keys, d) && a[d] != b[d]
    ensures Nested(a) != Nested(b)
  {
    SameDocumentIff(a, b);
    assert d in Shown(a) && d in Shown(b);
  }

  lemma AliasSwaps(input: Json, keys: set<string>, provided: Flat) returns (d: string, w: Json)
    requires input.Object? && Collected(provided, input, keys) && !NoShownAliases(input, keys)
    ensures d in provided && provided[d] != w && !Covered(keys, d) && Collected(provided[d := w], input, keys)
  {
    var v, u: Json;
    d, v, u :| !Covered(keys, d) && Spells("", input, keys, d, v) && Spells("", input, keys, d, u) && v != u;
    w := if provided[d] == v then u else v;
    SwappedCollects(input, keys, provided, d, w);
  }

  lemma AnswersFinish(manifest: Manifest, input: Json, keys: set<string>, size: Json -> nat, provided: Flat)
    ensures (Usable(manifest.fields, |manifest.fields|) && keys == KeysOf(manifest) && input.Object? &&
             Sound("", input, keys) && Collected(provided, input, keys)) ==>
            MayAnswer(manifest, input, size, Finish(manifest, provided, size))
  {
  }

  lemma {:induction false} AnotherAnswer(manifest: Manifest, input: Json, size: Json -> nat, document: Json)
    returns (r: Result<Json>)
    requires KeysAnchored(manifest) && input.Object? && MayAnswer(manifest, input, size, Success(document))
    requires !NoShownAliases(input, KeysOf(manifest)) || !EveryChoicePasses(manifest, input)
    ensures MayAnswer(manifest, input, size, r) && r != Success(document)
  {
    var provided := AnsweredProvided(manifest, input, size, document);
    var other: Flat;
    if !NoShownAliases(input, KeysOf(manifest)) {
      var d, w := AliasSwaps(input, KeysOf(manifest), provided);
      other := provided[d := w];
      FinishIs(manifest, provided, size);
      FinishIs(manifest, other, size);
      if Passes(manifest, other) { OtherValueShows(manifest, provided, d, w); }
    } else {
      other :| Collected(other, input, KeysOf(manifest)) && !Passes(manifest, other);
      FinishIs(manifest, other, size);
    }
    r := Finish(manifest, other, size);
    AnswersFinish(manifest, input, KeysOf(manifest), size, other);
  }

  lemma {:induction false} OneAnswer(
    manifest: Manifest, input: Json, size: Json -> nat, document: Json, r: Result<Json>)
    requires KeysAnchored(manifest) && input.Object? && MayAnswer(manifest, input, size, Success(document))
    requires NoShownAliases(input, KeysOf(manifest)) && EveryChoicePasses(manifest, input)
    requires MayAnswer(manifest, input, size, r)
    ensures r == Success(document)
  {
    var provided := AnsweredProvided(manifest, input, size, document);
    var other :| Collected(other, input, KeysOf(manifest)) && r == Finish(manifest, other, size);
    FinishIs(manifest, provided, size);
    FinishIs(manifest, other, size);
    AgreeingChoices(manifest, input, provided, other);
  }

  lemma AnswersAre(manifest: Manifest, submission: Submission, size: Json -> nat, document: Json, r: Result<Json>)
    requires MayReturn(manifest, submission, size, Success(document))
    ensures InputOf(submission).Object?
    ensures MayReturn(manifest, submission, size, r) <==> MayAnswer(manifest, InputOf(submission), size, r)
  {
  }

  /**
   * An accepted configuration is the only possible answer exactly when no key
   * that shows is spelled with two values, every spelled value is allowed, and
   * the suppression pack's texts fit together whichever are taken.
   */
  lemma OrderMattersIff(manifest: Manifest, submission: Submission, size: Json -> nat, document: Json)
    requires KeysAnchored(manifest) && MayReturn(manifest, submission, size, Success(document))
    ensures InputOf(submission).Object?
    ensures (forall r :: MayReturn(manifest, submission, size, r) ==> r == Success(document)) <==>
            var input := InputOf(submission);
            NoShownAliases(input, KeysOf(manifest)) && SpelledAllowed(manifest, input) && TextsRelated(manifest, input)
  {
    var input := InputOf(submission);
    AnswersAre(manifest, submission, size, document, Success(document));
    var provided := AnsweredProvided(manifest, input, size, document);
    EveryChoicePassesIff(manifest, input, provided);
    if NoShownAliases(input, KeysOf(manifest)) && EveryChoicePasses(manifest, input) {
      forall r | MayReturn(manifest, submission, size, r) ensures r == Success(document) {
        AnswersAre(manifest, submission, size, document, r);
        OneAnswer(manifest, input, size, document, r);
      }
    } else {
      var r := AnotherAnswer(manifest, input, size, document);
      AnswersAre(manifest, submission, size, document, r);
    }
  }

  // ----------------------------------------------------- value by value

  /** The collected values hold any text that the key may hold, by changing that key alone. */
  lemma ChooseText(manifest: Manifest, input: Json, provided: Flat, key: string, text: string) returns (chosen: Flat)
    requires input.Object? && Collected(provided, input, KeysOf(manifest)) && MayHold(manifest, input, key, text)
    ensures Collected(chosen, input, KeysOf(manifest)) && TextAt(Values(manifest, chosen), key) == text
    ensures forall other :: other != key ==>
      TextAt(Values(manifest, chosen), other) == TextAt(Values(manifest, provided), other)
  {
    if SomeSpelled(input, KeysOf(manifest), key) {
      var v :| Spells("", input, KeysOf(manifest), key, v) && TextOf(v) == text;
      SwappedCollects(input, KeysOf(manifest), provided, key, v);
      chosen := provided[key := v];
      TextsOver(Defaults(manifest.fields, |manifest.fields|), provided, key, v);
    } else {
      CollectedIsSpelled(input, KeysOf(manifest), provided, key);
      chosen := provided;
    }
  }

  lemma TextsOver(defaults: Flat, provided: Flat, key: string, v: Json)
    ensures TextAt(defaults + provided[key := v], key) == TextOf(v)
    ensures forall other :: other != key ==>
      TextAt(defaults + provided[key := v], other) == TextAt(defaults + provided, other)
  {
  }

  lemma CollectedIsSpelled(input: Json, keys: set<string>, provided: Flat, key: string)
    requires input.Object? && Collected(provided, input, keys)
    ensures key in provided ==> SomeSpelled(input, keys, key)
  {
    if key in provided { assert Spells("", input, keys, key, provided[key]); }
  }

  /** What the collected values hold, they may hold. */
  lemma HeldMayBe(manifest: Manifest, input: Json, provided: Flat, key: string)
    requires input.Object? && Collected(provided, input, KeysOf(manifest))
    ensures MayHold(manifest, input, key, TextAt(Values(manifest, provided), key))
  {
    if key in provided { assert Spells("", input, KeysOf(manifest), key, provided[key]); }
  }

  lemma ChoicesAllowed(manifest: Manifest, input: Json, provided: Flat)
    requires input.Object? && Collected(provided, input, KeysOf(manifest)) && EveryChoicePasses(manifest, input)
    ensures SpelledAllowed(manifest, input)
  {
    var kinds := Kinds(manifest.fields, |manifest.fields|);
    forall d, v | Spells("", input, kinds.Keys, d, v) ensures d in kinds && ValueAllowed(kinds[d], v) {
      SwappedCollects(input, KeysOf(manifest), provided, d, v);
      assert Passes(manifest, provided[d := v]);
    }
  }

  lemma ChoicesRelated(manifest: Manifest, input: Json, provided: Flat)
    requires input.Object? && Collected(provided, input, KeysOf(manifest)) && EveryChoicePasses(manifest, input)
    ensures TextsRelated(manifest, input)
  {
    assert SUPPRESSION_REFERENCE != SUPPRESSION_REASON && SUPPRESSION_REASON != SUPPRESSION_EXPIRY;
    assert SUPPRESSION_REFERENCE != SUPPRESSION_EXPIRY;
    if manifest.id == SUPPRESSION_PACK {
      forall reference, reason, expires |
        && MayHold(manifest, input, SUPPRESSION_REFERENCE, reference)
        && MayHold(manifest, input, SUPPRESSION_REASON, reason)
        && MayHold(manifest, input, SUPPRESSION_EXPIRY, expires)
        ensures Related(reference, reason, expires)
      {
        var one := ChooseText(manifest, input, provided, SUPPRESSION_REFERENCE, reference);
        var two := ChooseText(manifest, input, one, SUPPRESSION_REASON, reason);
        var three := ChooseText(manifest, input, two, SUPPRESSION_EXPIRY, expires);
        assert Passes(manifest, three);
      }
    }
  }

  lemma ChoicePasses(manifest: Manifest, input: Json, provided: Flat)
    requires input.Object? && Collected(provided, input, KeysOf(manifest))
    requires SpelledAllowed(manifest, input) && TextsRelated(manifest, input)
    ensures Passes(manifest, provided)
  {
    HeldMayBe(manifest, input, provided, SUPPRESSION_REFERENCE);
    HeldMayBe(manifest, input, provided, SUPPRESSION_REASON);
    HeldMayBe(manifest, input, provided, SUPPRESSION_EXPIRY);
  }

  /** Every choice passes exactly when each spelled value is allowed and the texts always fit together. */
  lemma EveryChoicePassesIff(manifest: Manifest, input: Json, provided: Flat)
    requires input.Object? && Collected(provided, input, KeysOf(manifest))
    ensures EveryChoicePasses(manifest, input) <==> SpelledAllowed(manifest, input) && TextsRelated(manifest, input)
  {
    if EveryChoicePasses(manifest, input) {
      ChoicesAllowed(manifest, input, provided);
      ChoicesRelated(manifest, input, provided);
    } else if SpelledAllowed(manifest, input) && TextsRelated(manifest, input) {
      forall other | Collected(other, input, KeysOf(manifest)) ensures Passes(manifest, other) {
        ChoicePasses(manifest, input, other);
      }
    }
  }

  lemma AliasesAllShow(input: Json, keys: set<string>)
    requires input.Object? && PrefixFree(keys)
    ensures NoShownAliases(input, keys) <==> NoAliases(input, keys)
  {
    if NoShownAliases(input, keys) {
      forall d, v, w | Spells("", input, keys, d, v) && Spells("", input, keys, d, w) ensures v == w {
        SpelledIsKey("", input, keys, d, v);
        assert !Covered(keys, d);
      }
    }
  }

  /** Where no field key lies under another, it is the only possible answer exactly when its input has no aliases. */
  lemma AliasesDecideOrder(manifest: Manifest, submission: Submission, size: Json -> nat, document: Json)
    requires KeysAnchored(manifest) && PrefixFree(KeysOf(manifest))
    requires MayReturn(manifest, submission, size, Success(document))
    ensures InputOf(submission).Object?
    ensures (forall r :: MayReturn(manifest, submission, size, r) ==> r == Success(document)) <==>
            NoAliases(InputOf(submission), KeysOf(manifest))
  {
    var input := InputOf(submission);
    OrderMattersIff(manifest, submission, size, document);
    AliasesAllShow(input, KeysOf(manifest));
    AnswersAre(manifest, submission, size, document, Success(document));
    var provided := AnsweredProvided(manifest, input, size, document);
    EveryChoicePassesIff(manifest, input, provided);
    if NoAliases(input, KeysOf(manifest)) {
      FinishIs(manifest, provided, size);
      forall other | Collected(other, input, KeysOf(manifest)) ensures Passes(manifest, other) {
        CollectedUnique(input, KeysOf(manifest), provided, other);
      }
    }
  }

  // -------------------------------------------------------------- an example

  const ALIASED_FIELDS := [UIField("scan.deep", Boolean, Some(Bool(false)))]
  const ALIASED_INNER := Object(map["deep" := Bool(false)])
  const ALIASED_INPUT := Object(map["scan.deep" := Bool(true), "scan" := ALIASED_INNER])

  function AliasedAnswer(kept: bool): Json {
    Object(map["scan" := Object(map["deep" := Bool(kept)])])
  }

  /** One key spelled twice: the walk decides which value is kept. */
  lemma AliasesDependOnOrder(manifest: Manifest, size: Json -> nat, kept: bool)
    requires manifest.fields == ALIASED_FIELDS && manifest.id != SUPPRESSION_PACK
    requires size(AliasedAnswer(kept)) <= MAX_BYTES
    ensures MayReturn(manifest, Document(47, ALIASED_INPUT), size, Success(AliasedAnswer(kept)))
  {
    var provided: Flat := map["scan.deep" := Bool(kept)];
    AliasCollected(kept);
    AliasFinish(manifest, provided, size, kept);
    AliasAnswers(manifest, ALIASED_INPUT, provided, size);
  }

  lemma AliasAnswers(manifest: Manifest, input: Json, provided: Flat, size: Json -> nat)
    requires manifest.fields == ALIASED_FIELDS && input.Object?
    requires Sound("", input, {"scan.deep"}) && Collected(provided, input, {"scan.deep"})
    ensures MayReturn(manifest, Document(47, input), size, Finish(manifest, provided, size))
  {
    AliasKinds();
    assert KeysOf(manifest) == {"scan.deep"};
    AnswersFinish(manifest, input, KeysOf(manifest), size, provided);
  }

  lemma AliasFinish(manifest: Manifest, provided: Flat, size: Json -> nat, kept: bool)
    requires manifest.fields == ALIASED_FIELDS && manifest.id != SUPPRESSION_PACK
    requires provided == map["scan.deep" := Bool(kept)] && size(AliasedAnswer(kept)) <= MAX_BYTES
    ensures Finish(manifest, provided, size) == Success(AliasedAnswer(kept))
  {
    AliasPasses(manifest, provided, kept);
    NestedSingle(Bool(kept));
    FinishIs(manifest, provided, size);
  }

  lemma AliasPasses(manifest: Manifest, provided: Flat, kept: bool)
    requires manifest.fields == ALIASED_FIELDS && manifest.id != SUPPRESSION_PACK
    requires provided == map["scan.deep" := Bool(kept)]
    ensures Passes(manifest, provided) && Values(manifest, provided) == provided
  {
    AliasKinds();
  }

  lemma AliasKinds()
    ensures Usable(ALIASED_FIELDS, 1) && Kinds(ALIASED_FIELDS, 1) == map["scan.deep" := Boolean]
    ensures Defaults(ALIASED_FIELDS, 1) == map["scan.deep" := Bool(false)]
  {
    assert Kinds(ALIASED_FIELDS, 0) == map[];
    assert Defaults(ALIASED_FIELDS, 0) == map[];
  }

  lemma AliasSpellings()
    ensures Sound("", ALIASED_INPUT, {"scan.deep"})
    ensures Spells("", ALIASED_INPUT, {"scan.deep"}, "scan.deep", Bool(false))
    ensures Spells("", ALIASED_INPUT, {"scan.deep"}, "scan.deep", Bool(true))
  {
    var keys := {"scan.deep"};
    assert Candidate("scan", "deep") == "scan.deep";
    assert Under("scan", "scan.deep");
    assert HasChildren(keys, "scan");
    assert SoundAt(ALIASED_INNER, "deep", "scan.deep", keys);
    assert SpellsAt(ALIASED_INNER, "deep", "scan.deep", keys, "scan.deep", Bool(false));
    assert SpellsAt(ALIASED_INPUT, "scan", "scan", keys, "scan.deep", Bool(false));
    assert SpellsAt(ALIASED_INPUT, "scan.deep", "scan.deep", keys, "scan.deep", Bool(true));
  }

  lemma AliasCollected(kept: bool)
    ensures Sound("", ALIASED_INPUT, {"scan.deep"})
    ensures Collected(map["scan.deep" := Bool(kept)], ALIASED_INPUT, {"scan.deep"})
  {
    AliasSpellings();
    forall d, v | Spells("", ALIASED_INPUT, {"scan.deep"}, d, v) ensures d == "scan.deep" {
      SpelledIsKey("", ALIASED_INPUT, {"scan.deep"}, d, v);
    }
  }

  lemma SortedSingle(key: string)
    ensures Sorted({key}) == [key]
  {
    assert |{key}| == 1;
    assert Sorted({key})[0] in Sorted({key});
  }

  lemma SplitScanDeep()
    ensures SplitDots("scan.deep") == ["scan", "deep"]
  {
    FirstDotAt("scan.deep", 4);
    assert Head("scan.deep") == "scan" && Tail("scan.deep") == "deep";
  }

  lemma NestedSingle(value: Json)
    ensures Nested(map["scan.deep" := value]) == Object(map["scan" := Object(map["deep" := value])])
  {
    var values, order := map["scan.deep" := value], ["scan.deep"];
    assert values.Keys == {"scan.deep"};
    SortedSingle("scan.deep");
    SplitScanDeep();
    SetScanDeep(value);
    assert Rebuilt(values, order, 0) == map[];
    assert Rebuilt(values, order, 1) == SetValue(map[], SplitDots("scan.deep"), value);
  }

  lemma SetScanDeep(value: Json)
    ensures SetValue(map[], ["scan", "deep"], value) == map["scan" := Object(map["deep" := value])]
  {
    assert ["scan", "deep"][1..] == ["deep"];
    assert SetValue(map[], ["deep"], value) == map["deep" := value];
  }
}
