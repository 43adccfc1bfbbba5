/**
 * The capability configuration normaliser: nested input is flattened to
 * dotted keys, checked against the manifest's fields, completed with their
 * defaults and nested again.
 */
module CapabilityConfig {
  import opened Documents
  import opened Ordering
  import opened DottedKeys
  import opened Texts

  // -------------------------------------------------------------- manifests

  datatype FieldKind =
    | Boolean
    | Enumeration(allowed: seq<string>)
    | Numeric(inBounds: string -> bool)
    | Textual(maxLength: nat, format: string -> bool)
    | UnknownKind

  /** A field's default is None when its text does not decode. */
  datatype UIField = UIField(key: string, kind: FieldKind, fallback: Option<Json>)

  datatype Manifest = Manifest(id: string, fields: seq<UIField>)

  /** What the caller supplied: nothing, text that does not decode, or a document. */
  datatype Submission = Nothing | Garbled(length: nat) | Document(length: nat, content: Json)

  const MAX_BYTES: nat := 65536

  /** The closed contract of a field's value; a value is accepted as it is or refused. */
  predicate ValueAllowed(kind: FieldKind, value: Json) {
    match kind
    case Boolean => value.Bool?
    case Enumeration(allowed) => value.String? && value.chars in allowed
    case Numeric(inBounds) => value.Number? && inBounds(value.text)
    case Textual(maxLength, format) =>
      value.String? && (maxLength > 0 ==> ByteLength(value.chars) <= maxLength) && format(value.chars)
    case UnknownKind => false
  }

  lemma AllowedIsScalar(kind: FieldKind, value: Json)
    ensures ValueAllowed(kind, value) ==> !value.Object?
  {
  }

  function Kinds(fields: seq<UIField>, n: nat): map<string, FieldKind>
    requires n <= |fields|
  {
    if n == 0 then map[] else Kinds(fields, n - 1)[fields[n - 1].key := fields[n - 1].kind]
  }

  /** The defaults of the first n fields, as far as they decode. */
  function Defaults(fields: seq<UIField>, n: nat): Flat
    requires n <= |fields|
  {
    if n == 0 then map[]
    else if fields[n - 1].fallback.None? then Defaults(fields, n - 1)
    else Defaults(fields, n - 1)[fields[n - 1].key := fields[n - 1].fallback.value]
  }

  /** The first n fields have distinct keys and allowed defaults. */
  ghost predicate Usable(fields: seq<UIField>, n: nat)
    requires n <= |fields|
  {
    && (forall i, j :: 0 <= i < j < n ==> fields[i].key != fields[j].key)
    && (forall i :: 0 <= i < n ==> fields[i].fallback.Some? && ValueAllowed(fields[i].kind, fields[i].fallback.value))
  }

  ghost predicate AllAllowed(kinds: map<string, FieldKind>, values: Flat) {
    forall key :: key in values ==> key in kinds && ValueAllowed(kinds[key], values[key])
  }

  lemma {:induction false} DefaultsAllowed(fields: seq<UIField>, n: nat)
    requires n <= |fields| && Usable(fields, n)
    ensures Kinds(fields, n).Keys == Defaults(fields, n).Keys
    ensures forall key :: key in Kinds(fields, n) <==> exists i :: 0 <= i < n && fields[i].key == key
    ensures AllAllowed(Kinds(fields, n), Defaults(fields, n))
  {
    if n > 0 {
      DefaultsAllowed(fields, n - 1);
      forall key | key in Kinds(fields, n) ensures exists i :: 0 <= i < n && fields[i].key == key {
        if key == fields[n - 1].key { assert fields[n - 1].key == key; }
      }
    }
  }

  // -------------------------------------------------------------- relations

  const SUPPRESSION_PACK := "sbom-fmea-security"
  const SUPPRESSION_REFERENCE := "suppression.reference"
  const SUPPRESSION_REASON := "suppression.reason"
  const SUPPRESSION_EXPIRY := "suppression.expires_at"

  function TextAt(values: Flat, key: string): string {
    if key in values && values[key].String? then values[key].chars else ""
  }

  predicate Related(reference: string, reason: string, expires: string) {
    if reference != "" then !AllSpace(reason) && expires != "" else reason == "" && expires == ""
  }

  predicate RelationsHold(pack: string, values: Flat) {
    pack == SUPPRESSION_PACK ==>
      Related(TextAt(values, SUPPRESSION_REFERENCE), TextAt(values, SUPPRESSION_REASON),
        TextAt(values, SUPPRESSION_EXPIRY))
  }

  // -------------------------------------------------------------- flattening

  predicate HasChildren(keys: set<string>, candidate: string) {
    exists f :: f in keys && Under(candidate, f)
  }

  /** Flattening reports no error, in whatever order the maps are walked. */
  predicate Sound(prefix: string, input: Json, keys: set<string>)
    requires input.Object?
    decreases input
  {
    forall key :: key in input.fields ==> SoundAt(input, key, Candidate(prefix, key), keys)
  }

  predicate SoundAt(input: Json, key: string, candidate: string, keys: set<string>)
    requires input.Object? && key in input.fields
    decreases input, 0
  {
    var value := input.fields[key];
    if candidate in keys then !value.Object?
    else HasChildren(keys, candidate) && value.Object? && Sound(candidate, value, keys)
  }

  /** Some path through the input spells the dotted key and holds the value there. */
  ghost predicate Spells(prefix: string, input: Json, keys: set<string>, dotted: string, value: Json)
    requires input.Object?
    decreases input
  {
    exists key :: key in input.fields && SpellsAt(input, key, Candidate(prefix, key), keys, dotted, value)
  }

  ghost predicate SpellsAt(input: Json, key: string, candidate: string, keys: set<string>, dotted: string, value: Json)
    requires input.Object? && key in input.fields
    decreases input, 0
  {
    var inner := input.fields[key];
    if candidate in keys then candidate == dotted && inner == value
    else inner.Object? && Spells(candidate, inner, keys, dotted, value)
  }

  /** The map holds one spelled value for each dotted key that the input spells, and nothing else. */
  ghost predicate Collected(provided: Flat, input: Json, keys: set<string>)
    requires input.Object?
  {
    && (forall d :: d in provided ==> Spells("", input, keys, d, provided[d]))
    && (forall d, v :: Spells("", input, keys, d, v) ==> d in provided)
  }

  /** No two paths spell the same dotted key with different values. */
  ghost predicate NoAliases(input: Json, keys: set<string>)
    requires input.Object?
  {
    forall d, v, w :: Spells("", input, keys, d, v) && Spells("", input, keys, d, w) ==> v == w
  }

  lemma {:induction false} SpelledIsKey(prefix: string, input: Json, keys: set<string>, dotted: string, value: Json)
    requires input.Object? && Spells(prefix, input, keys, dotted, value)
    ensures dotted in keys
    decreases input
  {
    var key :| key in input.fields && SpellsAt(input, key, Candidate(prefix, key), keys, dotted, value);
    if Candidate(prefix, key) !in keys {
      SpelledIsKey(Candidate(prefix, key), input.fields[key], keys, dotted, value);
    }
  }

  // -------------------------------------------------------------- normalising

  function Rebuilt(values: Flat, order: seq<string>, n: nat): map<string, Json>
    requires n <= |order| && forall i :: 0 <= i < n ==> order[i] in values
  {
    if n == 0 then map[] else SetValue(Rebuilt(values, order, n - 1), SplitDots(order[n - 1]), values[order[n - 1]])
  }

  /** The nested document of a flat configuration, written in key order. */
  function Nested(values: Flat): Json {
    var order := Sorted(values.Keys);
    Object(Rebuilt(values, order, |order|))
  }

  /** What is answered once the provided values are known. */
  ghost function Finish(manifest: Manifest, provided: Flat, size: Json -> nat): Result<Json> {
    var n := |manifest.fields|;
    var values := Defaults(manifest.fields, n) + provided;
    if && AllAllowed(Kinds(manifest.fields, n), provided) && RelationsHold(manifest.id, values)
       && size(Nested(values)) <= MAX_BYTES
    then Success(Nested(values))
    else Failure
  }

  /** Some walk over the input maps makes the normaliser answer r. */
  ghost predicate MayReturn(manifest: Manifest, submission: Submission, size: Json -> nat, r: Result<Json>) {
    match submission
    case Nothing => MayAnswer(manifest, Object(map[]), size, r)
    case Garbled(_) => r == Failure
    case Document(length, content) =>
      if length <= MAX_BYTES && content.Object? then MayAnswer(manifest, content, size, r) else r == Failure
  }

  ghost predicate MayAnswer(manifest: Manifest, input: Json, size: Json -> nat, r: Result<Json>)
    requires input.Object?
  {
    var fields := manifest.fields;
    if Usable(fields, |fields|) && Sound("", input, Kinds(fields, |fields|).Keys)
    then exists provided ::
      Collected(provided, input, Kinds(fields, |fields|).Keys) && r == Finish(manifest, provided, size)
    else r == Failure
  }

  // -------------------------------------------- flattening undoes the nesting

  /** The values of the first n keys of the order. */
  function Taken(values: Flat, order: seq<string>, n: nat): Flat
    requires n <= |order| && forall i :: 0 <= i < n ==> order[i] in values
  {
    if n == 0 then map[] else Taken(values, order, n - 1)[order[n - 1] := values[order[n - 1]]]
  }

  lemma {:induction false} TakenAt(values: Flat, order: seq<string>, n: nat, k: string)
    requires n <= |order| && forall i :: 0 <= i < n ==> order[i] in values
    ensures k in Taken(values, order, n) <==> exists i :: 0 <= i < n && order[i] == k
    ensures k in Taken(values, order, n) ==> k in values && Taken(values, order, n)[k] == values[k]
  {
    if n > 0 { TakenAt(values, order, n - 1, k); }
  }

  lemma TakenAll(values: Flat)
    ensures Taken(values, Sorted(values.Keys), |values.Keys|) == values
  {
    var order := Sorted(values.Keys);
    forall k ensures k in Taken(values, order, |order|) <==> k in values {
      TakenAt(values, order, |order|, k);
      assert k in order <==> exists i :: 0 <= i < |order| && order[i] == k;
    }
    forall k | k in values ensures Taken(values, order, |order|)[k] == values[k] { TakenAt(values, order, |order|, k); }
  }

  lemma TakenWithin(values: Flat, order: seq<string>, n: nat)
    requires n < |order| && forall i :: 0 <= i < |order| ==> order[i] in values
    requires forall i, j :: 0 <= i < j < |order| ==> order[i] != order[j]
    ensures Taken(values, order, n).Keys <= values.Keys && order[n] !in Taken(values, order, n)
  {
    forall k | k in Taken(values, order, n) ensures k in values { TakenAt(values, order, n, k); }
    TakenAt(values, order, n, order[n]);
  }

  lemma OneMoreFits(node: Json, before: Flat, key: string, values: Flat)
    requires node.Object? && key !in before && key in values && before.Keys <= values.Keys
    requires PrefixFree(values.Keys) && forall f :: f in values ==> Anchored(f)
    ensures Fits(node, before, "") ==>
      Fits(Object(SetValue(node.fields, SplitDots(key), values[key])), before[key := values[key]], "")
  {
    if Fits(node, before, "") { SetFits(node, before, "", key, values[key]); }
  }

  /** Each key of the values once. */
  predicate Orders(values: Flat, order: seq<string>) {
    && (forall i :: 0 <= i < |order| ==> order[i] in values)
    && forall i, j :: 0 <= i < j < |order| ==> order[i] != order[j]
  }

  ghost predicate RebuiltFits(values: Flat, order: seq<string>, n: nat)
    requires Orders(values, order) && n <= |order|
  {
    Fits(Object(Rebuilt(values, order, n)), Taken(values, order, n), "")
  }

  lemma OneMoreRebuilt(values: Flat, order: seq<string>, n: nat)
    requires Orders(values, order) && n < |order| && RebuiltFits(values, order, n)
    requires PrefixFree(values.Keys) && forall f :: f in values ==> Anchored(f)
    ensures RebuiltFits(values, order, n + 1)
  {
    TakenWithin(values, order, n);
    OneMoreFits(Object(Rebuilt(values, order, n)), Taken(values, order, n), order[n], values);
  }

  lemma {:induction false} AllRebuiltFit(values: Flat, order: seq<string>, n: nat)
    requires Orders(values, order) && n <= |order|
    requires PrefixFree(values.Keys) && forall f :: f in values ==> Anchored(f)
    ensures RebuiltFits(values, order, n)
  {
    if n > 0 {
      AllRebuiltFit(values, order, n - 1);
      OneMoreRebuilt(values, order, n - 1);
    }
  }

  lemma NestedFits(values: Flat)
    requires PrefixFree(values.Keys) && forall f :: f in values ==> Anchored(f)
    ensures Fits(Nested(values), values, "")
  {
    var order := Sorted(values.Keys);
    SortedAscending(values.Keys);
    AscendingDistinct(order);
    AllRebuiltFit(values, order, |order|);
    TakenAll(values);
  }

  lemma {:induction false} FittingIsSound(node: Json, values: Flat, prefix: string)
    requires node.Object? && Fits(node, values, prefix)
    requires forall f :: f in values ==> !values[f].Object?
    ensures Sound(prefix, node, values.Keys)
    decreases node
  {
    forall k | k in node.fields ensures SoundAt(node, k, Candidate(prefix, k), values.Keys) {
      var c := Candidate(prefix, k);
      assert FitsAt(node, k, values, c);
      assert Reaches(values.Keys, c);
      if c !in values { FittingIsSound(node.fields[k], values, c); }
    }
  }

  lemma {:induction false} FittingSpellsOnly(node: Json, values: Flat, prefix: string, d: string, v: Json)
    requires node.Object? && Fits(node, values, prefix)
    requires Spells(prefix, node, values.Keys, d, v)
    ensures d in values && values[d] == v
    decreases node
  {
    var k :| k in node.fields && SpellsAt(node, k, Candidate(prefix, k), values.Keys, d, v);
    assert FitsAt(node, k, values, Candidate(prefix, k));
    if Candidate(prefix, k) !in values {
      FittingSpellsOnly(node.fields[k], values, Candidate(prefix, k), d, v);
    }
  }

  lemma {:induction false} FittingSpellsAll(node: Json, values: Flat, prefix: string, rest: string)
    requires node.Object? && Fits(node, values, prefix) && PrefixFree(values.Keys)
    requires forall f :: f in values ==> Anchored(f)
    requires Candidate(prefix, rest) in values
    ensures Spells(prefix, node, values.Keys, Candidate(prefix, rest), values[Candidate(prefix, rest)])
    decreases |rest|
  {
    var d, k, c := Candidate(prefix, rest), Head(rest), Candidate(prefix, Head(rest));
    UnderHead(k, rest);
    UnderCandidates(prefix, k, rest);
    assert Reaches(values.Keys, c) by { assert d in values.Keys; }
    assert k in node.fields;
    assert FitsAt(node, k, values, c);
    if '.' in rest {
      assert Under(c, d);
      assert c !in values.Keys;
      AnchoredCandidate(values.Keys, prefix, k);
      CandidateStep(prefix, rest);
      FittingSpellsAll(node.fields[k], values, c, Tail(rest));
    }
    assert SpellsAt(node, k, c, values.Keys, d, values[d]);
  }

  lemma FittingSpells(node: Json, values: Flat, d: string, v: Json)
    requires node.Object? && Fits(node, values, "") && PrefixFree(values.Keys)
    requires forall f :: f in values ==> Anchored(f)
    ensures Spells("", node, values.Keys, d, v) <==> d in values && values[d] == v
  {
    if Spells("", node, values.Keys, d, v) { FittingSpellsOnly(node, values, "", d, v); }
    if d in values { FittingSpellsAll(node, values, "", d); }
  }

  ghost predicate SpellsExactly(node: Json, values: Flat)
    requires node.Object?
  {
    forall d, v :: Spells("", node, values.Keys, d, v) <==> d in values && values[d] == v
  }

  lemma ExactlyCollects(node: Json, values: Flat, provided: Flat)
    requires node.Object? && SpellsExactly(node, values)
    ensures Collected(provided, node, values.Keys) <==> provided == values
  {
    if Collected(provided, node, values.Keys) {
      forall d | d in provided ensures d in values && values[d] == provided[d] {
        assert Spells("", node, values.Keys, d, provided[d]);
      }
      forall d | d in values ensures d in provided {
        assert Spells("", node, values.Keys, d, values[d]);
      }
      assert provided.Keys == values.Keys;
    }
  }

  // --------------------------------------------- keys that overwrite one another

  lemma {:induction false} ObjectAtKeyIsUnsound(prefix: string, node: Json, key: string, keys: set<string>)
    requires node.Object? && ObjectAt(node, key) && Candidate(prefix, key) in keys
    requires forall f :: f in keys ==> Anchored(f)
    ensures !Sound(prefix, node, keys)
    decreases |key|
  {
    var k, c := Head(key), Candidate(prefix, Head(key));
    assert !SoundAt(node, k, c, keys) by {
      if '.' in key && c !in keys {
        UnderHead(k, key);
        UnderCandidates(prefix, k, key);
        assert Reaches(keys, c) by { assert Candidate(prefix, key) in keys; }
        AnchoredCandidate(keys, prefix, k);
        CandidateStep(prefix, key);
        ObjectAtKeyIsUnsound(c, node.fields[k], Tail(key), keys);
      }
    }
  }

  lemma {:induction false} OverwrittenStaysObject(values: Flat, order: seq<string>, n: nat, p: string, q: nat)
    requires q < n <= |order| && Ascending(order) && forall i :: 0 <= i < |order| ==> order[i] in values
    requires Under(p, order[q])
    ensures ObjectAt(Object(Rebuilt(values, order, n)), p)
  {
    var before, key := Rebuilt(values, order, n - 1), order[n - 1];
    if q == n - 1 {
      WritingBelowMakesObject(before, p, key, values[key]);
    } else {
      OverwrittenStaysObject(values, order, n - 1, p, q);
      UnderIsBelow(p, order[q]);
      BelowTransitive(p, order[q], key);
      BelowTotal(p, key);
      if Under(key, p) {
        UnderIsBelow(key, p);
        assert false;
      }
      WritingElsewhereKeepsObject(before, p, key, values[key]);
    }
  }

  lemma NestedUnsound(values: Flat)
    requires !PrefixFree(values.Keys) && forall f :: f in values ==> Anchored(f)
    ensures !Sound("", Nested(values), values.Keys)
  {
    var p, q :| p in values && q in values && Under(p, q);
    var order := Sorted(values.Keys);
    SortedAscending(values.Keys);
    var i :| 0 <= i < |order| && order[i] == q;
    OverwrittenStaysObject(values, order, |order|, p, i);
    ObjectAtKeyIsUnsound("", Nested(values), p, values.Keys);
  }

  // ------------------------------------------------------------ main theorems

  ghost predicate KeysAnchored(manifest: Manifest) {
    forall i :: 0 <= i < |manifest.fields| ==> Anchored(manifest.fields[i].key)
  }

  ghost function KeysOf(manifest: Manifest): set<string> {
    Kinds(manifest.fields, |manifest.fields|).Keys
  }

  lemma AnsweredFrom(
    manifest: Manifest, submission: Submission, size: Json -> nat, document: Json)
    returns (values: Flat)
    requires MayReturn(manifest, submission, size, Success(document))
    ensures Usable(manifest.fields, |manifest.fields|)
    ensures values.Keys == KeysOf(manifest) && AllAllowed(Kinds(manifest.fields, |manifest.fields|), values)
    ensures RelationsHold(manifest.id, values) && document == Nested(values) && size(document) <= MAX_BYTES
  {
    var input := if submission.Nothing? then Object(map[]) else submission.content;
    var fields, n := manifest.fields, |manifest.fields|;
    var provided :|
      Collected(provided, input, KeysOf(manifest)) && Success(document) == Finish(manifest, provided, size);
    values := Defaults(fields, n) + provided;
    ProvidedWithin(input, KeysOf(manifest), provided);
    OverridingAllowed(fields, provided);
  }

  lemma ProvidedWithin(input: Json, keys: set<string>, provided: Flat)
    requires input.Object? && Collected(provided, input, keys)
    ensures provided.Keys <= keys
  {
    forall d | d in provided ensures d in keys { SpelledIsKey("", input, keys, d, provided[d]); }
  }

  lemma OverridingAllowed(fields: seq<UIField>, provided: Flat)
    ensures var kinds, values := Kinds(fields, |fields|), Defaults(fields, |fields|) + provided;
      Usable(fields, |fields|) && provided.Keys <= kinds.Keys && AllAllowed(kinds, provided) ==>
        values.Keys == kinds.Keys && AllAllowed(kinds, values)
  {
    if Usable(fields, |fields|) { DefaultsAllowed(fields, |fields|); }
  }

  lemma RefinishedIsSame(manifest: Manifest, values: Flat, size: Json -> nat)
    requires Usable(manifest.fields, |manifest.fields|)
    requires values.Keys == KeysOf(manifest) && AllAllowed(Kinds(manifest.fields, |manifest.fields|), values)
    requires RelationsHold(manifest.id, values) && size(Nested(values)) <= MAX_BYTES
    ensures Finish(manifest, values, size) == Success(Nested(values))
  {
    DefaultsAllowed(manifest.fields, |manifest.fields|);
    assert Defaults(manifest.fields, |manifest.fields|) + values == values;
  }

  lemma NestedCollectsItself(values: Flat, provided: Flat)
    requires PrefixFree(values.Keys) && forall f :: f in values ==> Anchored(f) && !values[f].Object?
    ensures Sound("", Nested(values), values.Keys)
    ensures Collected(provided, Nested(values), values.Keys) <==> provided == values
  {
    NestedFits(values);
    FittingIsSound(Nested(values), values, "");
    forall d, v ensures Spells("", Nested(values), values.Keys, d, v) <==> d in values && values[d] == v {
      FittingSpells(Nested(values), values, d, v);
    }
    ExactlyCollects(Nested(values), values, provided);
  }

  lemma AnswerFromNested(manifest: Manifest, values: Flat, size: Json -> nat, r: Result<Json>)
    requires Usable(manifest.fields, |manifest.fields|) && values.Keys == KeysOf(manifest)
    requires PrefixFree(values.Keys) && forall f :: f in values ==> Anchored(f) && !values[f].Object?
    ensures MayAnswer(manifest, Nested(values), size, r) <==> r == Finish(manifest, values, size)
  {
    NestedCollectsItself(values, values);
    forall provided | Collected(provided, Nested(values), values.Keys) ensures provided == values {
      NestedCollectsItself(values, provided);
    }
  }

  /** A normalised document normalises to itself exactly when no field key lies under another. */
  lemma NormalizeAgain(manifest: Manifest, submission: Submission, size: Json -> nat, document: Json, r: Result<Json>)
    requires MayReturn(manifest, submission, size, Success(document)) && KeysAnchored(manifest)
    ensures MayReturn(manifest, Document(size(document), document), size, r) <==>
            r == if PrefixFree(KeysOf(manifest)) then Success(document) else Failure
  {
    var values := AnsweredFrom(manifest, submission, size, document);
    DocumentAnswers(manifest, document, size, r);
    NestedAnswers(manifest, values, size, r);
  }

  lemma DocumentAnswers(manifest: Manifest, document: Json, size: Json -> nat, r: Result<Json>)
    requires document.Object? && size(document) <= MAX_BYTES
    ensures MayReturn(manifest, Document(size(document), document), size, r) <==> MayAnswer(manifest, document, size, r)
  {
  }

  lemma NestedAnswers(manifest: Manifest, values: Flat, size: Json -> nat, r: Result<Json>)
    requires Usable(manifest.fields, |manifest.fields|) && KeysAnchored(manifest)
    requires values.Keys == KeysOf(manifest) && AllAllowed(Kinds(manifest.fields, |manifest.fields|), values)
    requires RelationsHold(manifest.id, values) && size(Nested(values)) <= MAX_BYTES
    ensures MayAnswer(manifest, Nested(values), size, r) <==>
            r == if PrefixFree(KeysOf(manifest)) then Success(Nested(values)) else Failure
  {
    ValuesFit(manifest, values);
    if PrefixFree(values.Keys) {
      AnswerFromNested(manifest, values, size, r);
      RefinishedIsSame(manifest, values, size);
    } else {
      NestedUnsound(values);
      UnsoundFails(manifest, Nested(values), size, r);
    }
  }

  lemma UnsoundFails(manifest: Manifest, input: Json, size: Json -> nat, r: Result<Json>)
    requires input.Object? && !Sound("", input, KeysOf(manifest))
    ensures MayAnswer(manifest, input, size, r) <==> r == Failure
  {
  }

  lemma ValuesFit(manifest: Manifest, values: Flat)
    requires Usable(manifest.fields, |manifest.fields|) && KeysAnchored(manifest)
    requires values.Keys == KeysOf(manifest) && AllAllowed(Kinds(manifest.fields, |manifest.fields|), values)
    ensures forall f :: f in values ==> Anchored(f) && !values[f].Object?
  {
    var kinds := Kinds(manifest.fields, |manifest.fields|);
    DefaultsAllowed(manifest.fields, |manifest.fields|);
    forall f | f in values ensures Anchored(f) && !values[f].Object? { AllowedIsScalar(kinds[f], values[f]); }
  }

  lemma CollectedUnique(input: Json, keys: set<string>, p: Flat, q: Flat)
    requires input.Object? && NoAliases(input, keys) && Collected(p, input, keys) && Collected(q, input, keys)
    ensures p == q
  {
    forall d ensures d in p <==> d in q {
      if d in p { assert Spells("", input, keys, d, p[d]); }
      if d in q { assert Spells("", input, keys, d, q[d]); }
    }
    forall d | d in p ensures p[d] == q[d] {
      assert Spells("", input, keys, d, p[d]) && Spells("", input, keys, d, q[d]);
    }
  }

  lemma AnswerUnique(manifest: Manifest, input: Json, size: Json -> nat, a: Result<Json>, b: Result<Json>)
    requires input.Object? && NoAliases(input, KeysOf(manifest))
    requires MayAnswer(manifest, input, size, a) && MayAnswer(manifest, input, size, b)
    ensures a == b
  {
    if Usable(manifest.fields, |manifest.fields|) && Sound("", input, KeysOf(manifest)) {
      var p :| Collected(p, input, KeysOf(manifest)) && a == Finish(manifest, p, size);
      var q :| Collected(q, input, KeysOf(manifest)) && b == Finish(manifest, q, size);
      CollectedUnique(input, KeysOf(manifest), p, q);
    }
  }

  /** Without aliases the order in which maps are walked does not matter. */
  lemma NormalizeIgnoresOrder(
    manifest: Manifest, submission: Submission, size: Json -> nat, a: Result<Json>, b: Result<Json>)
    requires submission.Document? && submission.content.Object? ==> NoAliases(submission.content, KeysOf(manifest))
    requires MayReturn(manifest, submission, size, a) && MayReturn(manifest, submission, size, b)
    ensures a == b
  {
    match submission
    case Nothing => AnswerUnique(manifest, Object(map[]), size, a, b);
    case Garbled(_) =>
    case Document(length, content) =>
      if length <= MAX_BYTES && content.Object? { AnswerUnique(manifest, content, size, a, b); }
  }

  // --------------------------------------------------------------- the methods

  /** The dotted keys and values that the members done so far spell. */
  ghost function SpelledPairs(prefix: string, input: Json, keys: set<string>, done: set<string>): iset<(string, Json)>
    requires input.Object? && done <= input.fields.Keys
  {
    iset key, d, v | key in done && SpellsAt(input, key, Candidate(prefix, key), keys, d, v) :: (d, v)
  }

  /** Each spelled key now holds a value spelled for it; every other key is as before. */
  ghost predicate Merged(after: Flat, before: Flat, pairs: iset<(string, Json)>) {
    && (forall d, v :: (d, v) in pairs ==> d in after && (d, after[d]) in pairs)
    && (forall d :: d in after ==> (d, after[d]) in pairs || (d in before && after[d] == before[d]))
    && (forall d :: d in before ==> d in after)
  }

  lemma MergedTwice(after: Flat, middle: Flat, before: Flat, p: iset<(string, Json)>, q: iset<(string, Json)>)
    requires Merged(middle, before, p) && Merged(after, middle, q)
    ensures Merged(after, before, p + q)
  {
  }

  lemma OneMore(prefix: string, input: Json, keys: set<string>, done: set<string>, key: string)
    requires input.Object? && done <= input.fields.Keys && key in input.fields
    ensures SpelledPairs(prefix, input, keys, done + {key}) ==
            SpelledPairs(prefix, input, keys, done) + SpelledPairs(prefix, input, keys, {key})
  {
  }

  lemma OneMember(prefix: string, input: Json, keys: set<string>, key: string)
    requires input.Object? && key in input.fields
    ensures Candidate(prefix, key) in keys ==>
              SpelledPairs(prefix, input, keys, {key}) == iset{(Candidate(prefix, key), input.fields[key])}
    ensures Candidate(prefix, key) !in keys && input.fields[key].Object? ==>
              SpelledPairs(prefix, input, keys, {key}) ==
              SpelledPairs(Candidate(prefix, key), input.fields[key], keys, input.fields[key].fields.Keys)
  {
    var c, inner := Candidate(prefix, key), input.fields[key];
    if c !in keys && inner.Object? {
      forall d, v
        ensures (d, v) in SpelledPairs(prefix, input, keys, {key}) <==>
                (d, v) in SpelledPairs(c, inner, keys, inner.fields.Keys)
      {
        assert Spells(c, inner, keys, d, v) <==> SpellsAt(input, key, c, keys, d, v);
      }
    }
  }

  /** The map that flattening fills. */
  class Output {
    var values: Flat

    constructor ()
      ensures values == map[]
    {
      values := map[];
    }
  }

  method FlattenConfiguration(prefix: string, input: Json, keys: set<string>, output: Output) returns (ok: bool)
    requires input.Object?
    modifies output
    ensures ok <==> Sound(prefix, input, keys)
    ensures ok ==> Merged(output.values, old(output.values), SpelledPairs(prefix, input, keys, input.fields.Keys))
    decreases input
  {
    var remaining, done := input.fields.Keys, {};
    while remaining != {}
      invariant done !! remaining && done + remaining == input.fields.Keys
      invariant forall key :: key in done ==> SoundAt(input, key, Candidate(prefix, key), keys)
      invariant Merged(output.values, old(output.values), SpelledPairs(prefix, input, keys, done))
    {
      var key :| key in remaining;
      remaining := remaining - {key};
      var candidate, value := Candidate(prefix, key), input.fields[key];
      ghost var middle := output.values;
      OneMore(prefix, input, keys, done, key);
      OneMember(prefix, input, keys, key);
      if candidate in keys {
        if value.Object? {
          assert !SoundAt(input, key, candidate, keys);
          return false;
        }
        output.values := output.values[candidate := value];
      } else {
        if !HasChildren(keys, candidate) || !value.Object? {
          assert !SoundAt(input, key, candidate, keys);
          return false;
        }
        var fine := FlattenConfiguration(candidate, value, keys, output);
        if !fine {
          assert !SoundAt(input, key, candidate, keys);
          return false;
        }
      }
      MergedTwice(output.values, middle, old(output.values),
                  SpelledPairs(prefix, input, keys, done), SpelledPairs(prefix, input, keys, {key}));
      done := done + {key};
    }
    return true;
  }

  lemma MergedIsCollected(provided: Flat, input: Json, keys: set<string>)
    requires input.Object? && Merged(provided, map[], SpelledPairs("", input, keys, input.fields.Keys))
    ensures Collected(provided, input, keys)
  {
    forall d, v ensures Spells("", input, keys, d, v) <==> (d, v) in SpelledPairs("", input, keys, input.fields.Keys) {
    }
  }

  predicate FieldUsable(field: UIField) {
    field.fallback.Some? && ValueAllowed(field.kind, field.fallback.value)
  }

  lemma UsableNext(fields: seq<UIField>, i: nat)
    requires i < |fields| && Usable(fields, i)
    ensures Usable(fields, i + 1) <==> fields[i].key !in Kinds(fields, i) && FieldUsable(fields[i])
  {
    DefaultsAllowed(fields, i);
  }

  /** Registers the fields and their defaults. */
  method RegisterFields(fields: seq<UIField>) returns (ok: bool, kinds: map<string, FieldKind>, defaults: Flat)
    ensures ok <==> Usable(fields, |fields|)
    ensures ok ==> kinds == Kinds(fields, |fields|) && defaults == Defaults(fields, |fields|)
  {
    kinds, defaults := map[], map[];
    for i := 0 to |fields|
      invariant Usable(fields, i) && kinds == Kinds(fields, i) && defaults == Defaults(fields, i)
    {
      var field := fields[i];
      UsableNext(fields, i);
      if field.key in kinds || !FieldUsable(field) {
        return false, kinds, defaults;
      }
      kinds := kinds[field.key := field.kind];
      defaults := defaults[field.key := field.fallback.value];
    }
    return true, kinds, defaults;
  }

  /** Writes the provided values over the defaults, unless one of them is refused. */
  method Override(kinds: map<string, FieldKind>, defaults: Flat, provided: Flat) returns (ok: bool, values: Flat)
    requires provided.Keys <= kinds.Keys
    ensures ok <==> AllAllowed(kinds, provided)
    ensures ok ==> values == defaults + provided
  {
    values := defaults;
    var remaining, done := provided.Keys, {};
    while remaining != {}
      invariant done !! remaining && done + remaining == provided.Keys
      invariant forall key :: key in done ==> ValueAllowed(kinds[key], provided[key])
      invariant values == defaults + map key | key in done :: provided[key]
    {
      var key :| key in remaining;
      remaining := remaining - {key};
      if !ValueAllowed(kinds[key], provided[key]) {
        return false, values;
      }
      values := values[key := provided[key]];
      done := done + {key};
    }
    assert (map key | key in provided.Keys :: provided[key]) == provided;
    return true, values;
  }

  /** Writes the values into a nested document in the order of their keys. */
  method Nest(values: Flat) returns (document: Json)
    ensures document == Nested(values)
  {
    var order := Sorted(values.Keys);
    var fields := map[];
    for i := 0 to |order|
      invariant fields == Rebuilt(values, order, i)
    {
      fields := SetValue(fields, SplitDots(order[i]), values[order[i]]);
    }
    return Object(fields);
  }

  method NormalizeConfiguration(manifest: Manifest, submission: Submission, size: Json -> nat) returns (r: Result<Json>)
    ensures MayReturn(manifest, submission, size, r)
  {
    var input := Object(map[]);
    match submission {
      case Nothing =>
      case Garbled(_) => return Failure;
      case Document(length, content) =>
        if length > MAX_BYTES || !content.Object? {
          return Failure;
        }
        input := content;
    }
    var usable, kinds, defaults := RegisterFields(manifest.fields);
    if !usable {
      return Failure;
    }
    var output := new Output();
    var sound := FlattenConfiguration("", input, kinds.Keys, output);
    if !sound {
      return Failure;
    }
    MergedIsCollected(output.values, input, kinds.Keys);
    assert output.values.Keys <= kinds.Keys by {
      forall d | d in output.values ensures d in kinds { SpelledIsKey("", input, kinds.Keys, d, output.values[d]); }
    }
    var fine, values := Override(kinds, defaults, output.values);
    if !fine || !RelationsHold(manifest.id, values) {
      return Failure;
    }
    var document := Nest(values);
    if size(document) > MAX_BYTES {
      return Failure;
    }
    return Success(document);
  }
}
