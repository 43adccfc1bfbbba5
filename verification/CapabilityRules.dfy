/**
 * Which capability configurations are accepted, said of the fields, the values
 * and the suppression themselves.
 */
module CapabilityRules {
  import opened Documents
  import opened DottedKeys
  import opened Texts
  import opened CapabilityConfig

  /** The value is one that a field of this kind takes. */
  predicate Takes(kind: FieldKind, value: Json) {
    || (kind == Boolean && value in {Bool(true), Bool(false)})
    || (kind.Enumeration? && exists i :: 0 <= i < |kind.allowed| && value == String(kind.allowed[i]))
    || (kind.Numeric? && value.Number? && kind.inBounds(value.text))
    || (kind.Textual? && value.String? && kind.format(value.chars)
        && (kind.maxLength == 0 || ByteLength(value.chars) < kind.maxLength + 1))
  }

  lemma TakesAllowed(kind: FieldKind, value: Json)
    ensures Takes(kind, value) <==> ValueAllowed(kind, value)
  {
    if kind.Enumeration? && value.String? && value.chars in kind.allowed {
      var i :| 0 <= i < |kind.allowed| && kind.allowed[i] == value.chars;
      assert value == String(kind.allowed[i]);
    }
    if value.Bool? { assert value == Bool(true) || value == Bool(false); }
  }

  /** The field has a default that it takes. */
  predicate Defaulted(field: UIField) {
    field.fallback != None && Takes(field.kind, field.fallback.value)
  }

  /** No two fields share a key, and every field takes its own default. */
  predicate Registrable(fields: seq<UIField>) {
    && (forall i, j :: 0 <= i < j < |fields| ==> fields[i].key != fields[j].key)
    && forall i :: 0 <= i < |fields| ==> Defaulted(fields[i])
  }

  lemma RegistrableIff(fields: seq<UIField>)
    ensures Registrable(fields) <==> Usable(fields, |fields|)
  {
    forall i | 0 <= i < |fields| ensures Defaulted(fields[i]) <==> FieldUsable(fields[i]) {
      if fields[i].fallback.Some? { TakesAllowed(fields[i].kind, fields[i].fallback.value); }
    }
  }

  /** The value given for the field, or else its default. */
  predicate Gets(field: UIField, provided: Flat, values: Flat) {
    && field.key in values
    && Some(values[field.key]) == if field.key in provided then Some(provided[field.key]) else field.fallback
  }

  /** Every field has the value given for it, or else its default, and nothing else is there. */
  predicate Completed(fields: seq<UIField>, provided: Flat, values: Flat) {
    values.Keys == FieldKeys(fields) && forall i :: 0 <= i < |fields| ==> Gets(fields[i], provided, values)
  }

  /** A text with something to read in it is at the key. */
  predicate Names(values: Flat, key: string) {
    key in values && values[key].String? && values[key].chars != ""
  }

  predicate Explains(values: Flat, key: string) {
    key in values && values[key].String? &&
    exists i :: 0 <= i < |values[key].chars| && !IsSpace(values[key].chars[i])
  }

  /**
   * A suppression that names a reference has a reason with something in it and
   * an expiry; one that names none has neither.
   */
  predicate SuppressionFits(values: Flat) {
    if Names(values, "suppression.reference")
    then Explains(values, "suppression.reason") && Names(values, "suppression.expires_at")
    else !Names(values, "suppression.reason") && !Names(values, "suppression.expires_at")
  }

  lemma BlankIff(s: string)
    ensures AllSpace(s) <==> forall i :: 0 <= i < |s| ==> IsSpace(s[i])
  {
  }

  lemma SuppressionIff(pack: string, values: Flat)
    ensures RelationsHold(pack, values) <==> (pack == "sbom-fmea-security" ==> SuppressionFits(values))
  {
    var reference, reason := TextAt(values, "suppression.reference"), TextAt(values, "suppression.reason");
    BlankIff(reason);
    assert Explains(values, "suppression.reason") <==> !AllSpace(reason);
  }

  /** Reason and expiry are there exactly when a reference is. */
  lemma NamedTogether(values: Flat)
    requires SuppressionFits(values)
    ensures Names(values, "suppression.reference") <==> Explains(values, "suppression.reason")
    ensures Names(values, "suppression.reference") <==> Names(values, "suppression.expires_at")
  {
  }

  function FieldKeys(fields: seq<UIField>): set<string> {
    set i | 0 <= i < |fields| :: fields[i].key
  }

  predicate Suits(field: UIField, values: Flat) {
    field.key in values && Takes(field.kind, values[field.key])
  }

  /** Every field takes its value. */
  predicate AllSuit(fields: seq<UIField>, values: Flat) {
    forall i :: 0 <= i < |fields| ==> Suits(fields[i], values)
  }

  /** The values are a configuration of the fields: the caller's values, completed, and all of them fit. */
  ghost predicate Configures(manifest: Manifest, input: Json, provided: Flat, values: Flat)
    requires input.Object?
  {
    && Registrable(manifest.fields)
    && Sound("", input, FieldKeys(manifest.fields)) && Collected(provided, input, FieldKeys(manifest.fields))
    && Completed(manifest.fields, provided, values)
    && AllSuit(manifest.fields, values)
    && (manifest.id == "sbom-fmea-security" ==> SuppressionFits(values))
  }

  lemma {:induction false} FieldAt(fields: seq<UIField>, n: nat, i: nat)
    requires i < n <= |fields| && forall j, k :: 0 <= j < k < n ==> fields[j].key != fields[k].key
    requires forall j :: 0 <= j < n ==> fields[j].fallback.Some?
    ensures fields[i].key in Kinds(fields, n) && Kinds(fields, n)[fields[i].key] == fields[i].kind
    ensures fields[i].key in Defaults(fields, n)
    ensures Some(Defaults(fields, n)[fields[i].key]) == fields[i].fallback
  {
    if i < n - 1 { FieldAt(fields, n - 1, i); }
  }

  lemma KeysAre(manifest: Manifest)
    requires Usable(manifest.fields, |manifest.fields|)
    ensures FieldKeys(manifest.fields) == KeysOf(manifest)
  {
    DefaultsAllowed(manifest.fields, |manifest.fields|);
  }

  lemma DefaultGets(fields: seq<UIField>, provided: Flat, values: Flat, i: nat)
    requires Usable(fields, |fields|) && i < |fields| && values == Defaults(fields, |fields|) + provided
    ensures Gets(fields[i], provided, values)
  {
    FieldAt(fields, |fields|, i);
  }

  lemma DefaultKeys(fields: seq<UIField>)
    requires Usable(fields, |fields|)
    ensures Defaults(fields, |fields|).Keys == FieldKeys(fields)
  {
    DefaultsAllowed(fields, |fields|);
  }

  lemma DefaultsComplete(fields: seq<UIField>, provided: Flat, values: Flat)
    requires Usable(fields, |fields|) && provided.Keys <= FieldKeys(fields)
    requires values == Defaults(fields, |fields|) + provided
    ensures Completed(fields, provided, values)
  {
    DefaultKeys(fields);
    forall i | 0 <= i < |fields| ensures Gets(fields[i], provided, values) { DefaultGets(fields, provided, values, i); }
  }

  lemma CompletedOnce(fields: seq<UIField>, provided: Flat, a: Flat, b: Flat)
    requires Completed(fields, provided, a) && Completed(fields, provided, b)
    ensures a == b
  {
    forall key | key in a ensures a[key] == b[key] {
      var i :| 0 <= i < |fields| && fields[i].key == key;
      assert Gets(fields[i], provided, a) && Gets(fields[i], provided, b);
    }
  }

  lemma CompletedIs(fields: seq<UIField>, provided: Flat, values: Flat)
    requires Usable(fields, |fields|) && provided.Keys <= FieldKeys(fields)
    ensures Completed(fields, provided, values) <==> values == Defaults(fields, |fields|) + provided
  {
    DefaultsComplete(fields, provided, Defaults(fields, |fields|) + provided);
    if Completed(fields, provided, values) {
      CompletedOnce(fields, provided, values, Defaults(fields, |fields|) + provided);
    }
  }

  lemma SuitsIff(fields: seq<UIField>, values: Flat, i: nat)
    requires Usable(fields, |fields|) && i < |fields| && fields[i].key in values
    ensures fields[i].key in Kinds(fields, |fields|)
    ensures Suits(fields[i], values) <==> ValueAllowed(Kinds(fields, |fields|)[fields[i].key], values[fields[i].key])
  {
    FieldAt(fields, |fields|, i);
    TakesAllowed(fields[i].kind, values[fields[i].key]);
  }

  lemma AllSuitIff(fields: seq<UIField>, values: Flat)
    requires Usable(fields, |fields|) && values.Keys == FieldKeys(fields)
    ensures AllSuit(fields, values) <==> AllAllowed(Kinds(fields, |fields|), values)
  {
    forall i | 0 <= i < |fields|
      ensures fields[i].key in values && fields[i].key in Kinds(fields, |fields|)
      ensures Suits(fields[i], values) <==> ValueAllowed(Kinds(fields, |fields|)[fields[i].key], values[fields[i].key])
    {
      SuitsIff(fields, values, i);
    }
  }

  lemma GivenAllowed(kinds: map<string, FieldKind>, defaults: Flat, provided: Flat)
    requires AllAllowed(kinds, defaults)
    ensures AllAllowed(kinds, defaults + provided) <==> AllAllowed(kinds, provided)
  {
    forall key | key in provided ensures key in defaults + provided && (defaults + provided)[key] == provided[key] {
    }
  }

  lemma AllowedIffSuits(fields: seq<UIField>, provided: Flat, values: Flat)
    requires Usable(fields, |fields|) && values == Defaults(fields, |fields|) + provided
    requires values.Keys == FieldKeys(fields)
    ensures AllAllowed(Kinds(fields, |fields|), provided) <==> AllSuit(fields, values)
  {
    AllSuitIff(fields, values);
    DefaultsAllowed(fields, |fields|);
    GivenAllowed(Kinds(fields, |fields|), Defaults(fields, |fields|), provided);
  }

  lemma FinishIff(manifest: Manifest, provided: Flat, values: Flat, size: Json -> nat, document: Json)
    requires Usable(manifest.fields, |manifest.fields|) && values.Keys == FieldKeys(manifest.fields)
    requires values == Defaults(manifest.fields, |manifest.fields|) + provided
    ensures Finish(manifest, provided, size) == Success(document) <==>
      && AllSuit(manifest.fields, values)
      && (manifest.id == "sbom-fmea-security" ==> SuppressionFits(values))
      && document == Nested(values) && size(document) < 65537
  {
    AllowedIffSuits(manifest.fields, provided, values);
    SuppressionIff(manifest.id, values);
  }

  lemma ConfiguresIff(manifest: Manifest, input: Json, provided: Flat, values: Flat, size: Json -> nat, document: Json)
    requires input.Object? && Usable(manifest.fields, |manifest.fields|)
    requires Sound("", input, FieldKeys(manifest.fields)) && Collected(provided, input, FieldKeys(manifest.fields))
    requires values == Defaults(manifest.fields, |manifest.fields|) + provided
    ensures Configures(manifest, input, provided, values) && document == Nested(values) && size(document) < 65537 <==>
            Finish(manifest, provided, size) == Success(document)
  {
    RegistrableIff(manifest.fields);
    ProvidedWithin(input, FieldKeys(manifest.fields), provided);
    CompletedIs(manifest.fields, provided, values);
    FinishIff(manifest, provided, values, size, document);
  }

  /** The document that flattening begins with, when the submission holds one of at most 64 KiB. */
  ghost predicate Submits(submission: Submission, input: Json) {
    || (submission == Nothing && input == Object(map[]))
    || (input.Object? && exists length :: submission == Document(length, input) && length < 65537)
  }

  /** The document nests a configuration of the fields taken from the submitted object, in at most 64 KiB. */
  ghost predicate Accepted(
    manifest: Manifest, submission: Submission, size: Json -> nat, document: Json, input: Json, provided: Flat,
    values: Flat)
  {
    && Submits(submission, input) && input.Object? && Configures(manifest, input, provided, values)
    && document == Nested(values) && size(document) < 65537
  }

  lemma SubmittedIff(manifest: Manifest, submission: Submission, size: Json -> nat, r: Result<Json>, input: Json)
    requires Submits(submission, input) && input.Object?
    ensures MayReturn(manifest, submission, size, r) <==> MayAnswer(manifest, input, size, r)
  {
  }

  lemma SubmittedInput(manifest: Manifest, submission: Submission, size: Json -> nat, document: Json)
    returns (input: Json)
    requires MayReturn(manifest, submission, size, Success(document))
    ensures Submits(submission, input) && input.Object?
  {
    input := if submission.Nothing? then Object(map[]) else submission.content;
  }

  lemma AnswerProvides(manifest: Manifest, input: Json, keys: set<string>, size: Json -> nat, r: Result<Json>)
    returns (provided: Flat)
    requires input.Object? && MayAnswer(manifest, input, size, r) && r.Success? && keys == KeysOf(manifest)
    ensures Usable(manifest.fields, |manifest.fields|)
    ensures Sound("", input, keys) && Collected(provided, input, keys) && r == Finish(manifest, provided, size)
  {
    provided :| Collected(provided, input, keys) && r == Finish(manifest, provided, size);
  }

  lemma AnswerConfigures(manifest: Manifest, input: Json, size: Json -> nat, document: Json)
    returns (provided: Flat, values: Flat)
    requires input.Object? && MayAnswer(manifest, input, size, Success(document))
    ensures Configures(manifest, input, provided, values) && document == Nested(values) && size(document) < 65537
  {
    KeysAre(manifest);
    provided := AnswerProvides(manifest, input, KeysOf(manifest), size, Success(document));
    values := Defaults(manifest.fields, |manifest.fields|) + provided;
    ConfiguresIff(manifest, input, provided, values, size, document);
  }

  lemma ConfiguredAnswers(
    manifest: Manifest, input: Json, size: Json -> nat, document: Json, provided: Flat, values: Flat)
    requires input.Object? && Configures(manifest, input, provided, values)
    requires document == Nested(values) && size(document) < 65537
    ensures MayAnswer(manifest, input, size, Success(document))
  {
    RegistrableIff(manifest.fields);
    KeysAre(manifest);
    ProvidedWithin(input, FieldKeys(manifest.fields), provided);
    CompletedIs(manifest.fields, provided, values);
    ConfiguresIff(manifest, input, provided, values, size, document);
  }

  /** A document is a possible answer exactly when it is accepted for some configuration. */
  lemma AnswerIff(manifest: Manifest, submission: Submission, size: Json -> nat, document: Json)
    ensures MayReturn(manifest, submission, size, Success(document)) <==>
      (exists input, provided, values :: Accepted(manifest, submission, size, document, input, provided, values))
  {
    if MayReturn(manifest, submission, size, Success(document)) {
      var input := SubmittedInput(manifest, submission, size, document);
      SubmittedIff(manifest, submission, size, Success(document), input);
      var provided, values := AnswerConfigures(manifest, input, size, document);
      assert Accepted(manifest, submission, size, document, input, provided, values);
    }
    if input, provided, values :| Accepted(manifest, submission, size, document, input, provided, values) {
      SubmittedIff(manifest, submission, size, Success(document), input);
      ConfiguredAnswers(manifest, input, size, document, provided, values);
    }
  }

  // ------------------------------------------------------------ names of fields

  /** The dotted name lies beneath the other. */
  predicate Beneath(above: string, name: string) {
    |name| > |above| && name[|above|] == '.' && name[..|above|] == above
  }

  /** Members of nested objects lead to the dotted name, past names that are no field's, and the value is there. */
  ghost predicate LeadsTo(prefix: string, input: Json, keys: set<string>, dotted: string, value: Json)
    requires input.Object?
    decreases input
  {
    exists key :: key in input.fields && LeadsFrom(input, key, Candidate(prefix, key), keys, dotted, value)
  }

  ghost predicate LeadsFrom(input: Json, key: string, name: string, keys: set<string>, dotted: string, value: Json)
    requires input.Object? && key in input.fields
    decreases input, 0
  {
    var inner := input.fields[key];
    || (name == dotted && inner == value)
    || (name !in keys && inner.Object? && LeadsTo(name, inner, keys, dotted, value))
  }

  /** A field's name has a scalar; any other has an object, and a field beneath it. */
  predicate WellPlaced(keys: set<string>, dotted: string, value: Json) {
    if dotted in keys then !value.Object? else value.Object? && exists f :: f in keys && Beneath(dotted, f)
  }

  lemma ChildrenIff(keys: set<string>, candidate: string)
    ensures HasChildren(keys, candidate) <==> exists f :: f in keys && Beneath(candidate, f)
  {
    forall f | f in keys ensures Under(candidate, f) <==> Beneath(candidate, f) {
      if Beneath(candidate, f) { assert f == candidate + "." + f[|candidate| + 1..]; }
    }
  }

  ghost predicate AllPlaced(prefix: string, input: Json, keys: set<string>)
    requires input.Object?
  {
    forall dotted, value :: LeadsTo(prefix, input, keys, dotted, value) ==> WellPlaced(keys, dotted, value)
  }

  lemma {:induction false} SoundIsPlaced(prefix: string, input: Json, keys: set<string>, dotted: string, value: Json)
    requires input.Object? && Sound(prefix, input, keys) && LeadsTo(prefix, input, keys, dotted, value)
    ensures WellPlaced(keys, dotted, value)
    decreases input
  {
    var key :| key in input.fields && LeadsFrom(input, key, Candidate(prefix, key), keys, dotted, value);
    var name, inner := Candidate(prefix, key), input.fields[key];
    assert SoundAt(input, key, name, keys);
    ChildrenIff(keys, name);
    if !(name == dotted && inner == value) { SoundIsPlaced(name, inner, keys, dotted, value); }
  }

  lemma {:induction false} PlacedIsSound(prefix: string, input: Json, keys: set<string>)
    requires input.Object? && AllPlaced(prefix, input, keys)
    ensures Sound(prefix, input, keys)
    decreases input
  {
    forall key | key in input.fields ensures SoundAt(input, key, Candidate(prefix, key), keys) {
      var name, inner := Candidate(prefix, key), input.fields[key];
      assert LeadsFrom(input, key, name, keys, name, inner);
      assert WellPlaced(keys, name, inner);
      ChildrenIff(keys, name);
      if name !in keys {
        forall dotted, value | LeadsTo(name, inner, keys, dotted, value) ensures WellPlaced(keys, dotted, value) {
          assert LeadsFrom(input, key, name, keys, dotted, value);
        }
        PlacedIsSound(name, inner, keys);
      }
    }
  }

  /** Flattening reports no error exactly when every name it meets is well placed. */
  lemma SoundIff(input: Json, keys: set<string>)
    requires input.Object?
    ensures Sound("", input, keys) <==> AllPlaced("", input, keys)
  {
    if Sound("", input, keys) {
      forall dotted, value | LeadsTo("", input, keys, dotted, value) ensures WellPlaced(keys, dotted, value) {
        SoundIsPlaced("", input, keys, dotted, value);
      }
    }
    if AllPlaced("", input, keys) { PlacedIsSound("", input, keys); }
  }
}
