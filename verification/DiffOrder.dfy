/** Which operations the differ reports, and in which order. */
module DiffOrder {
  import opened Documents
  import opened Ordering
  import opened JsonDiff

  /**
   * The two documents differ at the place the keys lead to through objects on
   * both sides: a field is on one side only, or what is there differs and is not
   * an object on both sides.
   */
  predicate Differs(before: Json, after: Json, tokens: seq<string>, change: Change)
    decreases |tokens|
  {
    if tokens == [] then before != after && !(before.Object? && after.Object?) && change == Swap(after)
    else if !before.Object? || !after.Object? then false
    else
      var key := tokens[0];
      if key in before.fields && key in after.fields then
        Differs(before.fields[key], after.fields[key], tokens[1..], change)
      else
        |tokens| == 1 &&
        if key in before.fields then change == Take
        else key in after.fields && change == Put(after.fields[key])
  }

  /** The first key at which the two differ comes earlier in the one. */
  predicate Precedes(a: seq<string>, b: seq<string>)
    decreases |a|
  {
    a != [] && b != [] && if a[0] == b[0] then Precedes(a[1..], b[1..]) else ComesBefore(a[0], b[0])
  }

  predicate InOrder(edits: seq<Edit>) {
    forall i, j :: 0 <= i < j < |edits| ==> Precedes(edits[i].tokens, edits[j].tokens)
  }

  lemma {:induction false} SameDoNotDiffer(doc: Json, tokens: seq<string>, change: Change)
    ensures !Differs(doc, doc, tokens, change)
    decreases |tokens|
  {
    if tokens != [] && doc.Object? && tokens[0] in doc.fields {
      SameDoNotDiffer(doc.fields[tokens[0]], tokens[1..], change);
    }
  }

  lemma {:induction false} InUnder(key: string, edits: seq<Edit>, tokens: seq<string>, change: Change)
    ensures Edit(tokens, change) in Under(key, edits) <==>
            tokens != [] && tokens[0] == key && Edit(tokens[1..], change) in edits
  {
    if edits != [] {
      var first := Edit([key] + edits[0].tokens, edits[0].change);
      InUnder(key, edits[1..], tokens, change);
      assert Under(key, edits) == [first] + Under(key, edits[1..]);
      assert ([key] + edits[0].tokens)[1..] == edits[0].tokens;
      assert edits == [edits[0]] + edits[1..];
      if tokens != [] && tokens[0] == key { assert tokens == [key] + tokens[1..]; }
    }
  }

  /** The edits are the differences of the two documents. */
  lemma {:induction false} EditsAreDifferences(before: Json, after: Json, tokens: seq<string>, change: Change)
    ensures Edit(tokens, change) in Edits(before, after) <==> Differs(before, after, tokens, change)
    decreases before, 1, 0
  {
    if before == after {
      SameDoNotDiffer(before, tokens, change);
    } else if before.Object? && after.Object? {
      var keys := Sorted(before.fields.Keys + after.fields.Keys);
      FieldEditsAreDifferences(before, after, keys, tokens, change);
      if tokens != [] { assert tokens[0] in keys <==> tokens[0] in before.fields || tokens[0] in after.fields; }
    }
  }

  lemma {:induction false} FieldEditsAreDifferences(
    before: Json, after: Json, keys: seq<string>, tokens: seq<string>, change: Change)
    requires before.Object? && after.Object?
    requires forall k :: k in keys ==> k in before.fields || k in after.fields
    ensures Edit(tokens, change) in FieldEdits(before, after, keys) <==>
            tokens != [] && tokens[0] in keys && Differs(before, after, tokens, change)
    decreases before, 0, |keys|
  {
    if keys != [] {
      FieldEditsAreDifferences(before, after, keys[1..], tokens, change);
      KeyEditsAreDifferences(before, after, keys[0], tokens, change);
    }
  }

  lemma {:induction false} KeyEditsAreDifferences(
    before: Json, after: Json, key: string, tokens: seq<string>, change: Change)
    requires before.Object? && after.Object?
    requires key in before.fields || key in after.fields
    ensures Edit(tokens, change) in KeyEdits(before, after, key) <==>
            tokens != [] && tokens[0] == key && Differs(before, after, tokens, change)
    decreases before, 0, 0
  {
    if key in before.fields && key in after.fields {
      InUnder(key, Edits(before.fields[key], after.fields[key]), tokens, change);
      if tokens != [] { EditsAreDifferences(before.fields[key], after.fields[key], tokens[1..], change); }
    } else if tokens != [] && tokens[0] == key && |tokens| == 1 {
      assert tokens == [key];
    }
  }

  lemma {:induction false} UnderInOrder(key: string, edits: seq<Edit>)
    requires InOrder(edits)
    ensures InOrder(Under(key, edits))
  {
    UnderTokens(key, edits);
    var moved := Under(key, edits);
    forall i, j | 0 <= i < j < |moved| ensures Precedes(moved[i].tokens, moved[j].tokens) {
      assert moved[i].tokens[1..] == edits[i].tokens && moved[j].tokens[1..] == edits[j].tokens;
    }
  }

  /** The differences are reported in the order of the keys that lead to them. */
  lemma {:induction false} EditsInOrder(before: Json, after: Json)
    ensures InOrder(Edits(before, after))
    decreases before, 1, 0
  {
    if before != after && before.Object? && after.Object? {
      SortedAscending(before.fields.Keys + after.fields.Keys);
      FieldEditsInOrder(before, after, Sorted(before.fields.Keys + after.fields.Keys));
    }
  }

  lemma {:induction false} FieldEditsInOrder(before: Json, after: Json, keys: seq<string>)
    requires before.Object? && after.Object? && Ascending(keys)
    requires forall k :: k in keys ==> k in before.fields || k in after.fields
    ensures InOrder(FieldEdits(before, after, keys))
    decreases before, 0, |keys|
  {
    if keys != [] {
      var key, rest := keys[0], keys[1..];
      FieldEditsInOrder(before, after, rest);
      if key in before.fields && key in after.fields {
        EditsInOrder(before.fields[key], after.fields[key]);
        UnderInOrder(key, Edits(before.fields[key], after.fields[key]));
      }
      FirstThenRest(before, after, key, rest);
    }
  }

  lemma FirstThenRest(before: Json, after: Json, key: string, rest: seq<string>)
    requires before.Object? && after.Object? && (key in before.fields || key in after.fields)
    requires forall k :: k in rest ==> Below(key, k) && (k in before.fields || k in after.fields)
    requires InOrder(KeyEdits(before, after, key)) && InOrder(FieldEdits(before, after, rest))
    ensures InOrder(KeyEdits(before, after, key) + FieldEdits(before, after, rest))
  {
    var a, b := KeyEdits(before, after, key), FieldEdits(before, after, rest);
    forall i, j | 0 <= i < |a| && 0 <= j < |b| ensures Precedes(a[i].tokens, b[j].tokens) {
      assert a[i] in a && b[j] in b;
      KeyEditsAreDifferences(before, after, key, a[i].tokens, a[i].change);
      FieldEditsAreDifferences(before, after, rest, b[j].tokens, b[j].change);
      BelowTotal(key, b[j].tokens[0]);
      BelowIff(key, b[j].tokens[0]);
    }
  }

  /** The operation takes away, adds or replaces what is at the pointer of the keys. */
  predicate Reports(op: PatchOperation, tokens: seq<string>, change: Change) {
    && op.path == Render(tokens)
    && match change
       case Take => op.verb == Remove && op.value == Null
       case Put(value) => op.verb == Add && op.value == value
       case Swap(value) => op.verb == Replace && op.value == value
  }

  lemma {:induction false} OperationsReport(edits: seq<Edit>)
    ensures |Operations([], edits)| == |edits|
    ensures forall i :: 0 <= i < |edits| ==> Reports(Operations([], edits)[i], edits[i].tokens, edits[i].change)
  {
    if edits != [] {
      OperationsReport(edits[1..]);
      assert [] + edits[0].tokens == edits[0].tokens;
    }
  }

  /**
   * For two objects the differ reports each of their differences once, in the
   * order of the keys that lead there, and nothing else.
   */
  lemma DiffReportsDifferences(before: Json, after: Json) returns (edits: seq<Edit>)
    requires before.Object? && after.Object?
    ensures var ops := DiffOps("", before, after);
      |ops| == |edits| && forall i :: 0 <= i < |ops| ==> Reports(ops[i], edits[i].tokens, edits[i].change)
    ensures forall tokens, change :: Edit(tokens, change) in edits <==> Differs(before, after, tokens, change)
    ensures InOrder(edits)
  {
    edits := Edits(before, after);
    DiffRendersEdits([], before, after);
    OperationsReport(edits);
    forall tokens, change ensures Edit(tokens, change) in edits <==> Differs(before, after, tokens, change) {
      EditsAreDifferences(before, after, tokens, change);
    }
    EditsInOrder(before, after);
  }
}
