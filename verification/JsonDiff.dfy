/**
 * The structural differ of the configuration package, and an interpreter of
 * JSON Patch (RFC 6902, sections 4.1 to 4.3) with JSON Pointer paths
 * (RFC 6901, sections 3 and 4) to say what its output means.
 */
module JsonDiff {
  import opened Documents
  import opened Ordering

  datatype Verb = Remove | Add | Replace

  /** One operation in memory; a removal carries the nil value. */
  datatype PatchOperation = PatchOperation(verb: Verb, path: string, value: Json)

  // ---------------------------------------------------------------- pointers

  function ReplaceChar(s: string, c: char, with: string): string {
    if s == "" then "" else (if s[0] == c then with else [s[0]]) + ReplaceChar(s[1..], c, with)
  }

  function ReplacePair(s: string, first: char, second: char, with: string): string {
    if |s| < 2 then s
    else if s[0] == first && s[1] == second then with + ReplacePair(s[2..], first, second, with)
    else [s[0]] + ReplacePair(s[1..], first, second, with)
  }

  function EscapePointer(token: string): string {
    ReplaceChar(ReplaceChar(token, '~', "~0"), '/', "~1")
  }

  /** RFC 6901, section 4: "~1" first, then "~0". */
  function UnescapeToken(s: string): string {
    ReplacePair(ReplacePair(s, '~', '1', "/"), '~', '0', "~")
  }

  function Split(s: string): (parts: seq<string>)
    ensures |parts| > 0
  {
    if s == "" then [""]
    else
      var rest := Split(s[1..]);
      if s[0] == '/' then [""] + rest else [[s[0]] + rest[0]] + rest[1..]
  }

  function UnescapeAll(parts: seq<string>): seq<string> {
    if parts == [] then [] else [UnescapeToken(parts[0])] + UnescapeAll(parts[1..])
  }

  /** RFC 6901, section 3: empty, or a sequence of tokens each after a slash. */
  function ParsePointer(path: string): Option<seq<string>> {
    if path == "" then Some([])
    else if path[0] != '/' then None
    else Some(UnescapeAll(Split(path[1..])))
  }

  function Render(tokens: seq<string>): string {
    if tokens == [] then "" else "/" + EscapePointer(tokens[0]) + Render(tokens[1..])
  }

  lemma {:induction false} EscapeHasNoSlash(token: string)
    ensures '/' !in EscapePointer(token)
  {
    if token != "" {
      EscapeHasNoSlash(token[1..]);
      EscapeCons(token);
    }
  }

  lemma {:induction false} ReplaceCharConcat(a: string, b: string, c: char, with: string)
    ensures ReplaceChar(a + b, c, with) == ReplaceChar(a, c, with) + ReplaceChar(b, c, with)
  {
    if a == "" {
      assert a + b == b;
    } else {
      var head := if a[0] == c then with else [a[0]];
      ReplaceCharConcat(a[1..], b, c, with);
      assert (a + b)[1..] == a[1..] + b;
      Associates(head, ReplaceChar(a[1..], c, with), ReplaceChar(b, c, with));
    }
  }

  lemma Associates(a: string, b: string, c: string)
    ensures a + (b + c) == a + b + c
  {
  }

  function EscapeChar(c: char): string {
    if c == '~' then "~0" else if c == '/' then "~1" else [c]
  }

  lemma EscapeCons(token: string)
    requires token != ""
    ensures EscapePointer(token) == EscapeChar(token[0]) + EscapePointer(token[1..])
  {
    var head := if token[0] == '~' then "~0" else [token[0]];
    ReplaceCharConcat(head, ReplaceChar(token[1..], '~', "~0"), '/', "~1");
    if token[0] == '~' {
      assert ReplaceChar("~0", '/', "~1") == "~0" by {
        assert "~0"[1..] == "0" && "0"[1..] == "";
      }
    } else {
      assert [token[0]][1..] == "";
    }
  }

  /** After undoing "~1" the text is the token with only its tildes escaped. */
  lemma {:induction false} UndoSlash(token: string)
    ensures ReplacePair(EscapePointer(token), '~', '1', "/") == ReplaceChar(token, '~', "~0")
  {
    if token != "" {
      EscapeCons(token);
      UndoSlash(token[1..]);
      UndoEscaped(token[0], EscapePointer(token[1..]));
    }
  }

  lemma UndoEscaped(c: char, rest: string)
    ensures ReplacePair(EscapeChar(c) + rest, '~', '1', "/") ==
            (if c == '~' then "~0" else [c]) + ReplacePair(rest, '~', '1', "/")
  {
    if c == '~' {
      PairSkips('~', "0" + rest);
      PairSkips('0', rest);
      assert "~0" + rest == ['~'] + ("0" + rest);
    } else if c == '/' {
      var s := "~1" + rest;
      assert s[0] == '~' && s[1] == '1' && s[2..] == rest;
    } else {
      PairSkips(c, rest);
    }
  }

  /** A character that does not begin the pair is kept. */
  lemma PairSkips(c: char, rest: string)
    requires c != '~' || (rest != "" && rest[0] != '1')
    ensures ReplacePair([c] + rest, '~', '1', "/") == [c] + ReplacePair(rest, '~', '1', "/")
  {
    assert ([c] + rest)[1..] == rest;
  }

  lemma {:induction false} UndoTilde(token: string)
    ensures ReplacePair(ReplaceChar(token, '~', "~0"), '~', '0', "~") == token
  {
    if token != "" {
      UndoTilde(token[1..]);
      var e := ReplaceChar(token, '~', "~0");
      var rest := ReplaceChar(token[1..], '~', "~0");
      if token[0] == '~' {
        assert e == "~0" + rest && e[2..] == rest;
      } else {
        assert e == [token[0]] + rest && e[1..] == rest;
      }
      assert token == [token[0]] + token[1..];
    }
  }

  /** Unescaping "~1" then "~0" undoes EscapePointer, for every token. */
  lemma UnescapeUndoesEscape(token: string)
    ensures UnescapeToken(EscapePointer(token)) == token
  {
    UndoSlash(token);
    UndoTilde(token);
  }

  lemma {:induction false} SplitHead(head: string, rest: string)
    requires '/' !in head && (rest == "" || rest[0] == '/')
    ensures Split(head + rest) == [head] + if rest == "" then [] else Split(rest[1..])
  {
    var s := head + rest;
    if head == "" {
      assert s == rest;
    } else {
      SplitHead(head[1..], rest);
      assert s[0] == head[0] && s[1..] == head[1..] + rest;
      assert head == [head[0]] + head[1..];
    }
  }

  function EscapeAll(tokens: seq<string>): seq<string> {
    if tokens == [] then [] else [EscapePointer(tokens[0])] + EscapeAll(tokens[1..])
  }

  lemma {:induction false} UnescapeAllUndoesEscapeAll(tokens: seq<string>)
    ensures UnescapeAll(EscapeAll(tokens)) == tokens
  {
    if tokens != [] {
      UnescapeUndoesEscape(tokens[0]);
      UnescapeAllUndoesEscapeAll(tokens[1..]);
      assert EscapeAll(tokens)[1..] == EscapeAll(tokens[1..]);
    }
  }

  lemma {:induction false} SplitRender(tokens: seq<string>)
    requires tokens != []
    ensures Render(tokens)[0] == '/' && Split(Render(tokens)[1..]) == EscapeAll(tokens)
  {
    var head, rest := EscapePointer(tokens[0]), Render(tokens[1..]);
    assert Render(tokens)[1..] == head + rest;
    EscapeHasNoSlash(tokens[0]);
    if tokens[1..] != [] {
      SplitRender(tokens[1..]);
    }
    SplitHead(head, rest);
  }

  /** A rendered pointer is read back as the tokens it was rendered from. */
  lemma ParseUndoesRender(tokens: seq<string>)
    ensures ParsePointer(Render(tokens)) == Some(tokens)
  {
    if tokens != [] {
      SplitRender(tokens);
      UnescapeAllUndoesEscapeAll(tokens);
    }
  }

  lemma {:induction false} RenderSnoc(tokens: seq<string>, key: string)
    ensures Render(tokens + [key]) == Render(tokens) + "/" + EscapePointer(key)
  {
    if tokens == [] {
      assert tokens + [key] == [key] && [key][1..] == [];
    } else {
      RenderSnoc(tokens[1..], key);
      assert (tokens + [key])[1..] == tokens[1..] + [key];
    }
  }

  // ------------------------------------------------------------- interpreter

  /** What one operation does at its target location. */
  datatype Change = Take | Put(value: Json) | Swap(value: Json)

  datatype Edit = Edit(tokens: seq<string>, change: Change)

  function Digits(s: string, n: nat): Option<nat> {
    if s == "" then Some(n)
    else if '0' <= s[0] <= '9' then Digits(s[1..], 10 * n + (s[0] as int - '0' as int))
    else None
  }

  /** RFC 6901, section 4: decimal digits without leading zeros. */
  function ArrayIndex(token: string): Option<nat> {
    if token == "" || (|token| > 1 && token[0] == '0') then None else Digits(token, 0)
  }

  function EditField(fields: map<string, Json>, key: string, change: Change): Option<Json> {
    match change
    case Put(v) => Some(Object(fields[key := v]))
    case Take => if key in fields then Some(Object(fields - {key})) else None
    case Swap(v) => if key in fields then Some(Object(fields[key := v])) else None
  }

  function EditItem(items: seq<Json>, token: string, change: Change): Option<Json> {
    if token == "-" then
      if change.Put? then Some(Array(items + [change.value])) else None
    else
      match ArrayIndex(token)
      case None => None
      case Some(n) =>
        if change.Put? then
          if n <= |items| then Some(Array(items[..n] + [change.value] + items[n..])) else None
        else if n >= |items| then None
        else if change.Take? then Some(Array(items[..n] + items[n + 1..]))
        else Some(Array(items[n := change.value]))
  }

  /** One change at the location the tokens name; None where RFC 6902 demands an error. */
  function ApplyEdit(doc: Json, tokens: seq<string>, change: Change): Option<Json>
    decreases |tokens|
  {
    if tokens == [] then
      if change.Take? then None else Some(change.value)
    else if doc.Object? then
      if |tokens| == 1 then EditField(doc.fields, tokens[0], change)
      else if tokens[0] !in doc.fields then None
      else
        match ApplyEdit(doc.fields[tokens[0]], tokens[1..], change)
        case None => None
        case Some(inner) => Some(Object(doc.fields[tokens[0] := inner]))
    else if doc.Array? then
      if |tokens| == 1 then EditItem(doc.items, tokens[0], change)
      else
        match ArrayIndex(tokens[0])
        case None => None
        case Some(n) =>
          if n >= |doc.items| then None
          else
            match ApplyEdit(doc.items[n], tokens[1..], change)
            case None => None
            case Some(inner) => Some(Array(doc.items[n := inner]))
    else None
  }

  /** An operation as json.Marshal writes it: the value member is omitted when it is nil. */
  datatype WireOperation = WireOperation(verb: Verb, path: string, value: Option<Json>)

  function Marshal(op: PatchOperation): WireOperation {
    WireOperation(op.verb, op.path, if op.value == Null then None else Some(op.value))
  }

  function MarshalAll(ops: seq<PatchOperation>): seq<WireOperation> {
    if ops == [] then [] else [Marshal(ops[0])] + MarshalAll(ops[1..])
  }

  /** How a reader treats an "add" or "replace" without a value member. */
  datatype Reader = Strict | MissingIsNull

  function ReadValue(op: WireOperation, reader: Reader): Option<Json> {
    if op.value.None? && reader.MissingIsNull? then Some(Null) else op.value
  }

  function ReadChange(op: WireOperation, reader: Reader): Option<Change> {
    if op.verb.Remove? then Some(Take)
    else
      match ReadValue(op, reader)
      case None => None
      case Some(v) => Some(if op.verb.Add? then Put(v) else Swap(v))
  }

  function ApplyOperation(doc: Json, op: WireOperation, reader: Reader): Option<Json> {
    match (ParsePointer(op.path), ReadChange(op, reader))
    case (Some(tokens), Some(change)) => ApplyEdit(doc, tokens, change)
    case _ => None
  }

  /** RFC 6902, section 5: operations in order, the first failure fails the patch. */
  function ApplyPatch(doc: Json, ops: seq<WireOperation>, reader: Reader): Option<Json>
    decreases ops
  {
    if ops == [] then Some(doc)
    else
      match ApplyOperation(doc, ops[0], reader)
      case None => None
      case Some(next) => ApplyPatch(next, ops[1..], reader)
  }

  // ------------------------------------------------------------------ differ

  function DiffOps(path: string, before: Json, after: Json): seq<PatchOperation>
    decreases before, 1, 0
  {
    if before == after then []
    else if before.Object? && after.Object? then
      FieldOps(path, before, after, Sorted(before.fields.Keys + after.fields.Keys))
    else [PatchOperation(Replace, if path == "" then "/" else path, after)]
  }

  function FieldOps(path: string, before: Json, after: Json, keys: seq<string>): seq<PatchOperation>
    requires before.Object? && after.Object?
    requires forall k :: k in keys ==> k in before.fields || k in after.fields
    decreases before, 0, |keys|
  {
    if keys == [] then []
    else KeyOps(path, before, after, keys[0]) + FieldOps(path, before, after, keys[1..])
  }

  function KeyOps(path: string, before: Json, after: Json, key: string): seq<PatchOperation>
    requires before.Object? && after.Object?
    requires key in before.fields || key in after.fields
    decreases before, 0, 0
  {
    var next := path + "/" + EscapePointer(key);
    if key !in after.fields then [PatchOperation(Remove, next, Null)]
    else if key !in before.fields then [PatchOperation(Add, next, after.fields[key])]
    else DiffOps(next, before.fields[key], after.fields[key])
  }

  lemma NextKey(path: string, before: Json, after: Json, keys: seq<string>, i: nat, done: seq<PatchOperation>)
    requires before.Object? && after.Object? && i < |keys|
    requires forall k :: k in keys ==> k in before.fields || k in after.fields
    ensures done + FieldOps(path, before, after, keys[i..])
         == done + KeyOps(path, before, after, keys[i]) + FieldOps(path, before, after, keys[i + 1..])
  {
    assert keys[i..][1..] == keys[i + 1..];
  }

  /** The slice of operations the recursive differ appends to. */
  class OperationLog {
    var operations: seq<PatchOperation>

    constructor ()
      ensures operations == []
    {
      operations := [];
    }

    /** One round of the key loop. */
    method DiffKey(path: string, before: Json, after: Json, key: string)
      requires before.Object? && after.Object?
      requires key in before.fields || key in after.fields
      modifies this
      ensures operations == old(operations) + KeyOps(path, before, after, key)
      decreases before, 0
    {
      var next := path + "/" + EscapePointer(key);
      if key in before.fields && key !in after.fields {
        operations := operations + [PatchOperation(Remove, next, Null)];
      } else if key !in before.fields && key in after.fields {
        operations := operations + [PatchOperation(Add, next, after.fields[key])];
      } else {
        DiffValue(next, before.fields[key], after.fields[key]);
      }
    }

    method DiffValue(path: string, before: Json, after: Json)
      modifies this
      ensures operations == old(operations) + DiffOps(path, before, after)
      decreases before, 1
    {
      if before == after {
        return;
      }
      if before.Object? && after.Object? {
        var ordered := Sorted(before.fields.Keys + after.fields.Keys);
        ghost var goal := operations + FieldOps(path, before, after, ordered);
        var i := 0;
        while i < |ordered|
          invariant 0 <= i <= |ordered|
          invariant goal == operations + FieldOps(path, before, after, ordered[i..])
        {
          NextKey(path, before, after, ordered, i, operations);
          DiffKey(path, before, after, ordered[i]);
          i := i + 1;
        }
        assert ordered[i..] == [];
        return;
      }
      operations := operations + [PatchOperation(Replace, if path == "" then "/" else path, after)];
    }
  }

  // ------------------------------------- the edits a patch stands for, by token

  function Edits(before: Json, after: Json): seq<Edit>
    decreases before, 1, 0
  {
    if before == after then []
    else if before.Object? && after.Object? then
      FieldEdits(before, after, Sorted(before.fields.Keys + after.fields.Keys))
    else [Edit([], Swap(after))]
  }

  function FieldEdits(before: Json, after: Json, keys: seq<string>): seq<Edit>
    requires before.Object? && after.Object?
    requires forall k :: k in keys ==> k in before.fields || k in after.fields
    decreases before, 0, |keys|
  {
    if keys == [] then [] else KeyEdits(before, after, keys[0]) + FieldEdits(before, after, keys[1..])
  }

  function KeyEdits(before: Json, after: Json, key: string): seq<Edit>
    requires before.Object? && after.Object?
    requires key in before.fields || key in after.fields
    decreases before, 0, 0
  {
    if key !in after.fields then [Edit([key], Take)]
    else if key !in before.fields then [Edit([key], Put(after.fields[key]))]
    else Under(key, Edits(before.fields[key], after.fields[key]))
  }

  function Under(key: string, edits: seq<Edit>): seq<Edit> {
    if edits == [] then []
    else [Edit([key] + edits[0].tokens, edits[0].change)] + Under(key, edits[1..])
  }

  function ApplyEdits(doc: Json, edits: seq<Edit>): Option<Json>
    decreases edits
  {
    if edits == [] then Some(doc)
    else
      match ApplyEdit(doc, edits[0].tokens, edits[0].change)
      case None => None
      case Some(next) => ApplyEdits(next, edits[1..])
  }

  function Operation(prefix: seq<string>, edit: Edit): PatchOperation {
    var path := Render(prefix + edit.tokens);
    match edit.change
    case Take => PatchOperation(Remove, path, Null)
    case Put(v) => PatchOperation(Add, path, v)
    case Swap(v) => PatchOperation(Replace, path, v)
  }

  function Operations(prefix: seq<string>, edits: seq<Edit>): seq<PatchOperation> {
    if edits == [] then [] else [Operation(prefix, edits[0])] + Operations(prefix, edits[1..])
  }

  lemma {:induction false} OperationsConcat(prefix: seq<string>, a: seq<Edit>, b: seq<Edit>)
    ensures Operations(prefix, a + b) == Operations(prefix, a) + Operations(prefix, b)
  {
    if a == [] {
      assert a + b == b;
    } else {
      OperationsConcat(prefix, a[1..], b);
      FirstOfConcat(a, b);
      Regroup([Operation(prefix, a[0])], Operations(prefix, a[1..]), Operations(prefix, b));
    }
  }

  lemma FirstOfConcat<T>(a: seq<T>, b: seq<T>)
    requires a != []
    ensures a + b != [] && (a + b)[0] == a[0] && (a + b)[1..] == a[1..] + b
  {
  }

  lemma Regroup<T>(a: seq<T>, b: seq<T>, c: seq<T>)
    ensures a + (b + c) == a + b + c
  {
  }

  lemma {:induction false} OperationsUnder(prefix: seq<string>, key: string, edits: seq<Edit>)
    ensures Operations(prefix, Under(key, edits)) == Operations(prefix + [key], edits)
  {
    if edits != [] {
      OperationsUnder(prefix, key, edits[1..]);
      assert prefix + ([key] + edits[0].tokens) == prefix + [key] + edits[0].tokens;
      assert Under(key, edits)[1..] == Under(key, edits[1..]);
    }
  }

  /** The string paths the differ builds are the rendered token paths of the edits. */
  lemma {:induction false} DiffRendersEdits(prefix: seq<string>, before: Json, after: Json)
    requires prefix != [] || (before.Object? && after.Object?) || before == after
    ensures DiffOps(Render(prefix), before, after) == Operations(prefix, Edits(before, after))
    decreases before, 1, 0
  {
    if before != after {
      if before.Object? && after.Object? {
        FieldsRenderEdits(prefix, before, after, Sorted(before.fields.Keys + after.fields.Keys));
      } else {
        assert prefix + [] == prefix;
        assert Operations(prefix, [Edit([], Swap(after))]) == [Operation(prefix, Edit([], Swap(after)))];
      }
    }
  }

  lemma {:induction false} FieldsRenderEdits(prefix: seq<string>, before: Json, after: Json, keys: seq<string>)
    requires before.Object? && after.Object?
    requires forall k :: k in keys ==> k in before.fields || k in after.fields
    ensures FieldOps(Render(prefix), before, after, keys) == Operations(prefix, FieldEdits(before, after, keys))
    decreases before, 0, |keys|
  {
    if keys != [] {
      var key := keys[0];
      RenderSnoc(prefix, key);
      OperationsConcat(prefix, KeyEdits(before, after, key), FieldEdits(before, after, keys[1..]));
      FieldsRenderEdits(prefix, before, after, keys[1..]);
      if key in before.fields && key in after.fields {
        DiffRendersEdits(prefix + [key], before.fields[key], after.fields[key]);
        OperationsUnder(prefix, key, Edits(before.fields[key], after.fields[key]));
      } else {
        var edits := KeyEdits(before, after, key);
        assert edits[1..] == [];
        assert Operations(prefix, edits) == [Operation(prefix, edits[0])];
      }
    }
  }

  // ------------------------------------------------------ meaning of the edits

  lemma {:induction false} ApplyConcat(doc: Json, a: seq<Edit>, b: seq<Edit>)
    ensures ApplyEdits(doc, a + b)
         == match ApplyEdits(doc, a) { case None => None case Some(mid) => ApplyEdits(mid, b) }
    decreases a
  {
    if a == [] {
      assert a + b == b;
    } else {
      assert (a + b)[0] == a[0] && (a + b)[1..] == a[1..] + b;
      match ApplyEdit(doc, a[0].tokens, a[0].change)
      case None =>
      case Some(next) => ApplyConcat(next, a[1..], b);
    }
  }

  /** No edit of the list targets the root. */
  predicate BelowRoot(edits: seq<Edit>) {
    forall e :: e in edits ==> e.tokens != []
  }

  lemma {:induction false} ApplyUnder(fields: map<string, Json>, key: string, edits: seq<Edit>)
    requires key in fields
    requires BelowRoot(edits) || (|edits| == 1 && edits[0].change.Swap?)
    ensures ApplyEdits(Object(fields), Under(key, edits))
         == match ApplyEdits(fields[key], edits) {
              case None => None
              case Some(inner) => Some(Object(fields[key := inner]))
            }
    decreases edits
  {
    if edits == [] {
      assert fields[key := fields[key]] == fields;
    } else {
      var tokens := [key] + edits[0].tokens;
      assert tokens[1..] == edits[0].tokens;
      assert edits[0] in edits;
      assert Under(key, edits)[1..] == Under(key, edits[1..]);
      match ApplyEdit(fields[key], edits[0].tokens, edits[0].change)
      case None =>
      case Some(inner) =>
        ApplyUnder(fields[key := inner], key, edits[1..]);
        assert fields[key := inner][key] == inner;
        match ApplyEdits(inner, edits[1..]) {
          case None =>
          case Some(last) => assert fields[key := inner][key := last] == fields[key := last];
        }
    }
  }

  /** Fields named in keys as in the second map, the others as in the first. */
  function Blend(own: map<string, Json>, other: map<string, Json>, keys: seq<string>): map<string, Json> {
    map k | k in own.Keys + other.Keys && (if k in keys then k in other else k in own)
      :: if k in keys then other[k] else own[k]
  }

  lemma BlendStep(own: map<string, Json>, other: map<string, Json>, keys: seq<string>)
    requires keys != []
    ensures Blend(Blend(own, other, keys[..1]), other, keys[1..]) == Blend(own, other, keys)
  {
    assert forall k :: k in keys <==> k in keys[..1] || k in keys[1..];
  }

  lemma BlendAll(own: map<string, Json>, other: map<string, Json>)
    ensures Blend(own, other, Sorted(own.Keys + other.Keys)) == other
  {
    var keys := Sorted(own.Keys + other.Keys);
    assert forall k :: k in own || k in other ==> k in keys;
  }

  lemma {:induction false} EditsMeanAfter(before: Json, after: Json)
    ensures ApplyEdits(before, Edits(before, after)) == Some(after)
    ensures before.Object? && after.Object? ==> BelowRoot(Edits(before, after))
    ensures BelowRoot(Edits(before, after)) || Edits(before, after) == [Edit([], Swap(after))]
    decreases before, 1, 0
  {
    if before != after {
      if before.Object? && after.Object? {
        var keys := Sorted(before.fields.Keys + after.fields.Keys);
        SortedAscending(before.fields.Keys + after.fields.Keys);
        FieldEditsMeanBlend(before.fields, before, after, keys);
        BlendAll(before.fields, after.fields);
      } else {
        assert ApplyEdit(before, [], Swap(after)) == Some(after);
      }
    }
  }

  lemma {:induction false} FieldEditsMeanBlend(now: map<string, Json>, before: Json, after: Json, keys: seq<string>)
    requires before.Object? && after.Object? && Ascending(keys)
    requires forall k :: k in keys ==> k in before.fields || k in after.fields
    requires forall k :: k in keys ==> (k in now <==> k in before.fields)
    requires forall k :: k in keys && k in now ==> now[k] == before.fields[k]
    ensures ApplyEdits(Object(now), FieldEdits(before, after, keys))
         == Some(Object(Blend(now, after.fields, keys)))
    ensures BelowRoot(FieldEdits(before, after, keys))
    decreases before, 0, |keys|
  {
    if keys == [] {
      assert Blend(now, after.fields, keys) == now;
    } else {
      var key, rest := keys[0], keys[1..];
      assert key !in rest by { AscendingDistinct(keys); }
      assert keys[..1] == [key];
      var next := Blend(now, after.fields, [key]);
      KeyEditsMeanBlend(now, before, after, key);
      FieldEditsMeanBlend(next, before, after, rest);
      BlendStep(now, after.fields, keys);
      ApplyConcat(Object(now), KeyEdits(before, after, key), FieldEdits(before, after, rest));
    }
  }

  lemma {:induction false} KeyEditsMeanBlend(now: map<string, Json>, before: Json, after: Json, key: string)
    requires before.Object? && after.Object?
    requires key in before.fields || key in after.fields
    requires key in now <==> key in before.fields
    requires key in now ==> now[key] == before.fields[key]
    ensures ApplyEdits(Object(now), KeyEdits(before, after, key)) == Some(Object(Blend(now, after.fields, [key])))
    ensures BelowRoot(KeyEdits(before, after, key))
    decreases before, 0, 0
  {
    if key in before.fields && key in after.fields {
      var inner := Edits(before.fields[key], after.fields[key]);
      EditsMeanAfter(before.fields[key], after.fields[key]);
      ApplyUnder(now, key, inner);
      UnderBelowRoot(key, inner);
    } else {
      OneKeyEdit(now, key, if key in before.fields then Take else Put(after.fields[key]));
    }
    BlendOne(now, after.fields, key);
  }

  /** A member of the root is taken away or put in. */
  lemma OneKeyEdit(now: map<string, Json>, key: string, change: Change)
    requires (change.Take? && key in now) || change.Put?
    ensures var edits := [Edit([key], change)];
      && BelowRoot(edits)
      && ApplyEdits(Object(now), edits) == Some(Object(if change.Take? then now - {key} else now[key := change.value]))
  {
    var edits := [Edit([key], change)];
    assert edits[1..] == [] && edits[0].tokens == [key];
  }

  lemma BlendOne(now: map<string, Json>, other: map<string, Json>, key: string)
    ensures Blend(now, other, [key]) == if key in other then now[key := other[key]] else now - {key}
  {
  }

  lemma {:induction false} UnderBelowRoot(key: string, edits: seq<Edit>)
    ensures BelowRoot(Under(key, edits))
  {
    if edits != [] {
      UnderBelowRoot(key, edits[1..]);
    }
  }

  // ------------------------------------------------------------- the wire form

  /** Some edit writes a null at its target, as opposed to inside its value. */
  predicate WritesNull(edits: seq<Edit>) {
    exists e :: e in edits && !e.change.Take? && e.change.value == Null
  }

  /**
   * The new document has a null where the old one has something else or
   * nothing, reached through fields that are objects in both.
   */
  predicate IntroducesNull(before: Json, after: Json)
    decreases before
  {
    if before.Object? && after.Object? then
      exists k :: k in after.fields &&
        (if k in before.fields then IntroducesNull(before.fields[k], after.fields[k]) else after.fields[k] == Null)
    else after == Null && before != Null
  }

  lemma {:induction false} UnderWritesNull(key: string, edits: seq<Edit>)
    ensures WritesNull(Under(key, edits)) <==> WritesNull(edits)
  {
    if edits != [] {
      var moved := Under(key, edits);
      UnderWritesNull(key, edits[1..]);
      assert moved[1..] == Under(key, edits[1..]);
      assert forall e :: e in edits <==> e == edits[0] || e in edits[1..];
      assert forall e :: e in moved <==> e == moved[0] || e in moved[1..];
    }
  }

  lemma {:induction false} NotIntroducedWhenEqual(doc: Json)
    ensures !IntroducesNull(doc, doc)
    decreases doc
  {
    if doc.Object? {
      forall k | k in doc.fields ensures !IntroducesNull(doc.fields[k], doc.fields[k]) {
        NotIntroducedWhenEqual(doc.fields[k]);
      }
    }
  }

  lemma {:induction false} EditsWriteNull(before: Json, after: Json)
    ensures WritesNull(Edits(before, after)) <==> IntroducesNull(before, after)
    decreases before, 1, 0
  {
    if before == after {
      NotIntroducedWhenEqual(before);
    } else if before.Object? && after.Object? {
      var keys := Sorted(before.fields.Keys + after.fields.Keys);
      FieldEditsWriteNull(before, after, keys);
      assert forall k :: k in after.fields ==> k in keys;
    } else {
      var edit := Edit([], Swap(after));
      assert edit in Edits(before, after);
    }
  }

  predicate KeyIntroducesNull(before: Json, after: Json, key: string)
    requires before.Object? && after.Object?
  {
    key in after.fields &&
    if key in before.fields then IntroducesNull(before.fields[key], after.fields[key]) else after.fields[key] == Null
  }

  lemma {:induction false} FieldEditsWriteNull(before: Json, after: Json, keys: seq<string>)
    requires before.Object? && after.Object?
    requires forall k :: k in keys ==> k in before.fields || k in after.fields
    ensures WritesNull(FieldEdits(before, after, keys)) <==>
            exists k :: k in keys && KeyIntroducesNull(before, after, k)
    decreases before, 0, |keys|
  {
    if keys != [] {
      var first, rest := KeyEdits(before, after, keys[0]), FieldEdits(before, after, keys[1..]);
      FieldEditsWriteNull(before, after, keys[1..]);
      assert WritesNull(first) <==> KeyIntroducesNull(before, after, keys[0]) by {
        if keys[0] in before.fields && keys[0] in after.fields {
          EditsWriteNull(before.fields[keys[0]], after.fields[keys[0]]);
          UnderWritesNull(keys[0], Edits(before.fields[keys[0]], after.fields[keys[0]]));
        } else {
          assert first[0] in first;
        }
      }
      assert forall e :: e in first + rest <==> e in first || e in rest;
      assert forall k :: k in keys <==> k == keys[0] || k in keys[1..];
    }
  }

  predicate NullAtTarget(edit: Edit) {
    !edit.change.Take? && edit.change.value == Null
  }

  lemma OperationPath(edit: Edit)
    ensures ParsePointer(Operation([], edit).path) == Some(edit.tokens)
  {
    assert [] + edit.tokens == edit.tokens;
    ParseUndoesRender(edit.tokens);
  }

  lemma OperationChange(edit: Edit, reader: Reader)
    ensures ReadChange(Marshal(Operation([], edit)), reader)
         == if reader.Strict? && NullAtTarget(edit) then None else Some(edit.change)
  {
  }

  lemma OperationMeansEdit(doc: Json, edit: Edit, reader: Reader)
    ensures ApplyOperation(doc, Marshal(Operation([], edit)), reader)
         == if reader.Strict? && NullAtTarget(edit) then None else ApplyEdit(doc, edit.tokens, edit.change)
  {
    OperationPath(edit);
    OperationChange(edit, reader);
  }

  lemma WritesNullCons(edits: seq<Edit>)
    requires edits != []
    ensures WritesNull(edits) <==> NullAtTarget(edits[0]) || WritesNull(edits[1..])
  {
    assert forall e :: e in edits <==> e == edits[0] || e in edits[1..];
  }

  lemma MarshalAllCons(edits: seq<Edit>)
    requires edits != []
    ensures MarshalAll(Operations([], edits))
         == [Marshal(Operation([], edits[0]))] + MarshalAll(Operations([], edits[1..]))
  {
    assert Operations([], edits)[1..] == Operations([], edits[1..]);
  }

  lemma {:induction false} WireMeansEdits(doc: Json, edits: seq<Edit>, reader: Reader)
    ensures ApplyPatch(doc, MarshalAll(Operations([], edits)), reader)
         == if reader.Strict? && WritesNull(edits) then None else ApplyEdits(doc, edits)
    decreases edits
  {
    if edits != [] {
      var wire, rest := Marshal(Operation([], edits[0])), MarshalAll(Operations([], edits[1..]));
      MarshalAllCons(edits);
      assert ([wire] + rest)[1..] == rest;
      OperationMeansEdit(doc, edits[0], reader);
      WritesNullCons(edits);
      match ApplyEdit(doc, edits[0].tokens, edits[0].change)
      case None =>
      case Some(next) => WireMeansEdits(next, edits[1..], reader);
    }
  }

  /**
   * A replaced root is written with the path "/", which RFC 6901 reads as the
   * field whose name is empty: no document turns into the new root that way.
   */
  lemma RootReplacementMissesRoot(before: Json, after: Json, reader: Reader)
    requires before != after && !(before.Object? && after.Object?)
    ensures ApplyPatch(before, MarshalAll(DiffOps("", before, after)), reader) != Some(after)
  {
    var op := PatchOperation(Replace, "/", after);
    assert DiffOps("", before, after) == [op];
    assert MarshalAll([op]) == [Marshal(op)];
    assert Render([""]) == "/" by { assert [""][1..] == []; }
    ParseUndoesRender([""]);
    var wire := [Marshal(op)];
    assert wire[1..] == [];
  }

  /** What the differ promises, on every pair of documents and for either reading of a missing value. */
  lemma PatchMeansAfter(before: Json, after: Json)
    ensures ApplyPatch(before, MarshalAll(DiffOps("", before, after)), MissingIsNull) == Some(after)
        <==> before == after || (before.Object? && after.Object?)
    ensures ApplyPatch(before, MarshalAll(DiffOps("", before, after)), Strict) == Some(after)
        <==> (before == after || (before.Object? && after.Object?)) && !IntroducesNull(before, after)
  {
    if before == after || (before.Object? && after.Object?) {
      DiffRendersEdits([], before, after);
      EditsMeanAfter(before, after);
      EditsWriteNull(before, after);
      WireMeansEdits(before, Edits(before, after), Strict);
      WireMeansEdits(before, Edits(before, after), MissingIsNull);
    } else {
      RootReplacementMissesRoot(before, after, Strict);
      RootReplacementMissesRoot(before, after, MissingIsNull);
    }
  }

  // ------------------------------------------------- minimality of the patch

  lemma {:induction false} EmptyExactlyWhenEqual(path: string, before: Json, after: Json)
    ensures DiffOps(path, before, after) == [] <==> before == after
    decreases before
  {
    if before != after && before.Object? && after.Object? {
      var keys := Sorted(before.fields.Keys + after.fields.Keys);
      var key := DifferingKey(before.fields, after.fields);
      assert key in keys;
      if key in before.fields && key in after.fields {
        EmptyExactlyWhenEqual(path + "/" + EscapePointer(key), before.fields[key], after.fields[key]);
      }
      KeyOpsWithinFieldOps(path, before, after, keys, key);
    }
  }

  lemma DifferingKey(a: map<string, Json>, b: map<string, Json>) returns (key: string)
    requires a != b
    ensures key in a.Keys + b.Keys
    ensures !(key in a && key in b && a[key] == b[key])
  {
    if a.Keys == b.Keys {
      key :| key in a && a[key] != b[key];
    } else {
      key :| key in a.Keys + b.Keys && !(key in a && key in b);
    }
  }

  lemma {:induction false} KeyOpsWithinFieldOps(path: string, before: Json, after: Json, keys: seq<string>, key: string)
    requires before.Object? && after.Object?
    requires forall k :: k in keys ==> k in before.fields || k in after.fields
    requires key in keys
    ensures |FieldOps(path, before, after, keys)| >= |KeyOps(path, before, after, key)|
    decreases |keys|
  {
    if key != keys[0] {
      KeyOpsWithinFieldOps(path, before, after, keys[1..], key);
    }
  }

  /** No location the patch touches lies at or below another one. */
  predicate PrefixFree(edits: seq<Edit>) {
    forall i, j :: 0 <= i < |edits| && 0 <= j < |edits| && i != j ==> !(edits[i].tokens <= edits[j].tokens)
  }

  lemma {:induction false} UnderTokens(key: string, edits: seq<Edit>)
    ensures |Under(key, edits)| == |edits|
    ensures forall i :: 0 <= i < |edits| ==> Under(key, edits)[i].tokens == [key] + edits[i].tokens
  {
    if edits != [] {
      UnderTokens(key, edits[1..]);
    }
  }

  lemma {:induction false} EditsPrefixFree(before: Json, after: Json)
    ensures PrefixFree(Edits(before, after))
    decreases before, 1, 0
  {
    if before != after && before.Object? && after.Object? {
      SortedAscending(before.fields.Keys + after.fields.Keys);
      FieldEditsPrefixFree(before, after, Sorted(before.fields.Keys + after.fields.Keys));
    }
  }

  lemma {:induction false} FieldEditsPrefixFree(before: Json, after: Json, keys: seq<string>)
    requires before.Object? && after.Object? && Ascending(keys)
    requires forall k :: k in keys ==> k in before.fields || k in after.fields
    ensures PrefixFree(FieldEdits(before, after, keys))
    ensures forall e :: e in FieldEdits(before, after, keys) ==> e.tokens != [] && e.tokens[0] in keys
    decreases before, 0, |keys|
  {
    if keys != [] {
      var key := keys[0];
      var first, rest := KeyEdits(before, after, key), FieldEdits(before, after, keys[1..]);
      AscendingDistinct(keys);
      FieldEditsPrefixFree(before, after, keys[1..]);
      if key in before.fields && key in after.fields {
        EditsPrefixFree(before.fields[key], after.fields[key]);
        UnderTokens(key, Edits(before.fields[key], after.fields[key]));
        UnderKeepsPrefixFree(key, Edits(before.fields[key], after.fields[key]));
      }
      assert forall i :: 0 <= i < |first| ==> first[i].tokens != [] && first[i].tokens[0] == key;
      forall i, j | 0 <= i < |first| && 0 <= j < |rest|
        ensures !(first[i].tokens <= rest[j].tokens) && !(rest[j].tokens <= first[i].tokens)
      {
        assert rest[j] in rest;
      }
    }
  }

  lemma PrefixUnder(key: string, a: seq<string>, b: seq<string>)
    ensures [key] + a <= [key] + b <==> a <= b
  {
    if [key] + a <= [key] + b {
      assert ([key] + a)[1..] == a && ([key] + b)[1..] == b;
    }
  }

  lemma UnderKeepsPrefixFree(key: string, edits: seq<Edit>)
    requires PrefixFree(edits)
    ensures PrefixFree(Under(key, edits))
  {
    UnderTokens(key, edits);
    var moved := Under(key, edits);
    forall i, j | 0 <= i < |edits| && 0 <= j < |edits| && i != j
      ensures !(moved[i].tokens <= moved[j].tokens)
    {
      PrefixUnder(key, edits[i].tokens, edits[j].tokens);
    }
  }

  lemma {:induction false} OperationPaths(edits: seq<Edit>)
    ensures |Operations([], edits)| == |edits|
    ensures forall i :: 0 <= i < |edits| ==> ParsePointer(Operations([], edits)[i].path) == Some(edits[i].tokens)
  {
    if edits != [] {
      OperationPath(edits[0]);
      OperationPaths(edits[1..]);
    }
  }

  /** No operation's pointer is a prefix of another operation's pointer. */
  lemma PathsPrefixFree(before: Json, after: Json, i: nat, j: nat)
    requires i < |DiffOps("", before, after)| && j < |DiffOps("", before, after)| && i != j
    ensures var a := ParsePointer(DiffOps("", before, after)[i].path);
            var b := ParsePointer(DiffOps("", before, after)[j].path);
            a.Some? && b.Some? && !(a.value <= b.value)
  {
    assert before.Object? && after.Object?;
    DiffRendersEdits([], before, after);
    OperationPaths(Edits(before, after));
    EditsPrefixFree(before, after);
  }

  /** The differ's entry point on two decoded documents, up to marshalling. */
  method Diff(before: Json, after: Json) returns (patch: seq<WireOperation>)
    ensures patch == MarshalAll(DiffOps("", before, after))
    ensures ApplyPatch(before, patch, MissingIsNull) == Some(after)
        <==> before == after || (before.Object? && after.Object?)
    ensures ApplyPatch(before, patch, Strict) == Some(after)
        <==> (before == after || (before.Object? && after.Object?)) && !IntroducesNull(before, after)
    ensures patch == [] <==> before == after
  {
    var log := new OperationLog();
    log.DiffValue("", before, after);
    assert log.operations == DiffOps("", before, after);
    patch := MarshalAll(log.operations);
    PatchMeansAfter(before, after);
    EmptyExactlyWhenEqual("", before, after);
  }

}
