/**
 * Dotted configuration keys and the nested objects they name: splitting a key,
 * writing a value at its path, and when a nested object holds exactly the
 * values of a set of dotted keys.
 */
module DottedKeys {
  import opened Documents
  import opened Ordering

  type Flat = map<string, Json>

  // ------------------------------------------------------------- key strings

  function FirstDot(s: string): (i: nat)
    requires '.' in s
    ensures i < |s| && s[i] == '.' && '.' !in s[..i]
  {
    if s[0] == '.' then 0 else
      var i := 1 + FirstDot(s[1..]);
      assert s[..i] == [s[0]] + s[1..][..i - 1];
      i
  }

  lemma {:induction false} FirstDotAt(s: string, n: nat)
    requires n < |s| && s[n] == '.' && '.' !in s[..n]
    ensures FirstDot(s) == n
  {
    if n > 0 {
      assert s[0] == s[..n][0];
      assert s[1..][..n - 1] == s[..n][1..];
      FirstDotAt(s[1..], n - 1);
    }
  }

  function Head(key: string): (r: string)
    ensures '.' !in r
  {
    if '.' in key then key[..FirstDot(key)] else key
  }

  function Tail(key: string): string
    requires '.' in key
  {
    key[FirstDot(key) + 1..]
  }

  function SplitDots(key: string): (parts: seq<string>)
    ensures |parts| > 0
    decreases |key|
  {
    if '.' in key then [Head(key)] + SplitDots(Tail(key)) else [key]
  }

  /** Keys that begin with a part, as every registered field key does. */
  predicate Anchored(key: string) {
    key != "" && key[0] != '.'
  }

  function Candidate(prefix: string, key: string): string {
    if prefix == "" then key else prefix + "." + key
  }

  /** key names something nested below above. */
  predicate Under(above: string, key: string) {
    above + "." <= key
  }

  lemma HeadAndTail(key: string)
    requires '.' in key
    ensures key == Head(key) + "." + Tail(key)
  {
  }

  lemma UnderHead(k: string, key: string)
    requires '.' !in k
    ensures Under(k, key) <==> '.' in key && Head(key) == k
  {
    if Under(k, key) {
      FirstDotAt(key, |k|);
      assert key[..|k|] == k;
    }
    if '.' in key && Head(key) == k { HeadAndTail(key); }
  }

  lemma CandidateInjective(prefix: string, a: string, b: string)
    ensures Candidate(prefix, a) == Candidate(prefix, b) ==> a == b
  {
    if prefix != "" && Candidate(prefix, a) == Candidate(prefix, b) {
      assert a == Candidate(prefix, a)[|prefix| + 1..];
      assert b == Candidate(prefix, b)[|prefix| + 1..];
    }
  }

  lemma UnderCandidates(prefix: string, a: string, b: string)
    ensures Under(Candidate(prefix, a), Candidate(prefix, b)) <==> Under(a, b)
  {
    if prefix != "" {
      var p := prefix + ".";
      assert Candidate(prefix, a) + "." == p + (a + ".") && Candidate(prefix, b) == p + b;
      if Under(a, b) { assert p + b == p + (a + ".") + b[|a| + 1..]; }
      if p + (a + ".") <= p + b {
        forall i | 0 <= i < |a| + 1 ensures (a + ".")[i] == b[i] {
          assert (p + (a + "."))[|p| + i] == (p + b)[|p| + i];
        }
      }
    }
  }

  lemma CandidateStep(prefix: string, key: string)
    requires '.' in key && Candidate(prefix, Head(key)) != ""
    ensures Candidate(Candidate(prefix, Head(key)), Tail(key)) == Candidate(prefix, key)
  {
    HeadAndTail(key);
    if prefix != "" {
      assert prefix + "." + Head(key) + "." + Tail(key) == prefix + "." + key;
    }
  }

  lemma {:induction false} UnderIsBelow(a: string, b: string)
    requires Under(a, b)
    ensures Below(a, b)
  {
    if a != "" {
      assert a[0] == b[0];
      assert a[1..] + "." == (a + ".")[1..] <= b[1..];
      UnderIsBelow(a[1..], b[1..]);
    }
  }

  // ---------------------------------------------------------- nested objects

  /** Writes the value at the path, replacing whatever is not an object on the way. */
  function SetValue(target: map<string, Json>, parts: seq<string>, value: Json): map<string, Json>
    requires |parts| > 0
    decreases |parts|
  {
    if |parts| == 1 then target[parts[0] := value] else
      var next := if parts[0] in target && target[parts[0]].Object? then target[parts[0]].fields else map[];
      target[parts[0] := Object(SetValue(next, parts[1..], value))]
  }

  /** Some key of the set is this one or lies under it. */
  ghost predicate Reaches(keys: set<string>, candidate: string) {
    exists f :: f in keys && (f == candidate || Under(candidate, f))
  }

  /** Below the prefix, the object holds the values of exactly these keys. */
  ghost predicate Fits(node: Json, values: Flat, prefix: string)
    requires node.Object?
    decreases node
  {
    && (forall k :: k in node.fields <==> '.' !in k && Reaches(values.Keys, Candidate(prefix, k)))
    && forall k :: k in node.fields ==> FitsAt(node, k, values, Candidate(prefix, k))
  }

  ghost predicate FitsAt(node: Json, k: string, values: Flat, candidate: string)
    requires node.Object? && k in node.fields
    decreases node, 0
  {
    if candidate in values then node.fields[k] == values[candidate]
    else node.fields[k].Object? && Fits(node.fields[k], values, candidate)
  }

  ghost predicate PrefixFree(keys: set<string>) {
    forall a, b :: a in keys && b in keys ==> !Under(a, b)
  }

  lemma EmptyFits(values: Flat, prefix: string)
    requires prefix != "" && forall f :: f in values ==> !Under(prefix, f)
    ensures Fits(Object(map[]), values, prefix)
  {
    forall k ensures !('.' !in k && Reaches(values.Keys, Candidate(prefix, k))) {
      assert forall f :: (f == Candidate(prefix, k) || Under(Candidate(prefix, k), f)) ==> Under(prefix, f);
    }
  }

  lemma ReachesFrame(keys: set<string>, key: string, candidate: string)
    requires key != candidate && !Under(candidate, key)
    ensures Reaches(keys + {key}, candidate) <==> Reaches(keys, candidate)
  {
  }

  /** Objects elsewhere are not disturbed by one more key. */
  lemma {:induction false} FitsFrame(node: Json, values: Flat, prefix: string, key: string, value: Json)
    requires node.Object? && Fits(node, values, prefix)
    requires prefix != "" && !Under(prefix, key)
    ensures Fits(node, values[key := value], prefix)
    decreases node
  {
    var wider := values[key := value];
    assert wider.Keys == values.Keys + {key};
    forall k
      ensures Reaches(wider.Keys, Candidate(prefix, k)) <==> Reaches(values.Keys, Candidate(prefix, k))
    {
      ReachesFrame(values.Keys, key, Candidate(prefix, k));
    }
    forall k | k in node.fields ensures FitsAt(node, k, wider, Candidate(prefix, k)) {
      assert FitsAt(node, k, values, Candidate(prefix, k));
      if Candidate(prefix, k) !in values {
        FitsFrame(node.fields[k], values, Candidate(prefix, k), key, value);
      }
    }
  }

  /** The objects off the path of a new key, one level at a time. */
  lemma SiblingFits(node: Json, values: Flat, prefix: string, rest: string, value: Json, k: string)
    requires node.Object? && Fits(node, values, prefix)
    requires k in node.fields && k != Head(rest) && Candidate(prefix, k) != ""
    ensures FitsAt(node, k, values[Candidate(prefix, rest) := value], Candidate(prefix, k))
  {
    var key, c := Candidate(prefix, rest), Candidate(prefix, k);
    assert FitsAt(node, k, values, c);
    UnderHead(k, rest);
    UnderCandidates(prefix, k, rest);
    CandidateInjective(prefix, k, rest);
    if c !in values { FitsFrame(node.fields[k], values, c, key, value); }
  }

  lemma BranchesGrow(values: Flat, prefix: string, rest: string, value: Json, k: string)
    requires '.' !in k
    ensures Reaches(values[Candidate(prefix, rest) := value].Keys, Candidate(prefix, k)) <==>
            Reaches(values.Keys, Candidate(prefix, k)) || k == Head(rest)
  {
    var key, c := Candidate(prefix, rest), Candidate(prefix, k);
    assert values[key := value].Keys == values.Keys + {key};
    UnderHead(k, rest);
    UnderCandidates(prefix, k, rest);
    CandidateInjective(prefix, k, rest);
    if k == Head(rest) {
      assert key in values.Keys + {key};
    } else {
      ReachesFrame(values.Keys, key, c);
    }
  }

  lemma AnchoredCandidate(keys: set<string>, prefix: string, k: string)
    requires forall f :: f in keys ==> Anchored(f)
    requires Reaches(keys, Candidate(prefix, k))
    ensures Candidate(prefix, k) != ""
  {
    var f :| f in keys && (f == Candidate(prefix, k) || Under(Candidate(prefix, k), f));
    assert Anchored(f);
  }

  /** Writing one more value at its path leaves an object that holds one more value. */
  lemma {:induction false} SetFits(node: Json, values: Flat, prefix: string, rest: string, value: Json)
    requires node.Object? && Fits(node, values, prefix)
    requires PrefixFree(values.Keys + {Candidate(prefix, rest)})
    requires Candidate(prefix, rest) !in values
    requires forall f :: f in values.Keys + {Candidate(prefix, rest)} ==> Anchored(f)
    ensures Fits(Object(SetValue(node.fields, SplitDots(rest), value)), values[Candidate(prefix, rest) := value],
            prefix)
    decreases |rest|
  {
    var key, k := Candidate(prefix, rest), Head(rest);
    var wider := values[key := value];
    assert wider.Keys == values.Keys + {key};
    var after := Object(SetValue(node.fields, SplitDots(rest), value));
    assert after.fields.Keys == node.fields.Keys + {k};
    forall other | '.' !in other
      ensures Reaches(wider.Keys, Candidate(prefix, other)) <==>
              Reaches(values.Keys, Candidate(prefix, other)) || other == k
    {
      BranchesGrow(values, prefix, rest, value, other);
    }
    forall other | other in after.fields ensures FitsAt(after, other, wider, Candidate(prefix, other)) {
      AnchoredCandidate(wider.Keys, prefix, other);
      if other == k {
        HeadFits(node, values, prefix, rest, value);
      } else {
        SiblingFits(node, values, prefix, rest, value, other);
        assert after.fields[other] == node.fields[other];
      }
    }
  }

  lemma {:induction false} HeadFits(node: Json, values: Flat, prefix: string, rest: string, value: Json)
    requires node.Object? && Fits(node, values, prefix)
    requires PrefixFree(values.Keys + {Candidate(prefix, rest)})
    requires Candidate(prefix, rest) !in values
    requires forall f :: f in values.Keys + {Candidate(prefix, rest)} ==> Anchored(f)
    requires Candidate(prefix, Head(rest)) != ""
    ensures FitsAt(Object(SetValue(node.fields, SplitDots(rest), value)), Head(rest),
                   values[Candidate(prefix, rest) := value], Candidate(prefix, Head(rest)))
    decreases |rest|, 0
  {
    if '.' in rest {
      var key, k, c := Candidate(prefix, rest), Head(rest), Candidate(prefix, Head(rest));
      CandidateStep(prefix, rest);
      assert Under(c, key);
      assert key in values.Keys + {key};
      assert c !in values.Keys + {key};
      var next := if k in node.fields && node.fields[k].Object? then node.fields[k].fields else map[];
      assert Fits(Object(next), values, c) by {
        if k in node.fields {
          assert FitsAt(node, k, values, c);
        } else {
          assert !Reaches(values.Keys, c);
          EmptyFits(values, c);
        }
      }
      SetFits(Object(next), values, c, Tail(rest), value);
    }
  }

  // -------------------------------------------------------- overwritten paths

  /** An object sits at the path of this key. */
  predicate ObjectAt(node: Json, key: string)
    requires node.Object?
    decreases |key|
  {
    && Head(key) in node.fields
    && node.fields[Head(key)].Object?
    && ('.' in key ==> ObjectAt(node.fields[Head(key)], Tail(key)))
  }

  lemma UnderTails(above: string, key: string)
    requires '.' in above && '.' in key && Head(above) == Head(key)
    ensures Under(above, key) <==> Under(Tail(above), Tail(key))
    ensures above == key <==> Tail(above) == Tail(key)
  {
    HeadAndTail(above);
    HeadAndTail(key);
    UnderCandidates(Head(above), Tail(above), Tail(key));
    if Head(key) == "" {
      assert above == "." + Tail(above) && key == "." + Tail(key);
      assert (above + ".")[1..] == Tail(above) + "." && key[1..] == Tail(key);
    }
  }

  lemma UnderHeads(above: string, key: string)
    requires Under(above, key)
    ensures '.' in key && Head(above) == Head(key)
  {
    UnderHead(Head(above), key);
    if '.' in above {
      HeadAndTail(above);
      assert above + "." == (Head(above) + ".") + (Tail(above) + ".");
    }
  }

  lemma {:induction false} WritingBelowMakesObject(target: map<string, Json>, above: string, key: string, value: Json)
    requires Under(above, key)
    ensures ObjectAt(Object(SetValue(target, SplitDots(key), value)), above)
    decreases |above|
  {
    UnderHeads(above, key);
    if '.' in above {
      UnderTails(above, key);
      var k := Head(key);
      var next := if k in target && target[k].Object? then target[k].fields else map[];
      WritingBelowMakesObject(next, Tail(above), Tail(key), value);
    }
  }

  lemma {:induction false} WritingElsewhereKeepsObject(
    target: map<string, Json>, kept: string, key: string, value: Json)
    requires ObjectAt(Object(target), kept)
    requires key != kept && !Under(key, kept)
    ensures ObjectAt(Object(SetValue(target, SplitDots(key), value)), kept)
    decreases |kept|
  {
    if Head(key) == Head(kept) {
      UnderHead(Head(key), kept);
      if '.' in key && '.' in kept {
        UnderTails(key, kept);
        WritingElsewhereKeepsObject(target[Head(key)].fields, Tail(kept), Tail(key), value);
      }
    }
  }
}
