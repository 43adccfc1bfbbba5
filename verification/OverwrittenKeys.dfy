/**
 * Writing the value of a key below a key written before: the earlier value is
 * replaced by an object, and nothing else changes.
 */
module OverwrittenKeys {
  import opened Documents
  import opened DottedKeys

  /** Objects elsewhere are not disturbed by one key less. */
  lemma {:induction false} RemoveFrame(node: Json, values: Flat, prefix: string, a: string)
    requires node.Object? && Fits(node, values, prefix)
    requires prefix != "" && !Under(prefix, a)
    ensures Fits(node, values - {a}, prefix)
    decreases node
  {
    forall k
      ensures Reaches((values - {a}).Keys, Candidate(prefix, k)) <==> Reaches(values.Keys, Candidate(prefix, k))
    {
      ReachesLess(values.Keys, a, Candidate(prefix, k));
    }
    forall k | k in node.fields ensures FitsAt(node, k, values - {a}, Candidate(prefix, k)) {
      assert FitsAt(node, k, values, Candidate(prefix, k));
      if Candidate(prefix, k) !in values { RemoveFrame(node.fields[k], values, Candidate(prefix, k), a); }
    }
  }

  lemma ReachesLess(keys: set<string>, a: string, candidate: string)
    requires a != candidate && !Under(candidate, a)
    ensures Reaches(keys - {a}, candidate) <==> Reaches(keys, candidate)
  {
    if Reaches(keys, candidate) {
      var f :| f in keys && (f == candidate || Under(candidate, f));
      assert f in keys - {a};
    }
  }

  /** Two keys above the same key lie one above the other. */
  lemma AncestorsComparable(a: string, b: string, key: string)
    requires Under(a, key) && Under(b, key)
    ensures a == b || Under(a, b) || Under(b, a)
  {
    assert a == key[..|a|] && b == key[..|b|];
    if |a| < |b| { assert b[..|a| + 1] == key[..|a| + 1] == a + "."; }
    if |b| < |a| { assert a[..|b| + 1] == key[..|b| + 1] == b + "."; }
  }

  /** A key above another, both written below the prefix, goes through the same member. */
  lemma SameHead(prefix: string, above: string, rest: string)
    requires Under(above, rest)
    ensures '.' in rest && Head(above) == Head(rest)
    ensures Under(Candidate(prefix, above), Candidate(prefix, rest))
    ensures '.' in above ==>
      Under(Tail(above), Tail(rest)) && Under(Candidate(prefix, Head(rest)), Candidate(prefix, above))
    ensures '.' !in above ==> above == Head(rest)
  {
    UnderHeads(above, rest);
    UnderCandidates(prefix, above, rest);
    if '.' in above {
      UnderTails(above, rest);
      UnderHead(Head(rest), above);
      UnderCandidates(prefix, Head(rest), above);
    }
  }

  /** The values once the one above is given up for the new one. */
  function Exchanged(values: Flat, a: string, key: string, value: Json): Flat {
    (values - {a})[key := value]
  }

  lemma BranchesOver(values: Flat, prefix: string, rest: string, value: Json, above: string, k: string)
    requires Under(above, rest) && '.' !in k && Candidate(prefix, above) in values
    ensures var exchanged := Exchanged(values, Candidate(prefix, above), Candidate(prefix, rest), value);
      Reaches(exchanged.Keys, Candidate(prefix, k)) <==> Reaches(values.Keys, Candidate(prefix, k))
  {
    var a, c := Candidate(prefix, above), Candidate(prefix, k);
    BranchesGrow(values - {a}, prefix, rest, value, k);
    SameHead(prefix, above, rest);
    if k == Head(rest) {
      assert a in values.Keys && (a == c || Under(c, a));
    } else {
      OtherBranch(prefix, above, k);
      ReachesLess(values.Keys, a, c);
    }
  }

  /** Another member does not reach the key. */
  lemma OtherBranch(prefix: string, above: string, k: string)
    requires '.' !in k && k != Head(above)
    ensures Candidate(prefix, above) != Candidate(prefix, k) && !Under(Candidate(prefix, k), Candidate(prefix, above))
  {
    UnderHead(k, above);
    UnderCandidates(prefix, k, above);
    CandidateInjective(prefix, above, k);
  }

  lemma SiblingOver(node: Json, values: Flat, prefix: string, rest: string, value: Json, above: string, k: string)
    requires node.Object? && Fits(node, values, prefix) && Under(above, rest)
    requires k in node.fields && k != Head(rest) && Candidate(prefix, k) != ""
    ensures FitsAt(node, k,
                   Exchanged(values, Candidate(prefix, above), Candidate(prefix, rest), value), Candidate(prefix, k))
  {
    var a, key, c := Candidate(prefix, above), Candidate(prefix, rest), Candidate(prefix, k);
    SameHead(prefix, above, rest);
    OtherBranch(prefix, above, k);
    OtherBranch(prefix, rest, k);
    assert FitsAt(node, k, values, c);
    if c !in values {
      RemoveFrame(node.fields[k], values, c, a);
      FitsFrame(node.fields[k], values - {a}, c, key, value);
    }
  }

  /** No other key lies above or below the new one, and none at it. */
  ghost predicate OnlyAbove(values: Flat, a: string, key: string) {
    && a in values && Under(a, key) && !values[a].Object? && key !in values && PrefixFree(values.Keys)
    && (forall f :: f in values ==> Anchored(f) && !Under(key, f)) && Anchored(key)
  }

  lemma ExchangedPrefixFree(values: Flat, a: string, key: string)
    requires OnlyAbove(values, a, key)
    ensures PrefixFree((values - {a}).Keys + {key})
  {
    forall f | f in values && f != a ensures !Under(f, key) {
      if Under(f, key) { AncestorsComparable(f, a, key); }
    }
  }

  /** Writing below a key already written replaces its value. */
  lemma {:induction false} OverFits(node: Json, values: Flat, prefix: string, rest: string, value: Json, above: string)
    requires node.Object? && Fits(node, values, prefix) && Under(above, rest)
    requires OnlyAbove(values, Candidate(prefix, above), Candidate(prefix, rest))
    ensures Fits(Object(SetValue(node.fields, SplitDots(rest), value)),
                 Exchanged(values, Candidate(prefix, above), Candidate(prefix, rest), value), prefix)
    decreases |rest|
  {
    var a, key, k := Candidate(prefix, above), Candidate(prefix, rest), Head(rest);
    var wider := Exchanged(values, a, key, value);
    var after := Object(SetValue(node.fields, SplitDots(rest), value));
    SameHead(prefix, above, rest);
    assert after.fields.Keys == node.fields.Keys + {k};
    forall other | '.' !in other
      ensures Reaches(wider.Keys, Candidate(prefix, other)) <==> Reaches(values.Keys, Candidate(prefix, other))
    {
      BranchesOver(values, prefix, rest, value, above, other);
    }
    assert Reaches(values.Keys, Candidate(prefix, k)) by { assert a in values.Keys; }
    forall other | other in after.fields ensures FitsAt(after, other, wider, Candidate(prefix, other)) {
      AnchoredCandidate(values.Keys, prefix, other);
      if other == k {
        HeadOver(node, values, prefix, rest, value, above);
      } else {
        SiblingOver(node, values, prefix, rest, value, above, other);
        assert after.fields[other] == node.fields[other];
      }
    }
  }

  lemma {:induction false} HeadOver(node: Json, values: Flat, prefix: string, rest: string, value: Json, above: string)
    requires node.Object? && Fits(node, values, prefix) && Under(above, rest)
    requires OnlyAbove(values, Candidate(prefix, above), Candidate(prefix, rest))
    requires Head(rest) in node.fields && Candidate(prefix, Head(rest)) != ""
    ensures FitsAt(Object(SetValue(node.fields, SplitDots(rest), value)), Head(rest),
                   Exchanged(values, Candidate(prefix, above), Candidate(prefix, rest), value),
                   Candidate(prefix, Head(rest)))
    decreases |rest|, 0
  {
    var a, key, k, c := Candidate(prefix, above), Candidate(prefix, rest), Head(rest), Candidate(prefix, Head(rest));
    SameHead(prefix, above, rest);
    CandidateStep(prefix, rest);
    assert FitsAt(node, k, values, c);
    if '.' in above {
      CandidateStep(prefix, above);
      ExchangedLacks(values, a, key, value, c);
      OverFits(node.fields[k], values, c, Tail(rest), value, Tail(above));
    } else {
      UnderCandidates(prefix, k, rest);
      ExchangedLacks(values, a, key, value, c);
      WrittenAfresh(values, a, key, Tail(rest), value);
    }
  }

  /** No value is left at a place above the new key. */
  lemma ExchangedLacks(values: Flat, a: string, key: string, value: Json, c: string)
    requires OnlyAbove(values, a, key) && Under(c, key) && (c == a || Under(c, a))
    ensures c !in Exchanged(values, a, key, value) && (c != a ==> c !in values)
  {
  }

  /** In place of the value given up a new object is begun. */
  lemma WrittenAfresh(values: Flat, a: string, key: string, rest: string, value: Json)
    requires OnlyAbove(values, a, key) && key == Candidate(a, rest)
    ensures Fits(Object(SetValue(map[], SplitDots(rest), value)), Exchanged(values, a, key, value), a)
  {
    ExchangedPrefixFree(values, a, key);
    EmptyFits(values - {a}, a);
    SetFits(Object(map[]), values - {a}, a, rest, value);
  }
}
