/**
 * What comparing two runs and superseding a baseline decide, said of the
 * observations themselves.
 */
module EvidenceRules {
  import opened Documents
  import opened Texts
  import opened Evidence

  // --------------------------------------------------------------- comparing

  /** The observation is of this kind and key, which a NUL separates. */
  predicate Under(o: Observation, c: string) {
    c == o.kind + "\U{0000}" + o.key
  }

  /** No observation of the kind and key is among them. */
  predicate Missing(observations: seq<Observation>, c: string) {
    forall o :: o in observations ==> !Under(o, c)
  }

  /** The last observation of the kind and key. */
  predicate IsLast(o: Observation, observations: seq<Observation>, c: string) {
    exists i :: 0 <= i < |observations| && observations[i] == o && Under(o, c) && Missing(observations[i + 1..], c)
  }

  lemma UnderIsComposite(o: Observation, c: string)
    ensures Under(o, c) <==> Composite(o) == c
  {
    assert [NUL] == "\U{0000}";
  }

  lemma LatestOfMore(observations: seq<Observation>, c: string)
    requires observations != []
    ensures var n := |observations| - 1;
      var before, o := All(observations[..n]), observations[n];
      (c in All(observations) <==> Composite(o) == c || c in before) &&
      (c in All(observations) ==> All(observations)[c] == if Composite(o) == c then o else before[c])
  {
    var n := |observations| - 1;
    assert observations == observations[..n] + [observations[n]];
    AllMore(observations[..n], observations[n]);
  }

  /** For every kind and key the last observation of a run is held. */
  lemma {:induction false} LastIsHeld(observations: seq<Observation>, c: string)
    ensures c !in All(observations) <==> Missing(observations, c)
    ensures c in All(observations) ==> IsLast(All(observations)[c], observations, c)
  {
    if observations != [] {
      var n := |observations| - 1;
      var rest, o := observations[..n], observations[n];
      LastIsHeld(rest, c);
      LatestOfMore(observations, c);
      UnderIsComposite(o, c);
      MissingOneMore(observations, c);
      if Under(o, c) {
        assert observations[n] == o && observations[n + 1..] == [];
      } else if c in All(rest) {
        LastOneMore(All(rest)[c], observations, c);
      }
    }
  }

  lemma MissingOneMore(observations: seq<Observation>, c: string)
    requires observations != []
    ensures var n := |observations| - 1;
      Missing(observations, c) <==> Missing(observations[..n], c) && !Under(observations[n], c)
  {
    var n := |observations| - 1;
    assert forall o :: o in observations <==> o in observations[..n] || o == observations[n] by {
      assert observations == observations[..n] + [observations[n]];
    }
  }

  lemma LastOneMore(o: Observation, observations: seq<Observation>, c: string)
    requires observations != [] && !Under(observations[|observations| - 1], c)
    requires IsLast(o, observations[..|observations| - 1], c)
    ensures IsLast(o, observations, c)
  {
    var n := |observations| - 1;
    var rest := observations[..n];
    var i :| 0 <= i < n && rest[i] == o && Under(o, c) && Missing(rest[i + 1..], c);
    var later := observations[i + 1..];
    assert later[..|later| - 1] == rest[i + 1..] && later[|later| - 1] == observations[n];
    MissingOneMore(later, c);
    assert observations[i] == o;
  }

  /** What the item says of the two runs: each side's last observation, and how they compare. */
  ghost predicate SaysOfRuns(item: Item, recode: Recoding, baseline: seq<Observation>, candidate: seq<Observation>) {
    var c := item.kind + "\U{0000}" + item.key;
    match item.classification
    case Resolved =>
      Missing(candidate, c) && item.candidate == None && Shows(item.baseline, recode, baseline, c)
    case NewlyIntroduced =>
      Missing(baseline, c) && item.baseline == None && Shows(item.candidate, recode, candidate, c)
    case PreExisting =>
      exists a, b :: IsLast(a, baseline, c) && IsLast(b, candidate, c) && a.status == b.status && a.value == b.value
        && item.baseline == recode(a) && item.candidate == recode(b)
    case Changed =>
      exists a, b :: IsLast(a, baseline, c) && IsLast(b, candidate, c) && (a.status != b.status || a.value != b.value)
        && item.baseline == recode(a) && item.candidate == recode(b)
    case Indeterminate => false
  }

  ghost predicate Shows(recorded: Option<Observation>, recode: Recoding, run: seq<Observation>, c: string) {
    exists o :: IsLast(o, run, c) && recorded == recode(o)
  }

  lemma ItemSays(recode: Recoding, baseline: seq<Observation>, candidate: seq<Observation>, c: string)
    requires NUL in c && (c in All(baseline) || c in All(candidate))
    ensures SaysOfRuns(ItemFor(recode, All(baseline), All(candidate), c), recode, baseline, candidate)
  {
    var base, current := All(baseline), All(candidate);
    var item := ItemFor(recode, base, current, c);
    PartsRejoin(c);
    assert c == item.kind + "\U{0000}" + item.key;
    LastIsHeld(baseline, c);
    LastIsHeld(candidate, c);
    if c in base { assert IsLast(base[c], baseline, c); }
    if c in current { assert IsLast(current[c], candidate, c); }
  }

  /** Every item of a comparison says what the two runs hold for its kind and key. */
  lemma ComparisonSays(recode: Recoding, baseline: seq<Observation>, candidate: seq<Observation>, i: nat)
    requires i < |Compare(recode, baseline, candidate)|
    ensures SaysOfRuns(Compare(recode, baseline, candidate)[i], recode, baseline, candidate)
    ensures '\U{0000}' !in Compare(recode, baseline, candidate)[i].kind
  {
    var keys := KeysOf(baseline, candidate);
    assert keys[i] in keys;
    ItemSays(recode, baseline, candidate, keys[i]);
  }

  // ------------------------------------------------------------- superseding

  /** How many of the items have a recorded candidate. */
  function Recordings(items: seq<Item>): nat {
    if items == [] then 0
    else Recordings(items[..|items| - 1]) + if items[|items| - 1].candidate == None then 0 else 1
  }

  /** The observations are the recorded candidates of the items, in their order. */
  predicate TakesCandidates(observations: seq<Observation>, items: seq<Item>) {
    && |observations| == Recordings(items)
    && forall i :: 0 <= i < |items| && items[i].candidate.Some? ==>
         Recordings(items[..i]) < |observations|
         && observations[Recordings(items[..i])] == items[i].candidate.value
  }

  /** Every recorded candidate is of its item's kind and key. */
  predicate AllOwn(items: seq<Item>) {
    forall i :: 0 <= i < |items| && items[i].candidate.Some? ==>
      items[i].candidate.value.kind == items[i].kind && items[i].candidate.value.key == items[i].key
  }

  lemma ReplacementPrefix(items: seq<Item>, n: nat)
    requires n < |items|
    ensures Replacement(items, n) == Replacement(items[..|items| - 1], n)
    decreases n
  {
    if n > 0 { ReplacementPrefix(items, n - 1); }
  }

  lemma TakesOneMore(observations: seq<Observation>, items: seq<Item>)
    requires items != [] && TakesCandidates(observations, items[..|items| - 1])
    ensures var last := items[|items| - 1];
      TakesCandidates(if last.candidate.Some? then observations + [last.candidate.value] else observations, items)
  {
    var n := |items| - 1;
    forall i | 0 <= i < n && items[i].candidate.Some?
      ensures Recordings(items[..i]) < |observations| &&
              observations[Recordings(items[..i])] == items[i].candidate.value
    {
      assert items[..n][..i] == items[..i] && items[..n][i] == items[i];
    }
  }

  lemma {:induction false} ReplacementTakes(items: seq<Item>)
    ensures Replacement(items, |items|).Success? <==> AllOwn(items)
    ensures AllOwn(items) ==> TakesCandidates(Replacement(items, |items|).value, items)
  {
    if items != [] {
      var n := |items| - 1;
      ReplacementTakes(items[..n]);
      ReplacementPrefix(items, n);
      assert AllOwn(items) <==> AllOwn(items[..n]) && OwnEvidence(items[n]);
      if AllOwn(items) { TakesOneMore(Replacement(items[..n], n).value, items); }
    }
  }

  lemma {:induction false} TrimEmptyIff(s: string)
    ensures Trim(s) == "" <==> AllSpace(s)
  {
    if s != "" && IsSpace(s[0]) {
      TrimEmptyIff(s[1..]);
      assert s == [s[0]] + s[1..];
    } else if s != "" && IsSpace(s[|s| - 1]) {
      TrimEmptyIff(s[..|s| - 1]);
      assert s == s[..|s| - 1] + [s[|s| - 1]];
    } else if s != "" {
      assert s[0] in s;
    }
  }

  /**
   * A baseline is superseded exactly on recent reauthentication, with complete
   * identities and a bounded reason, by a differential of that baseline with
   * some recorded candidate, each evidence for its own item; and the replacing
   * observations are those candidates.
   */
  lemma SupersededIff(
    reauthenticated: bool, identified: bool, reason: string, baselineId: string, differential: Differential)
    ensures var r := Supersede(reauthenticated, identified, reason, baselineId, differential);
      && (r.Success? <==>
            && reauthenticated && identified && differential.baselineId == baselineId
            && (exists i :: 0 <= i < |reason| && !IsSpace(reason[i])) && ByteLength(Trim(reason)) < 1001
            && (exists i :: 0 <= i < |differential.items| && differential.items[i].candidate.Some?)
            && AllOwn(differential.items))
      && (r.Success? ==> TakesCandidates(r.value, differential.items))
  {
    TrimEmptyIff(reason);
    ReplacementTakes(differential.items);
    RecordedIff(differential.items);
    assert AllSpace(reason) <==> forall i :: 0 <= i < |reason| ==> IsSpace(reason[i]);
  }

  lemma {:induction false} RecordedIff(items: seq<Item>)
    ensures Recordings(items) > 0 <==> exists i :: 0 <= i < |items| && items[i].candidate.Some?
  {
    if items != [] {
      var n := |items| - 1;
      RecordedIff(items[..n]);
      if i :| 0 <= i < n && items[i].candidate.Some? { assert items[..n][i] == items[i]; }
    }
  }
}
