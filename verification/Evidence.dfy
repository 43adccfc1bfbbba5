/**
 * Differential evidence: comparing the observations of a baseline with those
 * of a candidate, and superseding the baseline by what a differential recorded.
 */
module Evidence {
  import opened Documents
  import opened Ordering
  import opened Texts

  datatype Observation = Observation(
    kind: string, key: string, status: string, value: string, artifact: string, details: string)

  datatype Classification = Resolved | NewlyIntroduced | PreExisting | Changed | Indeterminate

  /** A recorded observation is held by what its encoded form decodes to, None when encoding failed. */
  datatype Item = Item(
    kind: string, key: string, classification: Classification,
    baseline: Option<Observation>, candidate: Option<Observation>)

  /** Encoding an observation and decoding it again; None when it cannot be encoded. */
  type Recoding = Observation -> Option<Observation>

  const NUL := '\U{0000}'

  function Joined(kind: string, key: string): string {
    kind + [NUL] + key
  }

  function Composite(o: Observation): string {
    Joined(o.kind, o.key)
  }

  /** The part before the first NUL. */
  function KindPart(composite: string): (r: string)
    ensures NUL !in r && r <= composite
    ensures NUL in composite ==> |r| < |composite| && composite[|r|] == NUL
  {
    if composite == "" || composite[0] == NUL then "" else [composite[0]] + KindPart(composite[1..])
  }

  function KeyPart(composite: string): string
    requires NUL in composite
  {
    composite[|KindPart(composite)| + 1..]
  }

  lemma PartsRejoin(composite: string)
    requires NUL in composite
    ensures Joined(KindPart(composite), KeyPart(composite)) == composite
  {
  }

  lemma {:induction false} PartsOfJoined(kind: string, key: string)
    requires NUL !in kind
    ensures KindPart(Joined(kind, key)) == kind && KeyPart(Joined(kind, key)) == key
  {
    if kind == "" {
      assert Joined(kind, key) == [NUL] + key;
    } else {
      assert Joined(kind, key)[1..] == Joined(kind[1..], key);
      PartsOfJoined(kind[1..], key);
    }
  }

  // --------------------------------------------------------------- comparing

  /** The last of the first n observations for each composite key. */
  function Latest(observations: seq<Observation>, n: nat): map<string, Observation>
    requires n <= |observations|
  {
    if n == 0 then map[] else Latest(observations, n - 1)[Composite(observations[n - 1]) := observations[n - 1]]
  }

  lemma {:induction false} LatestComposite(observations: seq<Observation>, n: nat)
    requires n <= |observations|
    ensures forall c :: c in Latest(observations, n) ==> Composite(Latest(observations, n)[c]) == c && NUL in c
  {
    if n > 0 { LatestComposite(observations, n - 1); }
  }

  function All(observations: seq<Observation>): (r: map<string, Observation>)
    ensures forall c :: c in r ==> Composite(r[c]) == c && NUL in c
  {
    LatestComposite(observations, |observations|);
    Latest(observations, |observations|)
  }

  predicate SameEvidence(a: Observation, b: Observation) {
    a.status == b.status && a.value == b.value
  }

  function Classify(base: map<string, Observation>, current: map<string, Observation>, c: string): Classification {
    if c in base && c !in current then Resolved
    else if c !in base && c in current then NewlyIntroduced
    else if c !in base then Indeterminate
    else if SameEvidence(base[c], current[c]) then PreExisting
    else Changed
  }

  function Recorded(recode: Recoding, observations: map<string, Observation>, c: string): Option<Observation> {
    if c in observations then recode(observations[c]) else None
  }

  function ItemFor(recode: Recoding, base: map<string, Observation>, current: map<string, Observation>, c: string): Item
    requires NUL in c
  {
    Item(KindPart(c), KeyPart(c), Classify(base, current, c), Recorded(recode, base, c), Recorded(recode, current, c))
  }

  /** The items of the first n keys. */
  function Items(
    recode: Recoding, base: map<string, Observation>, current: map<string, Observation>, keys: seq<string>, n: nat)
    : (items: seq<Item>)
    requires n <= |keys| && forall i :: 0 <= i < |keys| ==> NUL in keys[i]
    ensures |items| == n && forall i :: 0 <= i < n ==> items[i] == ItemFor(recode, base, current, keys[i])
  {
    if n == 0 then [] else Items(recode, base, current, keys, n - 1) + [ItemFor(recode, base, current, keys[n - 1])]
  }

  function KeysOf(baseline: seq<Observation>, candidate: seq<Observation>): (keys: seq<string>)
    ensures forall i :: 0 <= i < |keys| ==> NUL in keys[i]
    ensures forall c :: c in keys <==> c in All(baseline) || c in All(candidate)
  {
    var keys := Sorted(All(baseline).Keys + All(candidate).Keys);
    assert forall i :: 0 <= i < |keys| ==> keys[i] in keys;
    keys
  }

  function Compare(recode: Recoding, baseline: seq<Observation>, candidate: seq<Observation>): (items: seq<Item>)
    ensures |items| == |KeysOf(baseline, candidate)|
  {
    var keys := KeysOf(baseline, candidate);
    Items(recode, All(baseline), All(candidate), keys, |keys|)
  }

  method CompareObservations(recode: Recoding, baseline: seq<Observation>, candidate: seq<Observation>)
    returns (items: seq<Item>)
    ensures items == Compare(recode, baseline, candidate)
  {
    var base, current, keys := map[], map[], {};
    for i := 0 to |baseline|
      invariant base == Latest(baseline, i) && keys == base.Keys
    {
      base := base[Composite(baseline[i]) := baseline[i]];
      keys := keys + {Composite(baseline[i])};
    }
    for i := 0 to |candidate|
      invariant current == Latest(candidate, i) && keys == base.Keys + current.Keys
    {
      current := current[Composite(candidate[i]) := candidate[i]];
      keys := keys + {Composite(candidate[i])};
    }
    assert Sorted(keys) == KeysOf(baseline, candidate);
    items := ItemsInOrder(recode, base, current, Sorted(keys));
  }

  method ItemsInOrder(
    recode: Recoding, base: map<string, Observation>, current: map<string, Observation>, ordered: seq<string>)
    returns (items: seq<Item>)
    requires forall i :: 0 <= i < |ordered| ==> NUL in ordered[i] && (ordered[i] in base || ordered[i] in current)
    ensures items == Items(recode, base, current, ordered, |ordered|)
  {
    items := [];
    for i := 0 to |ordered|
      invariant items == Items(recode, base, current, ordered, i)
    {
      var composite := ordered[i];
      var item := Item(KindPart(composite), KeyPart(composite), Indeterminate, None, None);
      if composite in base && composite !in current {
        item := item.(classification := Resolved);
      } else if composite !in base && composite in current {
        item := item.(classification := NewlyIntroduced);
      } else if SameEvidence(base[composite], current[composite]) {
        item := item.(classification := PreExisting);
      } else {
        item := item.(classification := Changed);
      }
      if composite in base {
        item := item.(baseline := recode(base[composite]));
      }
      if composite in current {
        item := item.(candidate := recode(current[composite]));
      }
      items := items + [item];
    }
  }

  // ------------------------------------------------------------ conservation

  function Counted(items: seq<Item>, classes: set<Classification>, n: nat): nat
    requires n <= |items|
  {
    if n == 0 then 0 else Counted(items, classes, n - 1) + if items[n - 1].classification in classes then 1 else 0
  }

  /** The first n of the distinct keys that lie in the set. */
  function Among(keys: seq<string>, s: set<string>, n: nat): nat
    requires n <= |keys|
  {
    if n == 0 then 0 else Among(keys, s, n - 1) + if keys[n - 1] in s then 1 else 0
  }

  lemma {:induction false} AmongAll(keys: seq<string>, s: set<string>, n: nat)
    requires n <= |keys| && forall i, j :: 0 <= i < j < |keys| ==> keys[i] != keys[j]
    ensures Among(keys, s, n) == |set i | 0 <= i < n && keys[i] in s :: keys[i]|
  {
    var now := set i | 0 <= i < n && keys[i] in s :: keys[i];
    if n == 0 {
      assert now == {};
    } else {
      AmongAll(keys, s, n - 1);
      var before := set i | 0 <= i < n - 1 && keys[i] in s :: keys[i];
      if keys[n - 1] in s {
        assert now == before + {keys[n - 1]};
        assert keys[n - 1] !in before;
      } else {
        assert now == before;
      }
    }
  }

  lemma AmongSorted(universe: set<string>, s: set<string>)
    requires s <= universe
    ensures Among(Sorted(universe), s, |universe|) == |s|
  {
    var keys := Sorted(universe);
    SortedAscending(universe);
    AscendingDistinct(keys);
    AmongAll(keys, s, |keys|);
    var found := set i | 0 <= i < |keys| && keys[i] in s :: keys[i];
    assert found == s by {
      forall k | k in s ensures k in found {
        assert k in keys;
        var i :| 0 <= i < |keys| && keys[i] == k;
      }
    }
  }

  lemma {:induction false} CountsAgree(
    items: seq<Item>, keys: seq<string>, classes: set<Classification>, s: set<string>, n: nat)
    requires n <= |items| == |keys|
    requires forall i :: 0 <= i < |keys| ==> (items[i].classification in classes <==> keys[i] in s)
    ensures Counted(items, classes, n) == Among(keys, s, n)
  {
    if n > 0 { CountsAgree(items, keys, classes, s, n - 1); }
  }

  /** Exactly the keys of the set are classified so. */
  predicate Marks(
    base: map<string, Observation>, current: map<string, Observation>, classes: set<Classification>, s: set<string>) {
    forall c :: c in base.Keys + current.Keys ==> (Classify(base, current, c) in classes <==> c in s)
  }

  lemma MarksOfSides(base: map<string, Observation>, current: map<string, Observation>)
    ensures Marks(base, current, {Resolved, PreExisting, Changed}, base.Keys)
    ensures Marks(base, current, {NewlyIntroduced, PreExisting, Changed}, current.Keys)
    ensures Marks(base, current, {Indeterminate}, {})
  {
  }

  lemma CountsKeys(
    recode: Recoding, baseline: seq<Observation>, candidate: seq<Observation>, classes: set<Classification>,
    s: set<string>)
    requires s <= All(baseline).Keys + All(candidate).Keys && Marks(All(baseline), All(candidate), classes, s)
    ensures var items := Compare(recode, baseline, candidate); Counted(items, classes, |items|) == |s|
  {
    var items, keys := Compare(recode, baseline, candidate), KeysOf(baseline, candidate);
    forall i | 0 <= i < |keys| ensures items[i].classification in classes <==> keys[i] in s {
      assert keys[i] in keys;
    }
    CountsAgree(items, keys, classes, s, |items|);
    AmongSorted(All(baseline).Keys + All(candidate).Keys, s);
  }

  /**
   * Every baseline key is resolved, kept or changed; every candidate key is new,
   * kept or changed; nothing else occurs.
   */
  lemma ObservationsConserved(recode: Recoding, baseline: seq<Observation>, candidate: seq<Observation>)
    ensures var items := Compare(recode, baseline, candidate);
      && Counted(items, {Resolved, PreExisting, Changed}, |items|) == |All(baseline).Keys|
      && Counted(items, {NewlyIntroduced, PreExisting, Changed}, |items|) == |All(candidate).Keys|
      && Counted(items, {Indeterminate}, |items|) == 0
  {
    MarksOfSides(All(baseline), All(candidate));
    CountsKeys(recode, baseline, candidate, {Resolved, PreExisting, Changed}, All(baseline).Keys);
    CountsKeys(recode, baseline, candidate, {NewlyIntroduced, PreExisting, Changed}, All(candidate).Keys);
    CountsKeys(recode, baseline, candidate, {Indeterminate}, {});
  }

  /**
   * The item stands for a key of either side, is classified by what the two sides
   * hold, and comes before later keys.
   */
  predicate FollowsKeys(items: seq<Item>, i: nat, base: map<string, Observation>, current: map<string, Observation>)
    requires i < |items|
  {
    var item, c := items[i], Joined(items[i].kind, items[i].key);
    && c in base.Keys + current.Keys
    && (item.classification.Resolved? <==> c in base && c !in current)
    && (item.classification.NewlyIntroduced? <==> c !in base && c in current)
    && (item.classification.PreExisting? <==> c in base && c in current && SameEvidence(base[c], current[c]))
    && (item.classification.Changed? <==> c in base && c in current && !SameEvidence(base[c], current[c]))
    && forall j :: i < j < |items| ==> Below(c, Joined(items[j].kind, items[j].key))
  }

  predicate AllFollowKeys(items: seq<Item>, base: map<string, Observation>, current: map<string, Observation>) {
    forall i :: 0 <= i < |items| ==> FollowsKeys(items, i, base, current)
  }

  /** One item for each key of either side, in key order. */
  lemma ItemsFollowKeys(recode: Recoding, baseline: seq<Observation>, candidate: seq<Observation>)
    ensures |Compare(recode, baseline, candidate)| == |All(baseline).Keys + All(candidate).Keys|
    ensures AllFollowKeys(Compare(recode, baseline, candidate), All(baseline), All(candidate))
  {
    var keys := KeysOf(baseline, candidate);
    SortedAscending(All(baseline).Keys + All(candidate).Keys);
    assert forall i :: 0 <= i < |keys| ==> keys[i] in keys;
    ItemsOfAscending(recode, All(baseline), All(candidate), keys);
  }

  lemma ItemsOfAscending(
    recode: Recoding, base: map<string, Observation>, current: map<string, Observation>, keys: seq<string>)
    requires Ascending(keys) && forall i :: 0 <= i < |keys| ==> NUL in keys[i] && keys[i] in base.Keys + current.Keys
    ensures AllFollowKeys(Items(recode, base, current, keys, |keys|), base, current)
  {
    var items := Items(recode, base, current, keys, |keys|);
    forall i | 0 <= i < |keys| ensures Joined(items[i].kind, items[i].key) == keys[i] { PartsRejoin(keys[i]); }
    forall i | 0 <= i < |items| ensures FollowsKeys(items, i, base, current) {
      ItemFollows(items, i, recode, base, current, keys);
    }
  }

  lemma ItemFollows(
    items: seq<Item>, i: nat, recode: Recoding, base: map<string, Observation>, current: map<string, Observation>,
    keys: seq<string>)
    requires i < |items| == |keys| && Ascending(keys) && NUL in keys[i] && keys[i] in base.Keys + current.Keys
    requires items[i] == ItemFor(recode, base, current, keys[i])
    requires forall j :: 0 <= j < |keys| ==> Joined(items[j].kind, items[j].key) == keys[j]
    ensures FollowsKeys(items, i, base, current)
  {
  }

  // -------------------------------------------------------------------- swap

  function Mirrored(c: Classification): Classification {
    match c
    case Resolved => NewlyIntroduced
    case NewlyIntroduced => Resolved
    case _ => c
  }

  lemma SameKeys(baseline: seq<Observation>, candidate: seq<Observation>)
    ensures KeysOf(baseline, candidate) == KeysOf(candidate, baseline)
  {
    assert All(baseline).Keys + All(candidate).Keys == All(candidate).Keys + All(baseline).Keys;
  }

  lemma SwapAt(recode: Recoding, base: map<string, Observation>, current: map<string, Observation>, c: string)
    requires NUL in c
    ensures ItemFor(recode, current, base, c) == Mirror(ItemFor(recode, base, current, c))
  {
  }

  function Mirror(item: Item): Item {
    Item(item.kind, item.key, Mirrored(item.classification), item.candidate, item.baseline)
  }

  function MirrorAll(items: seq<Item>): (mirrored: seq<Item>)
    ensures |mirrored| == |items| && forall i :: 0 <= i < |items| ==> mirrored[i] == Mirror(items[i])
  {
    if items == [] then [] else MirrorAll(items[..|items| - 1]) + [Mirror(items[|items| - 1])]
  }

  lemma SwappedItems(
    recode: Recoding, base: map<string, Observation>, current: map<string, Observation>, keys: seq<string>)
    requires forall i :: 0 <= i < |keys| ==> NUL in keys[i]
    ensures Items(recode, current, base, keys, |keys|) == MirrorAll(Items(recode, base, current, keys, |keys|))
  {
    forall i | 0 <= i < |keys|
      ensures ItemFor(recode, current, base, keys[i]) == Mirror(ItemFor(recode, base, current, keys[i])) {
      SwapAt(recode, base, current, keys[i]);
    }
  }

  /** Swapping the sides swaps resolved with newly introduced, and nothing else. */
  lemma SwapMirrors(recode: Recoding, baseline: seq<Observation>, candidate: seq<Observation>)
    ensures Compare(recode, candidate, baseline) == MirrorAll(Compare(recode, baseline, candidate))
  {
    SameKeys(baseline, candidate);
    SwappedItems(recode, All(baseline), All(candidate), KeysOf(baseline, candidate));
  }

  // ------------------------------------------------------------- superseding

  datatype Differential = Differential(baselineId: string, items: seq<Item>)

  predicate OwnEvidence(item: Item) {
    item.candidate.Some? ==> item.candidate.value.kind == item.kind && item.candidate.value.key == item.key
  }

  /** The candidate observations of the first n items, unless one of them is not evidence for its item. */
  function Replacement(items: seq<Item>, n: nat): Result<seq<Observation>>
    requires n <= |items|
  {
    if n == 0 then Success([]) else Extended(Replacement(items, n - 1), items[n - 1])
  }

  function Extended(r: Result<seq<Observation>>, item: Item): Result<seq<Observation>> {
    if r.Failure? || !OwnEvidence(item) then Failure
    else if item.candidate.None? then r
    else Success(r.value + [item.candidate.value])
  }

  predicate ReasonGiven(reason: string) {
    Trim(reason) != "" && ByteLength(Trim(reason)) <= 1000
  }

  /** The observations of the replacing baseline. */
  function Supersede(
    reauthenticated: bool, identified: bool, reason: string, baselineId: string, differential: Differential)
    : Result<seq<Observation>>
  {
    var r := Replacement(differential.items, |differential.items|);
    if !reauthenticated || !identified || !ReasonGiven(reason) || differential.baselineId != baselineId then Failure
    else if r.Success? && r.value == [] then Failure
    else r
  }

  method SupersedeBaseline(
    reauthenticated: bool, identified: bool, reason: string, baselineId: string, differential: Differential)
    returns (r: Result<seq<Observation>>)
    ensures r == Supersede(reauthenticated, identified, reason, baselineId, differential)
  {
    if !reauthenticated || !identified || !ReasonGiven(reason) {
      return Failure;
    }
    if differential.baselineId != baselineId {
      return Failure;
    }
    var observations := [];
    for i := 0 to |differential.items|
      invariant Replacement(differential.items, i) == Success(observations)
    {
      var item := differential.items[i];
      if item.candidate.None? {
        continue;
      }
      if item.candidate.value.kind != item.kind || item.candidate.value.key != item.key {
        FailsOnwards(differential.items, i + 1, |differential.items|);
        return Failure;
      }
      observations := observations + [item.candidate.value];
    }
    if observations == [] {
      return Failure;
    }
    return Success(observations);
  }

  lemma {:induction false} FailsOnwards(items: seq<Item>, i: nat, n: nat)
    requires i <= n <= |items| && Replacement(items, i).Failure?
    ensures Replacement(items, n).Failure?
    decreases n
  {
    if i < n { FailsOnwards(items, i, n - 1); }
  }

  lemma {:induction false} LatestPrefix(a: seq<Observation>, b: seq<Observation>, n: nat)
    requires n <= |a| && n <= |b| && forall i :: 0 <= i < n ==> a[i] == b[i]
    ensures Latest(a, n) == Latest(b, n)
  {
    if n > 0 {
      LatestPrefix(a, b, n - 1);
      assert a[n - 1] == b[n - 1];
    }
  }

  lemma AllMore(observations: seq<Observation>, o: Observation)
    ensures All(observations + [o]) == All(observations)[Composite(o) := o]
  {
    LatestPrefix(observations, observations + [o], |observations|);
  }

  /** The candidate's evidence for the key was recorded. */
  predicate Kept(recode: Recoding, current: map<string, Observation>, c: string) {
    c in current && recode(current[c]).Some?
  }

  /** What was recorded for the key is evidence for it. */
  predicate Attested(recode: Recoding, current: map<string, Observation>, c: string)
    requires NUL in c
  {
    Kept(recode, current, c) ==>
      recode(current[c]).value.kind == KindPart(c) && recode(current[c]).value.key == KeyPart(c)
  }

  /** The observations hold what was recorded for exactly the kept keys. */
  predicate Holds(
    recode: Recoding, current: map<string, Observation>, keys: seq<string>, observations: seq<Observation>) {
    && (forall c :: c in All(observations) ==> c in keys && Kept(recode, current, c))
    && (forall c :: c in keys && Kept(recode, current, c) ==>
          c in All(observations) && All(observations)[c] == recode(current[c]).value)
  }

  lemma HoldsMore(
    recode: Recoding, current: map<string, Observation>, keys: seq<string>, observations: seq<Observation>, c: string)
    requires NUL in c && Attested(recode, current, c)
    ensures Holds(recode, current, keys, observations) ==>
      Holds(recode, current, keys + [c],
            if Kept(recode, current, c) then observations + [recode(current[c]).value] else observations)
  {
    if Kept(recode, current, c) {
      var o := recode(current[c]).value;
      PartsRejoin(c);
      assert Composite(o) == c;
      AllMore(observations, o);
    }
  }

  predicate AttestedTo(recode: Recoding, current: map<string, Observation>, keys: seq<string>, n: nat)
    requires n <= |keys| && forall i :: 0 <= i < |keys| ==> NUL in keys[i]
  {
    n == 0 || (AttestedTo(recode, current, keys, n - 1) && Attested(recode, current, keys[n - 1]))
  }

  lemma {:induction false} AttestedToIff(recode: Recoding, current: map<string, Observation>, keys: seq<string>, n: nat)
    requires n <= |keys| && forall i :: 0 <= i < |keys| ==> NUL in keys[i]
    ensures AttestedTo(recode, current, keys, n) <==> forall i :: 0 <= i < n ==> Attested(recode, current, keys[i])
  {
    if n > 0 { AttestedToIff(recode, current, keys, n - 1); }
  }

  /** The result is what the first n keys ask for. */
  predicate Follows(
    recode: Recoding, current: map<string, Observation>, keys: seq<string>, n: nat, r: Result<seq<Observation>>)
    requires n <= |keys| && forall i :: 0 <= i < |keys| ==> NUL in keys[i]
  {
    && (r.Success? <==> AttestedTo(recode, current, keys, n))
    && (r.Success? ==> Holds(recode, current, keys[..n], r.value))
  }

  lemma FollowsMore(
    recode: Recoding, base: map<string, Observation>, current: map<string, Observation>, keys: seq<string>, n: nat,
    r: Result<seq<Observation>>)
    requires 0 < n <= |keys| && forall i :: 0 <= i < |keys| ==> NUL in keys[i]
    ensures Follows(recode, current, keys, n - 1, r) ==>
            Follows(recode, current, keys, n, Extended(r, ItemFor(recode, base, current, keys[n - 1])))
  {
    var c := keys[n - 1];
    assert keys[..n] == keys[..n - 1] + [c];
    assert OwnEvidence(ItemFor(recode, base, current, c)) <==> Attested(recode, current, c);
    if Follows(recode, current, keys, n - 1, r) && r.Success? && Attested(recode, current, c) {
      HoldsMore(recode, current, keys[..n - 1], r.value, c);
    }
  }

  lemma {:induction false} ReplacementFollows(
    recode: Recoding, base: map<string, Observation>, current: map<string, Observation>, keys: seq<string>, n: nat)
    requires n <= |keys| && forall i :: 0 <= i < |keys| ==> NUL in keys[i]
    ensures Follows(recode, current, keys, n, Replacement(Items(recode, base, current, keys, |keys|), n))
  {
    var items := Items(recode, base, current, keys, |keys|);
    if n == 0 {
      assert All([]) == map[];
    } else {
      ReplacementFollows(recode, base, current, keys, n - 1);
      var before := Replacement(items, n - 1);
      assert Replacement(items, n) == Extended(before, ItemFor(recode, base, current, keys[n - 1]));
      FollowsMore(recode, base, current, keys, n, before);
    }
  }

  /** Encoding keeps the observation's identity, status and value. */
  predicate Lossless(recode: Recoding, o: Observation) {
    && recode(o).Some?
    && recode(o).value.kind == KindPart(Composite(o)) && recode(o).value.key == KeyPart(Composite(o))
    && SameEvidence(recode(o).value, o)
  }

  lemma LosslessIff(recode: Recoding, o: Observation)
    requires NUL !in o.kind
    ensures Lossless(recode, o) <==>
      (recode(o).Some? && recode(o).value.kind == o.kind && recode(o).value.key == o.key &&
        SameEvidence(recode(o).value, o))
  {
    PartsOfJoined(o.kind, o.key);
  }

  predicate AllPreExisting(items: seq<Item>) {
    forall i :: 0 <= i < |items| ==> items[i].classification.PreExisting?
  }

  /** The same keys, with equal status and value. */
  predicate SameSides(a: map<string, Observation>, b: map<string, Observation>) {
    a.Keys == b.Keys && forall c :: c in b ==> SameEvidence(a[c], b[c])
  }

  predicate LosslessAll(recode: Recoding, observations: map<string, Observation>) {
    forall c :: c in observations ==> Lossless(recode, observations[c])
  }

  predicate PreExistingAll(a: map<string, Observation>, b: map<string, Observation>) {
    forall c :: c in a.Keys + b.Keys ==> Classify(a, b, c).PreExisting?
  }

  lemma SameSidesIff(a: map<string, Observation>, b: map<string, Observation>)
    ensures PreExistingAll(a, b) <==> SameSides(a, b)
  {
    if PreExistingAll(a, b) {
      forall c ensures c in a <==> c in b {
        assert c in a.Keys + b.Keys ==> Classify(a, b, c).PreExisting?;
      }
      forall c | c in b ensures SameEvidence(a[c], b[c]) { assert c in a.Keys + b.Keys; }
    }
  }

  lemma PreExistingItems(
    recode: Recoding, a: map<string, Observation>, b: map<string, Observation>, keys: seq<string>)
    requires forall i :: 0 <= i < |keys| ==> NUL in keys[i]
    requires forall c :: c in keys <==> c in a.Keys + b.Keys
    ensures AllPreExisting(Items(recode, a, b, keys, |keys|)) <==> PreExistingAll(a, b)
  {
    var items := Items(recode, a, b, keys, |keys|);
    if AllPreExisting(items) {
      forall c | c in a.Keys + b.Keys ensures Classify(a, b, c).PreExisting? {
        var i :| 0 <= i < |keys| && keys[i] == c;
        assert items[i].classification.PreExisting?;
      }
    }
    if PreExistingAll(a, b) {
      forall i | 0 <= i < |items| ensures items[i].classification.PreExisting? { assert keys[i] in keys; }
    }
  }

  lemma PreExistingIff(recode: Recoding, a: seq<Observation>, b: seq<Observation>)
    ensures AllPreExisting(Compare(recode, a, b)) <==> SameSides(All(a), All(b))
  {
    PreExistingItems(recode, All(a), All(b), KeysOf(a, b));
    SameSidesIff(All(a), All(b));
  }

  lemma ReplacementOfDifferential(recode: Recoding, baseline: seq<Observation>, candidate: seq<Observation>)
    ensures var keys, items := KeysOf(baseline, candidate), Compare(recode, baseline, candidate);
      Follows(recode, All(candidate), keys, |keys|, Replacement(items, |items|))
  {
    var keys := KeysOf(baseline, candidate);
    ReplacementFollows(recode, All(baseline), All(candidate), keys, |keys|);
  }

  lemma {:induction false} UnattestedIsLossy(
    recode: Recoding, current: map<string, Observation>, keys: seq<string>, n: nat)
    requires n <= |keys| && forall i :: 0 <= i < |keys| ==> NUL in keys[i]
    requires forall c :: c in current ==> Composite(current[c]) == c
    requires LosslessAll(recode, current)
    ensures AttestedTo(recode, current, keys, n)
  {
    if n > 0 {
      UnattestedIsLossy(recode, current, keys, n - 1);
      var c := keys[n - 1];
      assert c in current ==> Lossless(recode, current[c]);
    }
  }

  lemma LosslessIsSame(
    recode: Recoding, current: map<string, Observation>, keys: seq<string>, observations: seq<Observation>)
    requires Holds(recode, current, keys, observations) && forall c :: c in current ==> c in keys
    requires LosslessAll(recode, current)
    ensures SameSides(All(observations), current)
  {
    assert forall c :: c in current ==> Lossless(recode, current[c]) && Kept(recode, current, c);
    assert All(observations).Keys == current.Keys;
  }

  lemma SameIsLossless(
    recode: Recoding, current: map<string, Observation>, keys: seq<string>, observations: seq<Observation>, c: string)
    requires Holds(recode, current, keys, observations) && c in current && c in keys
    requires NUL in c && Composite(current[c]) == c && Attested(recode, current, c)
    requires SameSides(All(observations), current)
    ensures Lossless(recode, current[c])
  {
    assert c in All(observations);
  }

  /** What the differential yields when every piece of evidence is attested. */
  lemma AttestedReplacement(
    recode: Recoding, baseline: seq<Observation>, candidate: seq<Observation>, r: Result<seq<Observation>>)
    requires r == Replacement(Compare(recode, baseline, candidate), |Compare(recode, baseline, candidate)|)
    ensures r.Success? ==> Holds(recode, All(candidate), KeysOf(baseline, candidate), r.value)
    ensures r.Success? <==>
            AttestedTo(recode, All(candidate), KeysOf(baseline, candidate), |KeysOf(baseline, candidate)|)
  {
    var keys := KeysOf(baseline, candidate);
    ReplacementOfDifferential(recode, baseline, candidate);
    assert keys[..|keys|] == keys;
  }

  lemma ReplacementReproduces(
    recode: Recoding, baseline: seq<Observation>, candidate: seq<Observation>, r: Result<seq<Observation>>)
    requires r.Success? ==> Holds(recode, All(candidate), KeysOf(baseline, candidate), r.value)
    requires r.Success? <==>
             AttestedTo(recode, All(candidate), KeysOf(baseline, candidate), |KeysOf(baseline, candidate)|)
    ensures r.Success? && AllPreExisting(Compare(recode, r.value, candidate)) <==> LosslessAll(recode, All(candidate))
  {
    var current, keys := All(candidate), KeysOf(baseline, candidate);
    if r.Success? {
      PreExistingIff(recode, r.value, candidate);
      SameIffLossless(recode, current, keys, r.value);
    } else if LosslessAll(recode, current) {
      UnattestedIsLossy(recode, current, keys, |keys|);
    }
  }

  /**
   * The replacement taken from a differential reproduces the candidate, every
   * item of comparing them pre-existing, exactly when each observation the
   * candidate holds survives its encoding.
   */
  lemma SupersessionReproduces(recode: Recoding, baseline: seq<Observation>, candidate: seq<Observation>)
    ensures var items := Compare(recode, baseline, candidate);
      var r := Replacement(items, |items|);
      r.Success? && AllPreExisting(Compare(recode, r.value, candidate)) <==> LosslessAll(recode, All(candidate))
  {
    var items := Compare(recode, baseline, candidate);
    AttestedReplacement(recode, baseline, candidate, Replacement(items, |items|));
    ReplacementReproduces(recode, baseline, candidate, Replacement(items, |items|));
  }

  lemma SameIffLossless(
    recode: Recoding, current: map<string, Observation>, keys: seq<string>, observations: seq<Observation>)
    requires forall i :: 0 <= i < |keys| ==> NUL in keys[i]
    requires forall c :: c in current ==> c in keys && Composite(current[c]) == c
    requires AttestedTo(recode, current, keys, |keys|) && Holds(recode, current, keys, observations)
    ensures SameSides(All(observations), current) <==> LosslessAll(recode, current)
  {
    if SameSides(All(observations), current) {
      forall c | c in current ensures Lossless(recode, current[c]) {
        AttestedAt(recode, current, keys, c);
        SameIsLossless(recode, current, keys, observations, c);
      }
    }
    if LosslessAll(recode, current) { LosslessIsSame(recode, current, keys, observations); }
  }

  lemma AttestedAt(recode: Recoding, current: map<string, Observation>, keys: seq<string>, c: string)
    requires forall i :: 0 <= i < |keys| ==> NUL in keys[i]
    requires AttestedTo(recode, current, keys, |keys|) && c in keys
    ensures NUL in c && Attested(recode, current, c)
  {
    AttestedToIff(recode, current, keys, |keys|);
    var i :| 0 <= i < |keys| && keys[i] == c;
  }
}
