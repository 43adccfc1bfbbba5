/**
 * Corrections of a differential's classifications: an append-only ledger whose
 * newest entries decide how a finding counts.
 */
module Corrections {
  import opened Documents
  import opened Texts
  import opened Evidence
  import opened EvidenceRules

  /** An observation of a stored differential. */
  datatype Finding = Finding(differential: string, kind: string, key: string)

  datatype Correction = Correction(finding: Finding, before: Classification, after: Classification)

  /** What is asked for; after is None when its text is no classification. */
  datatype Request = Request(
    reauthenticated: bool, identified: bool, finding: Finding, after: Option<Classification>, reason: string)

  /** The items of each stored differential, which never change. */
  type Stored = map<string, seq<Item>>

  const WINDOW: nat := 500

  predicate Bounded(f: Finding) {
    f.kind != "" && ByteLength(f.kind) <= 128 && f.key != "" && ByteLength(f.key) <= 512
  }

  /** The classification of the first item of the kind and key, from place n on. */
  function FirstItem(items: seq<Item>, n: nat, kind: string, key: string): Option<Classification>
    requires n <= |items|
    decreases |items| - n
  {
    if n == |items| then None
    else if items[n].kind == kind && items[n].key == key then Some(items[n].classification)
    else FirstItem(items, n + 1, kind, key)
  }

  function Original(stored: Stored, f: Finding): Option<Classification> {
    if f.differential in stored then FirstItem(stored[f.differential], 0, f.kind, f.key) else None
  }

  /** What the newest correction of the finding says, if it is among so many newest ones of the ledger. */
  function Newest(ledger: seq<Correction>, room: nat, f: Finding): Option<Classification> {
    if ledger == [] || room == 0 then None
    else
      var last := ledger[|ledger| - 1];
      if last.finding == f then Some(last.after) else Newest(ledger[..|ledger| - 1], room - 1, f)
  }

  /** How the finding counts now. */
  function Current(stored: Stored, ledger: seq<Correction>, f: Finding): Option<Classification> {
    match Original(stored, f)
    case None => None
    case Some(original) =>
      match Newest(ledger, WINDOW, f)
      case None => Some(original)
      case Some(corrected) => Some(corrected)
  }

  /** A finding that is gone, or was there before. */
  predicate Away(c: Classification) {
    c.PreExisting? || c.Resolved?
  }

  function Decide(stored: Stored, ledger: seq<Correction>, r: Request): Result<Correction> {
    if !r.reauthenticated || !r.identified || !Bounded(r.finding) || !ReasonGiven(r.reason) || r.after.None?
    then Failure
    else
      match Current(stored, ledger, r.finding)
      case None => Failure
      case Some(current) =>
        if current == r.after.value || (current.NewlyIntroduced? && Away(r.after.value)) then Failure
        else Success(Correction(r.finding, current, r.after.value))
  }

  function After(stored: Stored, ledger: seq<Correction>, r: Request): seq<Correction> {
    match Decide(stored, ledger, r)
    case Failure => ledger
    case Success(correction) => ledger + [correction]
  }

  function Run(stored: Stored, ledger: seq<Correction>, requests: seq<Request>): seq<Correction> {
    if requests == [] then ledger
    else After(stored, Run(stored, ledger, requests[..|requests| - 1]), requests[|requests| - 1])
  }

  // ---------------------------------------------------------------- the service

  class Service {
    const stored: Stored
    var ledger: seq<Correction>

    constructor (stored: Stored, ledger: seq<Correction>)
      ensures this.stored == stored && this.ledger == ledger
    {
      this.stored, this.ledger := stored, ledger;
    }

    /** The newest corrections, the newest first. */
    method ListCorrections(limit: nat) returns (history: seq<Correction>)
      ensures |history| == if |ledger| < limit then |ledger| else limit
      ensures forall i :: 0 <= i < |history| ==> history[i] == ledger[|ledger| - 1 - i]
    {
      history := [];
      while |history| < limit && |history| < |ledger|
        invariant |history| <= limit && |history| <= |ledger|
        invariant forall i :: 0 <= i < |history| ==> history[i] == ledger[|ledger| - 1 - i]
      {
        history := history + [ledger[|ledger| - 1 - |history|]];
      }
    }

    method CorrectDifferential(r: Request) returns (result: Result<Correction>)
      modifies this
      ensures result == Decide(stored, old(ledger), r) && ledger == After(stored, old(ledger), r)
    {
      if !r.reauthenticated || !r.identified || !Bounded(r.finding) || !ReasonGiven(r.reason) || r.after.None? {
        return Failure;
      }
      if r.finding.differential !in stored {
        return Failure;
      }
      var items, n := stored[r.finding.differential], 0;
      while n < |items| && !(items[n].kind == r.finding.kind && items[n].key == r.finding.key)
        invariant n <= |items|
        invariant FirstItem(items, n, r.finding.kind, r.finding.key) == Original(stored, r.finding)
      {
        n := n + 1;
      }
      if n == |items| {
        return Failure;
      }
      var current := items[n].classification;
      var history := ListCorrections(WINDOW);
      var i := 0;
      assert ledger[..|ledger|] == ledger;
      while i < |history| && history[i].finding != r.finding
        invariant i <= |history|
        invariant Newest(ledger[..|ledger| - i], WINDOW - i, r.finding) == Newest(ledger, WINDOW, r.finding)
      {
        assert ledger[..|ledger| - i][..|ledger| - i - 1] == ledger[..|ledger| - (i + 1)];
        i := i + 1;
      }
      if i < |history| {
        current := history[i].after;
      }
      if current == r.after.value || (current.NewlyIntroduced? && Away(r.after.value)) {
        return Failure;
      }
      var correction := Correction(r.finding, current, r.after.value);
      ledger := ledger + [correction];
      return Success(correction);
    }
  }

  // ------------------------------------------------------ what the ledger holds

  /** The entry follows from those before it: it changes how the finding counted, and not from new to away. */
  predicate Follows(stored: Stored, ledger: seq<Correction>, j: nat)
    requires j < |ledger|
  {
    var c := ledger[j];
    && Current(stored, ledger[..j], c.finding) == Some(c.before) && c.before != c.after
    && !(c.before == NewlyIntroduced && c.after in {PreExisting, Resolved})
  }

  predicate Sound(stored: Stored, ledger: seq<Correction>) {
    forall j :: 0 <= j < |ledger| ==> Follows(stored, ledger, j)
  }

  lemma AfterSound(stored: Stored, ledger: seq<Correction>, r: Request)
    requires Sound(stored, ledger)
    ensures Sound(stored, After(stored, ledger, r))
  {
    var after := After(stored, ledger, r);
    forall j | 0 <= j < |after| ensures Follows(stored, after, j) {
      if j < |ledger| {
        assert after[..j] == ledger[..j];
        assert Follows(stored, ledger, j);
      } else {
        assert after[..j] == ledger;
      }
    }
  }

  /** Over any run every entry follows from those before it. */
  lemma {:induction false} RunSound(stored: Stored, ledger: seq<Correction>, requests: seq<Request>)
    requires Sound(stored, ledger)
    ensures Sound(stored, Run(stored, ledger, requests))
  {
    if requests != [] {
      RunSound(stored, ledger, requests[..|requests| - 1]);
      AfterSound(stored, Run(stored, ledger, requests[..|requests| - 1]), requests[|requests| - 1]);
    }
  }

  /** The last entry of the finding before place n is at place i. */
  predicate LastOf(ledger: seq<Correction>, n: nat, f: Finding, i: nat)
    requires n <= |ledger|
  {
    i < n && ledger[i].finding == f && forall k :: i < k < n ==> ledger[k].finding != f
  }

  lemma {:induction false} NewestIs(ledger: seq<Correction>, room: nat, f: Finding, i: nat)
    requires LastOf(ledger, |ledger|, f, i)
    ensures Newest(ledger, room, f) == if |ledger| - i <= room then Some(ledger[i].after) else None
  {
    var n := |ledger| - 1;
    if room > 0 && i < n {
      assert LastOf(ledger[..n], n, f, i);
      NewestIs(ledger[..n], room - 1, f, i);
    }
  }

  lemma {:induction false} NoneNewest(ledger: seq<Correction>, room: nat, f: Finding)
    requires forall k :: 0 <= k < |ledger| && k >= |ledger| - room ==> ledger[k].finding != f
    ensures Newest(ledger, room, f) == None
  {
    if ledger != [] && room > 0 { NoneNewest(ledger[..|ledger| - 1], room - 1, f); }
  }

  /**
   * Two consecutive corrections of a finding join, the later one beginning where
   * the earlier one ended, exactly when at most five hundred entries lie from the
   * one to the other; else the later one begins at the original classification.
   */
  lemma ConsecutiveJoin(stored: Stored, ledger: seq<Correction>, i: nat, j: nat)
    requires Sound(stored, ledger) && j < |ledger| && LastOf(ledger, j, ledger[j].finding, i)
    ensures j - i <= 500 ==> ledger[j].before == ledger[i].after
    ensures j - i > 500 ==> Some(ledger[j].before) == Original(stored, ledger[j].finding)
  {
    assert Follows(stored, ledger, j);
    assert LastOf(ledger[..j], j, ledger[j].finding, i);
    NewestIs(ledger[..j], WINDOW, ledger[j].finding, i);
  }

  /** Once five hundred later entries are of others, a finding counts as it did originally, whatever was corrected. */
  lemma Forgotten(stored: Stored, ledger: seq<Correction>, f: Finding)
    requires forall k :: 0 <= k < |ledger| && k >= |ledger| - 500 ==> ledger[k].finding != f
    ensures Current(stored, ledger, f) == Original(stored, f)
  {
    NoneNewest(ledger, WINDOW, f);
  }

  /** The item at this place is of the finding's kind and key. */
  predicate ItemOf(items: seq<Item>, f: Finding, i: nat)
    requires i < |items|
  {
    f.kind == items[i].kind && f.key == items[i].key
  }

  lemma {:induction false} FirstItemIs(items: seq<Item>, n: nat, f: Finding, i: nat)
    requires n <= i <= |items| && forall k :: n <= k < i ==> !ItemOf(items, f, k)
    requires i < |items| ==> ItemOf(items, f, i)
    ensures FirstItem(items, n, f.kind, f.key) == if i == |items| then None else Some(items[i].classification)
    decreases i - n
  {
    if n < i {
      assert !ItemOf(items, f, n);
      FirstItemIs(items, n + 1, f, i);
    }
  }

  /** A finding is originally what the first item of its kind and key says in its stored differential. */
  lemma OriginalIs(stored: Stored, f: Finding, i: nat)
    requires f.differential in stored && i < |stored[f.differential]| && ItemOf(stored[f.differential], f, i)
    requires forall k :: 0 <= k < i ==> !ItemOf(stored[f.differential], f, k)
    ensures Original(stored, f) == Some(stored[f.differential][i].classification)
  {
    FirstItemIs(stored[f.differential], 0, f, i);
  }

  /** Without such an item there is no finding to correct. */
  lemma NoOriginal(stored: Stored, f: Finding)
    requires f.differential in stored ==>
      forall k :: 0 <= k < |stored[f.differential]| ==> !ItemOf(stored[f.differential], f, k)
    ensures Original(stored, f) == None
  {
    if f.differential in stored { FirstItemIs(stored[f.differential], 0, f, |stored[f.differential]|); }
  }

  // -------------------------------------------------- classifying a finding away

  /** The request is one that the service looks into. */
  predicate Proper(r: Request) {
    && r.reauthenticated && r.identified && r.after.Some?
    && 0 < ByteLength(r.finding.kind) < 129 && 0 < ByteLength(r.finding.key) < 513
    && (exists i :: 0 <= i < |r.reason| && !IsSpace(r.reason[i])) && ByteLength(Trim(r.reason)) < 1001
  }

  lemma ProperIff(r: Request)
    ensures Proper(r) <==>
      r.reauthenticated && r.identified && Bounded(r.finding) && ReasonGiven(r.reason) && r.after.Some?
  {
    TrimEmptyIff(r.reason);
    assert AllSpace(r.reason) <==> forall i :: 0 <= i < |r.reason| ==> IsSpace(r.reason[i]);
  }

  /** A proper correction is refused exactly when it changes nothing, or takes a finding from new to away. */
  lemma CorrectedIff(stored: Stored, ledger: seq<Correction>, r: Request)
    ensures Decide(stored, ledger, r).Success? <==>
      && Proper(r) && Original(stored, r.finding).Some?
      && Current(stored, ledger, r.finding) != r.after
      && !(Current(stored, ledger, r.finding) == Some(NewlyIntroduced) &&
           r.after in {Some(PreExisting), Some(Resolved)})
  {
    ProperIff(r);
  }

  /** Whatever happened before, a new finding is classified away by two proper corrections. */
  lemma TwoCorrectionsClassifyAway(stored: Stored, ledger: seq<Correction>, first: Request, second: Request)
    requires Current(stored, ledger, first.finding) == Some(NewlyIntroduced) && first.finding == second.finding
    requires Proper(first) && first.after in {Some(Changed), Some(Indeterminate)}
    requires Proper(second) && second.after in {Some(PreExisting), Some(Resolved)}
    ensures var after := Run(stored, ledger, [first, second]);
      |after| == |ledger| + 2 && Current(stored, after, first.finding) == second.after
  {
    assert [first, second][..1] == [first] && [first][..0] == [];
    ProperIff(first);
    ProperIff(second);
    var once := After(stored, ledger, first);
    assert Run(stored, ledger, [first]) == After(stored, Run(stored, ledger, []), first) == once;
    var twice := After(stored, once, second);
    assert Run(stored, ledger, [first, second]) == twice;
    assert Current(stored, once, first.finding) == first.after;
  }

  /**
   * A finding that is originally new is classified away by a proper correction
   * exactly when it counts as something else.
   */
  lemma ClassifiedAwayIff(stored: Stored, ledger: seq<Correction>, r: Request)
    requires Original(stored, r.finding) == Some(NewlyIntroduced)
    requires Proper(r) && r.after in {Some(PreExisting), Some(Resolved)}
    ensures Decide(stored, ledger, r).Success? <==>
      Current(stored, ledger, r.finding) !in {Some(NewlyIntroduced), r.after}
  {
    CorrectedIff(stored, ledger, r);
  }

  /** A new finding that counts as something else was first corrected to changed or indeterminate. */
  lemma {:induction false} DetourFirst(stored: Stored, ledger: seq<Correction>, f: Finding) returns (i: nat)
    requires Sound(stored, ledger) && Original(stored, f) == Some(NewlyIntroduced)
    requires Current(stored, ledger, f) != Some(NewlyIntroduced)
    ensures i < |ledger| && ledger[i].finding == f && ledger[i].before == NewlyIntroduced
    ensures ledger[i].after in {Changed, Indeterminate}
    decreases |ledger|
  {
    var j := LastEntry(ledger, f);
    NewestIs(ledger, WINDOW, f, j);
    assert Follows(stored, ledger, j);
    if ledger[j].before == NewlyIntroduced {
      i := j;
    } else {
      PrefixSound(stored, ledger, j);
      i := DetourFirst(stored, ledger[..j], f);
    }
  }

  lemma PrefixSound(stored: Stored, ledger: seq<Correction>, n: nat)
    requires Sound(stored, ledger) && n <= |ledger|
    ensures Sound(stored, ledger[..n])
  {
    forall j | 0 <= j < n ensures Follows(stored, ledger[..n], j) {
      assert Follows(stored, ledger, j);
      assert ledger[..n][..j] == ledger[..j];
    }
  }

  lemma {:induction false} LastEntry(ledger: seq<Correction>, f: Finding) returns (j: nat)
    requires Newest(ledger, WINDOW, f).Some?
    ensures j < |ledger| && LastOf(ledger, |ledger|, f, j)
  {
    if forall k :: 0 <= k < |ledger| ==> ledger[k].finding != f {
      NoneNewest(ledger, WINDOW, f);
      assert false;
    }
    j := |ledger| - 1;
    while ledger[j].finding != f
      invariant 0 <= j < |ledger| && forall k :: j < k < |ledger| ==> ledger[k].finding != f
      decreases j
    {
      j := j - 1;
    }
  }
}
