/**
 * What a context packet takes in, said of the candidates themselves: by
 * priority, then by identity, each one that is well described, not there yet
 * and within what is left.
 */
module PacketOrder {
  import opened Documents
  import opened Ordering
  import opened ContextPacket

  /** A higher priority goes first, and within a priority the lower identity. */
  predicate Goes(a: Candidate, b: Candidate) {
    && a.priority >= b.priority
    && (a.priority == b.priority ==> a.id == b.id || Below(a.id, b.id))
  }

  predicate InOrder(candidates: seq<Candidate>) {
    forall i, j :: 0 <= i < j < |candidates| ==> Goes(candidates[i], candidates[j])
  }

  lemma GoesEither(a: Candidate, b: Candidate)
    ensures Earlier(a, b) ==> Goes(a, b)
    ensures !Earlier(a, b) ==> Goes(b, a)
  {
    BelowTotal(a.id, b.id);
  }

  lemma GoesOn(a: Candidate, b: Candidate, c: Candidate)
    requires Goes(a, b) && Goes(b, c)
    ensures Goes(a, c)
  {
    if a.priority == c.priority && a.id != b.id && b.id != c.id { BelowTransitive(a.id, b.id, c.id); }
  }

  lemma FirstInOrder(x: Candidate, s: seq<Candidate>)
    requires InOrder(s) && forall c :: c in s ==> Goes(x, c)
    ensures InOrder([x] + s)
  {
  }

  lemma TailInOrder(s: seq<Candidate>)
    requires s != [] && InOrder(s)
    ensures InOrder(s[1..]) && forall c :: c in s[1..] ==> Goes(s[0], c)
  {
  }

  lemma {:induction false} InsertedInOrder(x: Candidate, s: seq<Candidate>)
    requires InOrder(s)
    ensures InOrder(Insert(x, s, Earlier))
  {
    if s != [] {
      GoesEither(x, s[0]);
      TailInOrder(s);
      if Earlier(x, s[0]) {
        forall c | c in s ensures Goes(x, c) {
          if c != s[0] { GoesOn(x, s[0], c); }
        }
        FirstInOrder(x, s);
      } else {
        InsertedInOrder(x, s[1..]);
        InsertElements(x, s[1..], Earlier);
        FirstInOrder(s[0], Insert(x, s[1..], Earlier));
      }
    }
  }

  /** The candidates are taken in order of priority, those of one priority in order of their identities. */
  lemma {:induction false} SortedInOrder(candidates: seq<Candidate>)
    ensures InOrder(SortBy(candidates, Earlier))
  {
    if candidates != [] {
      var n := |candidates| - 1;
      SortedInOrder(candidates[..n]);
      InsertedInOrder(candidates[n], SortBy(candidates[..n], Earlier));
    }
  }

  // ------------------------------------------------------------ what is taken

  /** Tokens of the included selections whose candidates have at least this priority. */
  function CostFrom(selections: seq<Selection>, priority: int): nat {
    if selections == [] then 0
    else
      var last := selections[|selections| - 1];
      CostFrom(selections[..|selections| - 1], priority)
      + if last.exclusion.None? && last.candidate.priority >= priority then last.cost else 0
  }

  lemma {:induction false} CostOfHigher(selections: seq<Selection>, priority: int)
    requires forall k :: 0 <= k < |selections| ==> selections[k].candidate.priority >= priority
    ensures CostFrom(selections, priority) == IncludedCost(selections)
  {
    if selections != [] { CostOfHigher(selections[..|selections| - 1], priority); }
  }

  lemma {:induction false} CostFromGrows(selections: seq<Selection>, i: nat, priority: int)
    requires i <= |selections|
    ensures CostFrom(selections[..i], priority) <= CostFrom(selections, priority)
    decreases |selections|
  {
    var n := |selections| - 1;
    if i <= n {
      CostFromGrows(selections[..n], i, priority);
      assert selections[..n][..i] == selections[..i];
    } else {
      assert selections[..i] == selections;
    }
  }

  /** A content of an included selection among these. */
  predicate TakenIn(selections: seq<Selection>, n: nat, hash: string)
    requires n <= |selections|
  {
    exists k :: 0 <= k < n && selections[k].exclusion.None? && selections[k].hash == hash
  }

  /** A candidate says what it is and where it comes from, and has one of the three trusts. */
  predicate SaysWhatItIs(c: Candidate) {
    && |c.id| > 0 && |c.source| > 0 && |c.version| > 0 && |c.reason| > 0
    && c.trust in {"trusted", "untrusted", "verified_memory"}
  }

  /** What becomes of one candidate, the ones before it decided. */
  predicate DecidedRightly(digest: Digest, available: int, selections: seq<Selection>, i: nat)
    requires i < |selections|
  {
    var s := selections[i];
    && s.hash == digest(s.candidate.content)
    && 4 * s.cost >= |s.candidate.content| > 4 * (s.cost - 1)
    && (s.exclusion == Some(InvalidMetadata) <==> !SaysWhatItIs(s.candidate))
    && (s.exclusion == Some(DuplicateContent) <==> SaysWhatItIs(s.candidate) && TakenIn(selections, i, s.hash))
    && (s.exclusion == Some(BudgetExhausted) <==>
          && SaysWhatItIs(s.candidate) && !TakenIn(selections, i, s.hash)
          && IncludedCost(selections[..i]) + s.cost > available)
  }

  lemma TakenIsHashed(selections: seq<Selection>, i: nat, hash: string)
    requires i <= |selections|
    ensures hash in IncludedHashes(selections[..i]) <==> TakenIn(selections, i, hash)
  {
    if k :| 0 <= k < i && selections[k].exclusion.None? && selections[k].hash == hash {
      assert Included(selections[..i][k]);
    }
  }

  lemma CostIsQuarter(c: Candidate)
    ensures 4 * Cost(c) >= |c.content| > 4 * (Cost(c) - 1)
  {
  }

  lemma SelectionDecided(digest: Digest, available: int, ordered: seq<Candidate>, i: nat)
    requires i < |ordered|
    ensures DecidedRightly(digest, available, Decided(digest, available, ordered), i)
  {
    var all := Decided(digest, available, ordered);
    DecidedInTurn(digest, available, ordered, i);
    TakenIsHashed(all, i, all[i].hash);
    CostIsQuarter(ordered[i]);
  }

  // ------------------------------------------------------------ main theorems

  /**
   * A packet is refused exactly for an identity that is not accepted, a budget
   * under 256, a reserve under 64 or not below the budget, or more than a
   * thousand candidates.
   */
  lemma RefusedIff(digest: Digest, request: Request, candidates: seq<Candidate>)
    ensures Compiled(digest, request, candidates).Failure? <==>
            || !request.identified || request.budget < 256 || request.reserve < 64
            || request.reserve >= request.budget || |candidates| > 1000
  {
  }

  /**
   * A compiled packet decides the candidates by falling priority and rising
   * identity, includes every one that says what it is, is not there yet and fits,
   * and leaves out for the budget only what does not fit beside the included ones
   * of at least its own priority.
   */
  lemma PacketTakesByPriority(digest: Digest, request: Request, candidates: seq<Candidate>, packet: Packet)
    requires Compiled(digest, request, candidates) == Success(packet)
    ensures |packet.selections| == |candidates|
    ensures multiset(CandidatesOf(packet.selections)) == multiset(candidates) &&
            InOrder(CandidatesOf(packet.selections))
    ensures AllDecidedRightly(digest, request.budget - request.reserve, packet.selections)
    ensures LeftOutForHigher(request.budget - request.reserve, packet.selections)
  {
    CompiledSelections(digest, request, candidates, packet);
    SelectionsByPriority(
      digest, request.budget - request.reserve, candidates, SortBy(candidates, Earlier), packet.selections);
  }

  lemma SelectionsByPriority(
    digest: Digest, available: int, candidates: seq<Candidate>, ordered: seq<Candidate>, all: seq<Selection>)
    requires ordered == SortBy(candidates, Earlier) && all == Decided(digest, available, ordered)
    ensures |all| == |candidates|
    ensures multiset(CandidatesOf(all)) == multiset(candidates) && InOrder(CandidatesOf(all))
    ensures AllDecidedRightly(digest, available, all) && LeftOutForHigher(available, all)
  {
    SelectionsFollow(digest, available, ordered, all);
    CandidatesSorted(candidates, ordered);
    SelectionsTake(digest, available, ordered, all);
  }

  lemma CompiledSelections(digest: Digest, request: Request, candidates: seq<Candidate>, packet: Packet)
    requires Compiled(digest, request, candidates) == Success(packet)
    ensures packet.selections == Decided(digest, request.budget - request.reserve, SortBy(candidates, Earlier))
  {
  }

  lemma CandidatesSorted(candidates: seq<Candidate>, ordered: seq<Candidate>)
    requires ordered == SortBy(candidates, Earlier)
    ensures multiset(ordered) == multiset(candidates) && InOrder(ordered) && |ordered| == |candidates|
  {
    SortPermutes(candidates, Earlier);
    SortedInOrder(candidates);
  }

  predicate AllDecidedRightly(digest: Digest, available: int, selections: seq<Selection>) {
    forall i :: 0 <= i < |selections| ==> DecidedRightly(digest, available, selections, i)
  }

  /** What the budget left out does not fit beside what was included with at least its priority. */
  predicate LeftOutForHigher(available: int, selections: seq<Selection>) {
    forall i :: 0 <= i < |selections| && selections[i].exclusion == Some(BudgetExhausted) ==>
      CostFrom(selections, selections[i].candidate.priority) + selections[i].cost > available
  }

  lemma SelectionsTake(digest: Digest, available: int, ordered: seq<Candidate>, all: seq<Selection>)
    requires all == Decided(digest, available, ordered) && InOrder(CandidatesOf(all))
    ensures AllDecidedRightly(digest, available, all) && LeftOutForHigher(available, all)
  {
    forall i | 0 <= i < |all|
      ensures DecidedRightly(digest, available, all, i)
      ensures all[i].exclusion == Some(BudgetExhausted) ==>
        CostFrom(all, all[i].candidate.priority) + all[i].cost > available
    {
      SelectionDecided(digest, available, ordered, i);
      HigherOverflow(all, i, all[i].candidate.priority);
    }
  }

  function CandidatesOf(selections: seq<Selection>): (candidates: seq<Candidate>)
    ensures |candidates| == |selections|
    ensures forall i :: 0 <= i < |selections| ==> candidates[i] == selections[i].candidate
  {
    seq(|selections|, i requires 0 <= i < |selections| => selections[i].candidate)
  }

  lemma SelectionsFollow(digest: Digest, available: int, ordered: seq<Candidate>, all: seq<Selection>)
    requires all == Decided(digest, available, ordered)
    ensures CandidatesOf(all) == ordered
  {
    forall i | 0 <= i < |ordered| ensures all[i].candidate == ordered[i] {
      DecidedInTurn(digest, available, ordered, i);
    }
  }

  lemma HigherOverflow(all: seq<Selection>, i: nat, priority: int)
    requires i < |all| && InOrder(CandidatesOf(all)) && priority == all[i].candidate.priority
    ensures IncludedCost(all[..i]) <= CostFrom(all, priority)
  {
    forall k | 0 <= k < i ensures all[..i][k].candidate.priority >= priority {
      assert CandidatesOf(all)[k].priority >= CandidatesOf(all)[i].priority;
    }
    CostOfHigher(all[..i], priority);
    CostFromGrows(all, i, priority);
  }
}
