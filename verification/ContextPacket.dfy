/**
 * Compiling a context packet: candidates in order of priority are taken in as
 * long as the token budget allows.
 */
module ContextPacket {
  import opened Documents
  import opened Ordering

  type Bytes = seq<bv8>

  datatype Candidate = Candidate(
    id: string, source: string, version: string, reason: string, trust: string,
    content: Bytes, priority: int, stale: bool)

  datatype Exclusion = InvalidMetadata | DuplicateContent | BudgetExhausted

  /** What became of a candidate; None means it was included. */
  datatype Selection = Selection(candidate: Candidate, hash: string, cost: nat, exclusion: Option<Exclusion>)

  datatype Packet = Packet(selections: seq<Selection>, usedTokens: nat, truncated: bool, content: seq<Bytes>)

  /** The digest of a candidate's content. */
  type Digest = Bytes -> string

  predicate Earlier(a: Candidate, b: Candidate) {
    if a.priority == b.priority then Below(a.id, b.id) else a.priority > b.priority
  }

  function Cost(c: Candidate): nat {
    (|c.content| + 3) / 4
  }

  predicate WellDescribed(c: Candidate) {
    && c.id != "" && c.source != "" && c.version != "" && c.reason != ""
    && (c.trust == "trusted" || c.trust == "untrusted" || c.trust == "verified_memory")
  }

  /** The identities and sizes the compiler is called with; the identity check itself is opaque. */
  datatype Request = Request(identified: bool, budget: int, reserve: int)

  predicate Acceptable(request: Request, candidates: seq<Candidate>) {
    request.identified && request.budget >= 256 && 64 <= request.reserve < request.budget && |candidates| <= 1000
  }

  // -------------------------------------------------------------- the result

  predicate Included(s: Selection) {
    s.exclusion.None?
  }

  function IncludedCost(selections: seq<Selection>): nat {
    if selections == [] then 0
    else
      IncludedCost(selections[..|selections| - 1])
      + if Included(selections[|selections| - 1]) then selections[|selections| - 1].cost else 0
  }

  function IncludedHashes(selections: seq<Selection>): (r: set<string>)
    ensures forall h :: h in r <==>
            exists i :: 0 <= i < |selections| && Included(selections[i]) && selections[i].hash == h
  {
    set i | 0 <= i < |selections| && Included(selections[i]) :: selections[i].hash
  }

  function IncludedContent(selections: seq<Selection>): seq<Bytes> {
    if selections == [] then []
    else
      IncludedContent(selections[..|selections| - 1])
      + if Included(selections[|selections| - 1]) then [selections[|selections| - 1].candidate.content] else []
  }

  /** The choice made for the next candidate when these have been decided. */
  function Decide(digest: Digest, available: int, before: seq<Selection>, c: Candidate): Selection {
    Selection(c, digest(c.content), Cost(c),
      if !WellDescribed(c) then Some(InvalidMetadata)
      else if digest(c.content) in IncludedHashes(before) then Some(DuplicateContent)
      else if IncludedCost(before) + Cost(c) > available then Some(BudgetExhausted)
      else None)
  }

  function Decided(digest: Digest, available: int, candidates: seq<Candidate>): (r: seq<Selection>)
    ensures |r| == |candidates|
  {
    if candidates == [] then []
    else
      var before := Decided(digest, available, candidates[..|candidates| - 1]);
      before + [Decide(digest, available, before, candidates[|candidates| - 1])]
  }

  predicate SomethingOverflowed(selections: seq<Selection>) {
    exists i :: 0 <= i < |selections| && selections[i].exclusion == Some(BudgetExhausted)
  }

  function Compiled(digest: Digest, request: Request, candidates: seq<Candidate>): Result<Packet> {
    if !Acceptable(request, candidates) then Failure
    else
      var selections := Decided(digest, request.budget - request.reserve, SortBy(candidates, Earlier));
      Success(PacketOf(selections))
  }

  function PacketOf(selections: seq<Selection>): Packet {
    Packet(selections, IncludedCost(selections), SomethingOverflowed(selections), IncludedContent(selections))
  }

  method CompileContext(digest: Digest, request: Request, candidates: seq<Candidate>) returns (r: Result<Packet>)
    ensures r == Compiled(digest, request, candidates)
  {
    if !Acceptable(request, candidates) {
      return Failure;
    }
    var packet := SelectWithin(digest, request.budget - request.reserve, SortBy(candidates, Earlier));
    return Success(packet);
  }

  method SelectWithin(digest: Digest, available: int, ordered: seq<Candidate>) returns (packet: Packet)
    ensures packet == PacketOf(Decided(digest, available, ordered))
  {
    packet := Packet([], 0, false, []);
    var seen := {};
    for i := 0 to |ordered|
      invariant packet == PacketOf(Decided(digest, available, ordered[..i]))
      invariant seen == IncludedHashes(packet.selections)
    {
      DecidedMore(digest, available, ordered, i);
      MorePacket(packet.selections, Decide(digest, available, packet.selections, ordered[i]));
      packet, seen := Take(digest, available, packet, seen, ordered[i]);
    }
    assert ordered[..|ordered|] == ordered;
  }

  /** Decides one candidate and keeps the packet's totals and the hashes seen up to date. */
  method Take(digest: Digest, available: int, packet: Packet, seen: set<string>, candidate: Candidate)
    returns (next: Packet, nextSeen: set<string>)
    requires packet.usedTokens == IncludedCost(packet.selections) && seen == IncludedHashes(packet.selections)
    ensures var selection := Decide(digest, available, packet.selections, candidate);
      && next == Added(packet, selection)
      && nextSeen == seen + if Included(selection) then {selection.hash} else {}
  {
    next, nextSeen := packet, seen;
    var hash, cost := digest(candidate.content), Cost(candidate);
    var selection := Selection(candidate, hash, cost, None);
    if !WellDescribed(candidate) {
      selection := selection.(exclusion := Some(InvalidMetadata));
    } else if hash in seen {
      selection := selection.(exclusion := Some(DuplicateContent));
    } else if packet.usedTokens + cost > available {
      selection := selection.(exclusion := Some(BudgetExhausted));
      next := next.(truncated := true);
    } else {
      nextSeen := nextSeen + {hash};
      next := next.(usedTokens := next.usedTokens + cost, content := next.content + [candidate.content]);
    }
    next := next.(selections := next.selections + [selection]);
  }

  function Added(packet: Packet, s: Selection): Packet {
    Packet(
      packet.selections + [s],
      packet.usedTokens + if Included(s) then s.cost else 0,
      packet.truncated || s.exclusion == Some(BudgetExhausted),
      packet.content + if Included(s) then [s.candidate.content] else [])
  }

  lemma MorePacket(selections: seq<Selection>, s: Selection)
    ensures PacketOf(selections + [s]) == Added(PacketOf(selections), s)
    ensures IncludedHashes(selections + [s]) == IncludedHashes(selections) + if Included(s) then {s.hash} else {}
  {
    MoreSelections(selections, s);
  }

  lemma DecidedMore(digest: Digest, available: int, candidates: seq<Candidate>, i: nat)
    requires i < |candidates|
    ensures var before := Decided(digest, available, candidates[..i]);
      Decided(digest, available, candidates[..i + 1]) == before + [Decide(digest, available, before, candidates[i])]
  {
    assert candidates[..i + 1][..i] == candidates[..i] && candidates[..i + 1][i] == candidates[i];
  }

  lemma MoreSelections(selections: seq<Selection>, s: Selection)
    ensures IncludedHashes(selections + [s]) == IncludedHashes(selections) + if Included(s) then {s.hash} else {}
    ensures SomethingOverflowed(selections + [s]) <==>
            SomethingOverflowed(selections) || s.exclusion == Some(BudgetExhausted)
    ensures IncludedCost(selections + [s]) == IncludedCost(selections) + if Included(s) then s.cost else 0
    ensures IncludedContent(selections + [s]) ==
            IncludedContent(selections) + if Included(s) then [s.candidate.content] else []
  {
    var all := selections + [s];
    assert all[..|selections|] == selections && all[|selections|] == s;
    forall h
      ensures h in IncludedHashes(all) <==> h in IncludedHashes(selections) + if Included(s) then {s.hash} else {} {
      if h in IncludedHashes(selections) {
        var i :| 0 <= i < |selections| && Included(selections[i]) && selections[i].hash == h;
        assert Included(all[i]) && all[i].hash == h;
      }
    }
    if SomethingOverflowed(selections) {
      var i :| 0 <= i < |selections| && selections[i].exclusion == Some(BudgetExhausted);
      assert all[i].exclusion == Some(BudgetExhausted);
    }
  }

  // ------------------------------------------------------- what the packet keeps

  /** Each candidate is decided in its turn, by the selections before it. */
  lemma {:induction false} DecidedInTurn(digest: Digest, available: int, candidates: seq<Candidate>, i: nat)
    requires i < |candidates|
    ensures var all := Decided(digest, available, candidates);
      all[..i] == Decided(digest, available, candidates[..i]) &&
        all[i] == Decide(digest, available, all[..i], candidates[i])
    decreases |candidates|
  {
    var n := |candidates| - 1;
    var all, before := Decided(digest, available, candidates), Decided(digest, available, candidates[..n]);
    if i < n {
      DecidedInTurn(digest, available, candidates[..n], i);
      assert candidates[..n][..i] == candidates[..i] && all[..i] == before[..i];
    } else {
      assert all[..n] == before;
    }
  }

  /** Selections after the first i only add to what is used. */
  lemma {:induction false} CostGrows(selections: seq<Selection>, i: nat)
    requires i <= |selections|
    ensures IncludedCost(selections[..i]) <= IncludedCost(selections)
    decreases |selections|
  {
    var n := |selections| - 1;
    if i <= n {
      CostGrows(selections[..n], i);
      assert selections[..n][..i] == selections[..i];
    } else {
      assert selections[..i] == selections;
    }
  }

  lemma {:induction false} BudgetKept(digest: Digest, available: nat, candidates: seq<Candidate>)
    ensures IncludedCost(Decided(digest, available, candidates)) <= available
  {
    if candidates != [] {
      var n := |candidates| - 1;
      var before := Decided(digest, available, candidates[..n]);
      BudgetKept(digest, available, candidates[..n]);
      MoreSelections(before, Decide(digest, available, before, candidates[n]));
    }
  }

  /** No content is included twice, and what is left out as a duplicate was included earlier. */
  lemma NothingIncludedTwice(digest: Digest, available: int, candidates: seq<Candidate>, j: nat)
    requires j < |candidates|
    ensures var all := Decided(digest, available, candidates);
      && (Included(all[j]) ==> forall i :: 0 <= i < j && Included(all[i]) ==> all[i].hash != all[j].hash)
      && (all[j].exclusion == Some(DuplicateContent) ==>
           exists i :: 0 <= i < j && Included(all[i]) && all[i].hash == all[j].hash)
  {
    var all := Decided(digest, available, candidates);
    DecidedInTurn(digest, available, candidates, j);
    forall i | 0 <= i < j && Included(all[i]) ensures all[i].hash in IncludedHashes(all[..j]) {
      assert all[..j][i] == all[i];
    }
    if all[j].exclusion == Some(DuplicateContent) {
      var i :| 0 <= i < j && Included(all[..j][i]) && all[..j][i].hash == all[j].hash;
      assert Included(all[i]);
    }
  }

  /** What the budget left out would still not fit when everything has been decided. */
  lemma OverflowStands(digest: Digest, available: int, candidates: seq<Candidate>, i: nat)
    requires i < |candidates|
    ensures var all := Decided(digest, available, candidates);
      all[i].exclusion == Some(BudgetExhausted) ==> IncludedCost(all) + all[i].cost > available
  {
    DecidedInTurn(digest, available, candidates, i);
    CostGrows(Decided(digest, available, candidates), i);
  }

  predicate DistinctIds(candidates: seq<Candidate>) {
    forall i, j :: 0 <= i < j < |candidates| ==> candidates[i].id != candidates[j].id
  }

  lemma EarlierIsStrict()
    ensures StrictOrder(Earlier)
  {
    forall a, b | Earlier(a, b) ensures !Earlier(b, a) { BelowTotal(a.id, b.id); }
    forall a, b, c | Earlier(a, b) && Earlier(b, c) ensures Earlier(a, c) {
      if a.priority == b.priority == c.priority { BelowTransitive(a.id, b.id, c.id); }
    }
  }

  /**
   * A compiled packet: one selection for each candidate, in order of priority;
   * the tokens used are the included candidates' and stay within the budget.
   */
  lemma {:induction false} PacketKeepsBudget(
    digest: Digest, request: Request, candidates: seq<Candidate>, packet: Packet)
    requires Compiled(digest, request, candidates) == Success(packet)
    ensures packet.usedTokens == IncludedCost(packet.selections) <= request.budget - request.reserve
    ensures |packet.selections| == |candidates|
    ensures forall i :: 0 <= i < |candidates| ==> packet.selections[i].candidate == SortBy(candidates, Earlier)[i]
    ensures packet.truncated <==> SomethingOverflowed(packet.selections)
    ensures forall i :: 0 <= i < |packet.selections| && packet.selections[i].exclusion == Some(BudgetExhausted) ==>
      packet.usedTokens + packet.selections[i].cost > request.budget - request.reserve
  {
    var available, ordered := request.budget - request.reserve, SortBy(candidates, Earlier);
    var selections := Decided(digest, available, ordered);
    assert packet == PacketOf(selections);
    SortPermutes(candidates, Earlier);
    SelectionsKeepBudget(digest, available, ordered, selections);
  }

  lemma {:induction false} SelectionsKeepBudget(
    digest: Digest, available: nat, ordered: seq<Candidate>, selections: seq<Selection>)
    requires selections == Decided(digest, available, ordered)
    ensures IncludedCost(selections) <= available && |selections| == |ordered|
    ensures forall i :: 0 <= i < |ordered| ==> selections[i].candidate == ordered[i]
    ensures forall i :: 0 <= i < |selections| && selections[i].exclusion == Some(BudgetExhausted) ==>
      IncludedCost(selections) + selections[i].cost > available
  {
    BudgetKept(digest, available, ordered);
    forall i | 0 <= i < |ordered|
      ensures selections[i].candidate == ordered[i]
      ensures selections[i].exclusion == Some(BudgetExhausted) ==>
              IncludedCost(selections) + selections[i].cost > available
    {
      DecidedInTurn(digest, available, ordered, i);
      OverflowStands(digest, available, ordered, i);
    }
  }

  /** The order in which candidates with distinct identities arrive does not matter. */
  lemma OrderDoesNotMatter(digest: Digest, request: Request, a: seq<Candidate>, b: seq<Candidate>)
    requires multiset(a) == multiset(b) && DistinctIds(a)
    ensures Compiled(digest, request, a) == Compiled(digest, request, b)
  {
    EarlierIsStrict();
    assert Comparable(a, Earlier) by {
      forall i, j | 0 <= i < j < |a| ensures Earlier(a[i], a[j]) || Earlier(a[j], a[i]) {
        BelowTotal(a[i].id, a[j].id);
      }
    }
    SortOrders(a, Earlier);
    SortPermutes(a, Earlier);
    SortReaches(b, SortBy(a, Earlier), Earlier);
    SameElements(a, b);
  }
}
