/**
 * When a chain of inventory calls returns everything: which calls lose entries
 * behind a short page, told from the sizes of the endpoints.
 */
module CompleteInventory {
  import opened ForgeInventory

  // --------------------------------------------------------- one call, exactly

  /** The listed entries of a stretch. */
  function Count(items: seq<Item>, from: nat, to: nat): nat
    requires to <= |items|
  {
    if to <= from then 0 else Count(items, from, to - 1) + if items[to - 1].listed then 1 else 0
  }

  lemma {:induction false} KeepCounts(items: seq<Item>, endpoint: nat, from: nat, to: nat)
    requires to <= |items|
    ensures |Keep(items, endpoint, from, to)| == Count(items, from, to)
  {
    if from < to { KeepCounts(items, endpoint, from, to - 1); }
  }

  /**
   * With so much room a call loses nothing: where the room cuts a page of one
   * hundred short, no listed entry lies between the cut and the page's end.
   */
  predicate Fits(server: Server, busy: set<nat>, index: nat, page: nat, room: nat)
    requires index <= |server| && page >= 1
    decreases |server| - index
  {
    if index == |server| || room == 0 || index in busy then true
    else
      var items := Items(server, index);
      var start, end := PageStart(items, page, Min(room, 100)), PageEnd(items, page, Min(room, 100));
      && Count(items, end, Min(page * 100, |items|)) == 0
      && (page * Min(room, 100) < |items| || Fits(server, busy, index + 1, 1, After(room, Count(items, start, end))))
  }

  function After(room: nat, used: nat): nat {
    if used < room then room - used else 0
  }

  lemma RoundFits(server: Server, busy: set<nat>, index: nat, page: nat, limit: nat, acc: Inventory)
    requires index < |server| && page >= 1 && |acc.objects| < limit && index !in busy
    ensures var items, size := Items(server, index), PageSize(limit, |acc.objects|);
      && size == Min(limit - |acc.objects|, 100)
      && (RoundSkips(server, busy, index, page, limit, |acc.objects|) == [] <==>
          Count(items, PageEnd(items, page, size), Min(page * 100, |items|)) == 0)
      && (OneRound(server, busy, index, page, limit, acc).Stop? <==> page * size < |items|)
      && (OneRound(server, busy, index, page, limit, acc).Continue? ==>
            |OneRound(server, busy, index, page, limit, acc).acc.objects| ==
            |acc.objects| + Count(items, PageStart(items, page, size), PageEnd(items, page, size)))
  {
    var items, size := Items(server, index), PageSize(limit, |acc.objects|);
    KeepCounts(items, index, PageEnd(items, page, size), Min(page * 100, |items|));
    KeepCounts(items, index, PageStart(items, page, size), PageEnd(items, page, size));
  }

  /** The last page of an endpoint leaves nothing behind it. */
  lemma LastPageSkipsNothing(server: Server, busy: set<nat>, index: nat, page: nat, limit: nat, held: nat)
    requires index < |server| && page >= 1 && held < limit && page * PageSize(limit, held) >= |Items(server, index)|
    ensures RoundSkips(server, busy, index, page, limit, held) == []
  {
  }

  lemma {:induction false} GatherFits(server: Server, busy: set<nat>, index: nat, page: nat, limit: nat, acc: Inventory)
    requires index <= |server| && page >= 1
    ensures Skipped(server, busy, index, page, limit, acc) == [] <==>
            Fits(server, busy, index, page, After(limit, |acc.objects|))
    decreases |server| - index
  {
    if index < |server| && |acc.objects| < limit && index !in busy {
      RoundFits(server, busy, index, page, limit, acc);
      match OneRound(server, busy, index, page, limit, acc)
      case Stop(_) =>
      case Continue(next) =>
        LastPageSkipsNothing(server, busy, index, page, limit, |acc.objects|);
        GatherGoesOn(server, busy, index, page, limit, acc, next);
        GatherFits(server, busy, index + 1, 1, limit, next);
    }
  }

  predicate CallFits(server: Server, call: Call, cursor: Cursor)
    requires ValidCursor(server, cursor)
  {
    cursor.Finished? || Fits(server, call.busy, Endpoint0(cursor), Page0(cursor), Remaining(call, cursor))
  }

  /** A call loses nothing exactly when the room it starts with fits the endpoints ahead. */
  lemma CallLosesNothingIff(server: Server, call: Call, cursor: Cursor)
    requires ValidCursor(server, cursor)
    ensures SyncSkips(server, call, cursor) == [] <==> CallFits(server, call, cursor)
  {
    if !cursor.Finished? && Remaining(call, cursor) >= 1 {
      GatherFits(server, call.busy, Endpoint0(cursor), Page0(cursor), Remaining(call, cursor),
        Opening(Endpoint0(cursor), Page0(cursor)));
    }
  }

  // ------------------------------------------------------------ whole chains

  predicate AllFit(server: Server, cursor: Cursor, calls: seq<Call>)
    requires ValidCursor(server, cursor) && forall c :: c in calls ==> c.limit >= 100
    decreases calls
  {
    calls == [] ||
    (SyncValid(server, calls[0], cursor);
     CallFits(server, calls[0], cursor) && AllFit(server, Sync(server, calls[0], cursor).cursor, calls[1..]))
  }

  lemma {:induction false} ChainLosesNothingIff(server: Server, cursor: Cursor, calls: seq<Call>)
    requires ValidCursor(server, cursor) && forall c :: c in calls ==> c.limit >= 100
    ensures Lost(server, cursor, calls) == [] <==> AllFit(server, cursor, calls)
    decreases calls
  {
    if calls != [] {
      TrailSplit(server, cursor, calls);
      CallLosesNothingIff(server, calls[0], cursor);
      ChainLosesNothingIff(server, Sync(server, calls[0], cursor).cursor, calls[1..]);
    }
  }

  /** A finished chain returned the whole listing in order exactly when each of its calls had room that fits. */
  lemma ChainCompleteIff(server: Server, calls: seq<Call>)
    requires forall c :: c in calls ==> c.limit >= 100
    requires EndCursor(server, Start, calls).Finished?
    ensures Returned(server, Start, calls) == Listing(server) <==> AllFit(server, Start, calls)
  {
    FinishedChainIsComplete(server, calls);
    ChainLosesNothingIff(server, Start, calls);
  }

  // ------------------------------------------------------------------- sizes

  /** The entries on a page of one hundred. */
  function PageLength(items: seq<Item>, page: nat): nat
    requires page >= 1
  {
    Min(page * 100, |items|) - Min((page - 1) * 100, |items|)
  }

  /** Entries on the first pages from an endpoint on. */
  function FirstPages(server: Server, index: nat): nat
    decreases |server| - index
  {
    if index >= |server| then 0 else Min(100, |Items(server, index)|) + FirstPages(server, index + 1)
  }

  /** Entries on the page at a cursor and on the first pages of the endpoints after it. */
  function PagesAhead(server: Server, index: nat, page: nat): nat
    requires page >= 1
  {
    if index >= |server| then 0 else PageLength(Items(server, index), page) + FirstPages(server, index + 1)
  }

  lemma {:induction false} CountBounded(items: seq<Item>, from: nat, to: nat)
    requires to <= |items|
    ensures Count(items, from, to) <= if to <= from then 0 else to - from
    ensures (forall i :: 0 <= i < |items| ==> items[i].listed) ==>
            Count(items, from, to) == if to <= from then 0 else to - from
  {
    if from < to { CountBounded(items, from, to - 1); }
  }

  /** A page whose entries all fit in the room is read to its end. */
  lemma RoomReachesEnd(items: seq<Item>, page: nat, room: nat)
    requires page >= 1 && (page == 1 || room >= 100)
    ensures var end := PageEnd(items, page, Min(room, 100));
      && end <= Min(page * 100, |items|)
      && (PageLength(items, page) <= room <==> end == Min(page * 100, |items|))
      && PageStart(items, page, Min(room, 100)) == Min((page - 1) * 100, |items|)
      && (PageLength(items, page) <= room && page * Min(room, 100) < |items| ==> page * 100 < |items|)
  {
    if page == 1 {
      assert (page - 1) * Min(room, 100) == 0 && page * Min(room, 100) == Min(room, 100);
    }
  }

  lemma {:induction false} RoomyFits(server: Server, busy: set<nat>, index: nat, page: nat, room: nat)
    requires index <= |server| && page >= 1 && (page == 1 || room >= 100)
    requires room >= PagesAhead(server, index, page)
    ensures Fits(server, busy, index, page, room)
    decreases |server| - index
  {
    if index < |server| && room > 0 && index !in busy {
      var items := Items(server, index);
      var start, end := PageStart(items, page, Min(room, 100)), PageEnd(items, page, Min(room, 100));
      RoomReachesEnd(items, page, room);
      CountBounded(items, end, Min(page * 100, |items|));
      CountBounded(items, start, end);
      RoomyFits(server, busy, index + 1, 1, After(room, Count(items, start, end)));
    }
  }

  /** A call with room for the page it starts at and the first page of every endpoint after it loses nothing. */
  lemma RoomyCallLosesNothing(server: Server, call: Call, cursor: Cursor)
    requires ValidCursor(server, cursor) && (cursor.Resume? ==> cursor.page == 1 || call.limit >= 100)
    requires Remaining(call, cursor) >= PagesAhead(server, Endpoint0(cursor), Page0(cursor))
    ensures SyncSkips(server, call, cursor) == []
  {
    CallLosesNothingIff(server, call, cursor);
    if !cursor.Finished? {
      RoomyFits(server, call.busy, Endpoint0(cursor), Page0(cursor), Remaining(call, cursor));
    }
  }

  lemma {:induction false} FirstPagesFall(server: Server, e: nat, f: nat)
    requires e <= f
    ensures FirstPages(server, f) <= FirstPages(server, e)
    decreases f
  {
    if e < f { FirstPagesFall(server, e, f - 1); }
  }

  lemma PagesAheadOfAny(server: Server, index: nat, page: nat)
    requires page >= 1
    ensures PagesAhead(server, index, page) <= 100 + FirstPages(server, 0)
    ensures page == 1 ==> PagesAhead(server, index, page) <= FirstPages(server, 0)
  {
    if index < |server| {
      FirstPagesFall(server, 0, index);
      FirstPagesFall(server, index, index + 1);
    }
  }

  /** The call has room for the first page of every endpoint and one page more; the first call needs no page more. */
  predicate Ample(server: Server, call: Call) {
    && call.limit >= 100 + FirstPages(server, 0)
    && call.limit >= call.gitObjects + FirstPages(server, 0)
  }

  lemma {:induction false} AmpleFits(server: Server, cursor: Cursor, calls: seq<Call>)
    requires ValidCursor(server, cursor) && forall c :: c in calls ==> c.limit >= 100 && Ample(server, c)
    ensures AllFit(server, cursor, calls)
    decreases calls
  {
    if calls != [] {
      PagesAheadOfAny(server, Endpoint0(cursor), Page0(cursor));
      if !cursor.Finished? {
        RoomyFits(server, calls[0].busy, Endpoint0(cursor), Page0(cursor), Remaining(calls[0], cursor));
      }
      SyncValid(server, calls[0], cursor);
      AmpleFits(server, Sync(server, calls[0], cursor).cursor, calls[1..]);
    }
  }

  /**
   * Known before the first call: where the first pages of all endpoints, with
   * one page more or the Git objects, fit in every call, a chain with enough
   * calls that meet no rate limit returns the whole listing in order.
   */
  lemma AmpleChainReturnsListing(server: Server, calls: seq<Call>)
    requires LastAnswers(server) && forall c :: c in calls ==> c.limit >= 100 && Ample(server, c)
    requires Unlimited(calls) >= CursorLeft(server, Start)
    ensures EndCursor(server, Start, calls).Finished? && Returned(server, Start, calls) == Listing(server)
  {
    EnoughCallsFinish(server, Start, calls);
    AmpleFits(server, Start, calls);
    ChainCompleteIff(server, calls);
  }

  // --------------------------------------------------- wholly listed endpoints

  predicate WhollyListed(server: Server) {
    forall k :: 0 <= k < |server| ==> AllListed(Items(server, k))
  }

  predicate AllListed(items: seq<Item>) {
    forall i :: 0 <= i < |items| ==> items[i].listed
  }

  /** Every page of one hundred that the call comes to fits in the room then left. */
  predicate SizesFit(server: Server, busy: set<nat>, index: nat, page: nat, room: nat)
    requires index <= |server| && page >= 1
    decreases |server| - index
  {
    if index == |server| || room == 0 || index in busy then true
    else
      var items := Items(server, index);
      && PageLength(items, page) <= room
      && (page * 100 < |items| || SizesFit(server, busy, index + 1, 1, After(room, PageLength(items, page))))
  }

  /** Where every entry is listed the sizes alone decide. */
  lemma {:induction false} SizesDecide(server: Server, busy: set<nat>, index: nat, page: nat, room: nat)
    requires index <= |server| && page >= 1 && (page == 1 || room >= 100) && WhollyListed(server)
    ensures Fits(server, busy, index, page, room) <==> SizesFit(server, busy, index, page, room)
    decreases |server| - index
  {
    if index < |server| && room > 0 && index !in busy {
      var items := Items(server, index);
      var start, end := PageStart(items, page, Min(room, 100)), PageEnd(items, page, Min(room, 100));
      assert AllListed(items);
      RoomReachesEnd(items, page, room);
      CountBounded(items, end, Min(page * 100, |items|));
      CountBounded(items, start, end);
      if PageLength(items, page) <= room {
        SizesDecide(server, busy, index + 1, 1, After(room, PageLength(items, page)));
      }
    }
  }

  // ------------------------------------------------- pages asked for in full

  /** Every page the call asks for is asked for at size one hundred. */
  predicate FullPages(server: Server, busy: set<nat>, index: nat, page: nat, limit: nat, acc: Inventory)
    requires index <= |server| && page >= 1
    decreases |server| - index
  {
    if index == |server| || |acc.objects| >= limit then true
    else
      && PageSize(limit, |acc.objects|) == 100
      && match OneRound(server, busy, index, page, limit, acc)
         case Stop(_) => true
         case Continue(next) => FullPages(server, busy, index + 1, 1, limit, next)
  }

  lemma {:induction false} FullPagesSkipNothing(
    server: Server, busy: set<nat>, index: nat, page: nat, limit: nat, acc: Inventory)
    requires index <= |server| && page >= 1 && FullPages(server, busy, index, page, limit, acc)
    ensures Skipped(server, busy, index, page, limit, acc) == []
    decreases |server| - index
  {
    if index < |server| && |acc.objects| < limit {
      match OneRound(server, busy, index, page, limit, acc)
      case Stop(_) =>
      case Continue(next) => FullPagesSkipNothing(server, busy, index + 1, 1, limit, next);
    }
  }

  predicate CallFull(server: Server, call: Call, cursor: Cursor)
    requires ValidCursor(server, cursor)
  {
    cursor.Finished? || Remaining(call, cursor) < 1 ||
    FullPages(server, call.busy, Endpoint0(cursor), Page0(cursor), Remaining(call, cursor),
      Opening(Endpoint0(cursor), Page0(cursor)))
  }

  predicate AllFull(server: Server, cursor: Cursor, calls: seq<Call>)
    requires ValidCursor(server, cursor) && forall c :: c in calls ==> c.limit >= 100
    decreases calls
  {
    calls == [] ||
    (SyncValid(server, calls[0], cursor);
     CallFull(server, calls[0], cursor) && AllFull(server, Sync(server, calls[0], cursor).cursor, calls[1..]))
  }

  lemma {:induction false} FullChainLosesNothing(server: Server, cursor: Cursor, calls: seq<Call>)
    requires ValidCursor(server, cursor) && forall c :: c in calls ==> c.limit >= 100
    ensures AllFull(server, cursor, calls) ==> Lost(server, cursor, calls) == []
    decreases calls
  {
    if calls != [] && AllFull(server, cursor, calls) {
      TrailSplit(server, cursor, calls);
      if !cursor.Finished? && Remaining(calls[0], cursor) >= 1 {
        FullPagesSkipNothing(server, calls[0].busy, Endpoint0(cursor), Page0(cursor), Remaining(calls[0], cursor),
          Opening(Endpoint0(cursor), Page0(cursor)));
      }
      FullChainLosesNothing(server, Sync(server, calls[0], cursor).cursor, calls[1..]);
    }
  }

  /**
   * Where every page is asked for at size one hundred, a chain with enough calls
   * that meet no rate limit finishes and returns the whole listing in order.
   */
  lemma FullPagesReturnListing(server: Server, calls: seq<Call>)
    requires LastAnswers(server) && (forall c :: c in calls ==> c.limit >= 100) && AllFull(server, Start, calls)
    requires Unlimited(calls) >= CursorLeft(server, Start)
    ensures EndCursor(server, Start, calls).Finished? && Returned(server, Start, calls) == Listing(server)
  {
    EnoughCallsFinish(server, Start, calls);
    FullChainLosesNothing(server, Start, calls);
    FinishedChainIsComplete(server, calls);
  }

  // ----------------------------------------------------- a short first page

  lemma SecondCallOfExample(server: Server)
    requires |server| == 1 && server[0].Supported? && |server[0].items| == 2
    ensures Sync(server, Call({}, 0, 500), Resume(0, 2)) == SyncPage([], Finished)
    ensures SyncSkips(server, Call({}, 0, 500), Resume(0, 2)) == []
  {
    var items := server[0].items;
    assert PageSize(500, 0) == 100;
    assert PageStart(items, 2, 100) == 2 && PageEnd(items, 2, 100) == 2;
    assert Keep(items, 0, 2, 2) == [];
    var next := Inventory([], 1, 1, false, false, []);
    assert OneRound(server, {}, 0, 2, 500, Opening(0, 2)) == Continue(next);
    assert Gather(server, {}, 1, 1, 500, next) == next.(done := true);
    assert Gather(server, {}, 0, 2, 500, Opening(0, 2)) == next.(done := true);
    assert Skipped(server, {}, 1, 1, 500, next) == [];
  }

  /**
   * Two entries and 499 Git objects under the limit of 500: the first page is
   * asked for with size one, the second with size one hundred, and the second
   * entry is in neither.
   */
  lemma ShortFirstPageLosesAnEntry(a: Item, b: Item)
    requires a.listed && b.listed
    ensures var server, calls := [Supported([a, b])], [Call({}, 499, 500), Call({}, 0, 500)];
      && EndCursor(server, Start, calls).Finished?
      && Returned(server, Start, calls) == [At(0, 0)]
      && Lost(server, Start, calls) == [At(0, 1)]
  {
    var items, server := [a, b], [Supported([a, b])];
    var first, second := Call({}, 499, 500), Call({}, 0, 500);
    assert Keep(items, 0, 0, 1) == [At(0, 0)] by { assert Keep(items, 0, 0, 0) == []; }
    assert Keep(items, 0, 1, 2) == [At(0, 1)] by { assert Keep(items, 0, 1, 1) == []; }
    assert Keep(items, 0, 2, 2) == [];
    assert Sync(server, first, Start) == SyncPage([At(0, 0)], Resume(0, 2));
    assert SyncSkips(server, first, Start) == [At(0, 1)];
    SecondCallOfExample(server);
    var calls := [first, second];
    assert calls[1..] == [second] && [second][1..] == [];
  }
}
