/**
 * The resumable inventory of a forge: several paginated endpoints collected
 * in bounded calls, each resuming at the cursor the one before returned.
 */
module ForgeInventory {
  import opened Documents

  /** An entry of a listing; normalisation drops the issues that are pull requests. */
  datatype Item = Item(id: string, listed: bool)

  /** What an endpoint answers: its pages, or always 403 or 404. */
  datatype Endpoint = Supported(items: seq<Item>) | Refused

  type Server = seq<Endpoint>

  /** An entry by its place: the object a page yields stands for the entry at this place. */
  datatype Position = At(endpoint: nat, index: nat)

  datatype Inventory = Inventory(
    objects: seq<Position>, endpoint: nat, page: nat, done: bool, retry: bool, unsupported: seq<nat>)

  function Min(a: nat, b: nat): nat {
    if a < b then a else b
  }

  /** The entries of the stretch that normalisation keeps. */
  function Keep(items: seq<Item>, endpoint: nat, from: nat, to: nat): seq<Position>
    requires to <= |items|
  {
    if to <= from then []
    else
      Keep(items, endpoint, from, to - 1) + if items[to - 1].listed then [At(endpoint, to - 1)] else []
  }

  /** Page numbers start at one. */
  function PageStart(items: seq<Item>, page: nat, size: nat): nat
    requires page >= 1
  {
    Min((page - 1) * size, |items|)
  }

  function PageEnd(items: seq<Item>, page: nat, size: nat): nat {
    Min(page * size, |items|)
  }

  function PageSize(limit: nat, held: nat): nat
    requires held < limit
  {
    Min(limit - held, 100)
  }

  /** What one round of the endpoint loop leads to. */
  datatype Round = Stop(result: Inventory) | Continue(acc: Inventory)

  /** One round; busy are the endpoints that answer 429 during this call. */
  function OneRound(server: Server, busy: set<nat>, index: nat, page: nat, limit: nat, acc: Inventory): Round
    requires index < |server| && page >= 1 && |acc.objects| < limit
  {
    if index in busy then Stop(acc.(endpoint := index, page := page, retry := true))
    else
      match server[index]
      case Refused => Continue(acc.(unsupported := acc.unsupported + [index]))
      case Supported(items) =>
        var size := PageSize(limit, |acc.objects|);
        var objects := acc.objects + Keep(items, index, PageStart(items, page, size), PageEnd(items, page, size));
        if page * size < |items| then Stop(acc.(objects := objects, endpoint := index, page := page + 1))
        else Continue(acc.(objects := objects, endpoint := index + 1, page := 1))
  }

  function Gather(server: Server, busy: set<nat>, index: nat, page: nat, limit: nat, acc: Inventory): Inventory
    requires index <= |server| && page >= 1
    decreases |server| - index
  {
    if index == |server| || |acc.objects| >= limit then acc.(done := acc.endpoint >= |server|)
    else
      match OneRound(server, busy, index, page, limit, acc)
      case Stop(result) => result
      case Continue(next) => Gather(server, busy, index + 1, 1, limit, next)
  }

  function Opening(endpoint: nat, page: nat): Inventory {
    Inventory([], endpoint, page, false, false, [])
  }

  function Collect(server: Server, busy: set<nat>, endpoint: int, page: int, limit: int): Result<Inventory> {
    if endpoint < 0 || endpoint > |server| || page < 1 || limit < 1 || limit > 500 then Failure
    else Success(Gather(server, busy, endpoint, page, limit, Opening(endpoint, page)))
  }

  /** One request; the link to a next page is there exactly when entries follow. */
  datatype Reply = TooManyRequests | Unavailable | Page(objects: seq<Position>, nextPage: nat)

  function Request(server: Server, busy: set<nat>, index: nat, page: nat, size: nat): Reply
    requires index < |server| && page >= 1
  {
    if index in busy then TooManyRequests
    else
      match server[index]
      case Refused => Unavailable
      case Supported(items) =>
        Page(Keep(items, index, PageStart(items, page, size), PageEnd(items, page, size)),
             if page * size < |items| then page + 1 else 0)
  }

  lemma {:induction false} KeepBounded(items: seq<Item>, endpoint: nat, from: nat, to: nat)
    requires from <= to <= |items|
    ensures |Keep(items, endpoint, from, to)| <= to - from
  {
    if from < to {
      KeepBounded(items, endpoint, from, to - 1);
    }
  }

  lemma PageBounded(items: seq<Item>, page: nat, size: nat)
    requires page >= 1
    ensures 0 <= PageEnd(items, page, size) - PageStart(items, page, size) <= size
  {
    assert page * size == (page - 1) * size + size;
  }

  method CollectInventory(server: Server, busy: set<nat>, endpoint: int, page: int, limit: int)
    returns (r: Result<Inventory>)
    ensures r == Collect(server, busy, endpoint, page, limit)
  {
    if endpoint < 0 || endpoint > |server| || page < 1 || limit < 1 || limit > 500 {
      return Failure;
    }
    var result := Opening(endpoint, page);
    var index: nat := endpoint;
    ghost var goal := Gather(server, busy, endpoint, page, limit, result);
    while index < |server| && |result.objects| < limit
      invariant endpoint <= index <= |server|
      invariant Gather(server, busy, index, if index == endpoint then page else 1, limit, result) == goal
      decreases |server| - index
    {
      var currentPage: nat := 1;
      if index == endpoint {
        currentPage := page;
      }
      var remaining: nat := limit - |result.objects|;
      if remaining > 100 {
        remaining := 100;
      }
      var reply := Request(server, busy, index, currentPage, remaining);
      match reply {
      case Unavailable =>
        result := result.(unsupported := result.unsupported + [index]);
      case TooManyRequests =>
        return Success(result.(endpoint := index, page := currentPage, retry := true));
      case Page(objects, nextPage) =>
        var items := server[index].items;
        PageBounded(items, currentPage, remaining);
        KeepBounded(items, index, PageStart(items, currentPage, remaining), PageEnd(items, currentPage, remaining));
        assert |objects| <= remaining;
        result := result.(objects := result.objects + objects);
        if nextPage > currentPage {
          return Success(result.(endpoint := index, page := nextPage));
        }
        result := result.(endpoint := index + 1, page := 1);
      }
      index := index + 1;
    }
    r := Success(result.(done := result.endpoint >= |server|));
  }

  // -------------------------------------------------- what one call accounts for

  function Items(server: Server, index: nat): seq<Item>
    requires index < |server|
  {
    if server[index].Supported? then server[index].items else []
  }

  function ListedBefore(server: Server, endpoint: nat): seq<Position>
    requires endpoint <= |server|
  {
    if endpoint == 0 then []
    else
      ListedBefore(server, endpoint - 1) +
      Keep(Items(server, endpoint - 1), endpoint - 1, 0, |Items(server, endpoint - 1)|)
  }

  /** Every kept entry of the server, endpoint after endpoint. */
  function Listing(server: Server): seq<Position> {
    ListedBefore(server, |server|)
  }

  /** The kept entries that lie before a cursor, counting pages of one hundred. */
  function Passed(server: Server, endpoint: nat, page: nat): seq<Position>
    requires endpoint <= |server| && page >= 1
  {
    ListedBefore(server, endpoint) +
    if endpoint == |server| then []
    else Keep(Items(server, endpoint), endpoint, 0, Min((page - 1) * 100, |Items(server, endpoint)|))
  }

  /** The kept entries a round passes over: what follows a short page up to the page of one hundred. */
  function RoundSkips(server: Server, busy: set<nat>, index: nat, page: nat, limit: nat, held: nat): seq<Position>
    requires index < |server| && page >= 1 && held < limit
  {
    if index in busy || server[index].Refused? then []
    else
      var items := server[index].items;
      Keep(items, index, PageEnd(items, page, PageSize(limit, held)), Min(page * 100, |items|))
  }

  /** The kept entries a call passes over. */
  function Skipped(server: Server, busy: set<nat>, index: nat, page: nat, limit: nat, acc: Inventory): seq<Position>
    requires index <= |server| && page >= 1
    decreases |server| - index
  {
    if index == |server| || |acc.objects| >= limit then []
    else
      match OneRound(server, busy, index, page, limit, acc)
      case Stop(_) => RoundSkips(server, busy, index, page, limit, |acc.objects|)
      case Continue(next) => Skipped(server, busy, index + 1, 1, limit, next)
  }

  lemma {:induction false} KeepSplits(items: seq<Item>, endpoint: nat, from: nat, mid: nat, to: nat)
    requires from <= mid <= to <= |items|
    ensures Keep(items, endpoint, from, to) == Keep(items, endpoint, from, mid) + Keep(items, endpoint, mid, to)
  {
    if mid < to {
      KeepSplits(items, endpoint, from, mid, to - 1);
    }
  }

  lemma {:induction false} RefusedAddNothing(server: Server, from: nat, to: nat)
    requires from <= to <= |server|
    requires forall k :: from <= k < to ==> server[k].Refused?
    ensures ListedBefore(server, to) == ListedBefore(server, from)
  {
    if from < to {
      RefusedAddNothing(server, from, to - 1);
    }
  }

  /** The accumulator stands at its own cursor, and only refused endpoints lie between that and index. */
  predicate Stands(server: Server, index: nat, page: nat, acc: Inventory) {
    && !acc.done && acc.endpoint <= index <= |server| && acc.page >= 1 && page >= 1
    && (forall k :: acc.endpoint <= k < index ==> server[k].Refused?)
    && (if index == acc.endpoint then page == acc.page else page == 1)
  }

  lemma StandsPassed(server: Server, index: nat, page: nat, acc: Inventory)
    requires Stands(server, index, page, acc)
    ensures Passed(server, acc.endpoint, acc.page) == Passed(server, index, page)
  {
    if acc.endpoint < index {
      RefusedAddNothing(server, acc.endpoint, index);
    }
  }

  /** A later page is asked for at full size. */
  predicate FullSize(page: nat, limit: nat, held: nat) {
    page == 1 || limit >= held + 100
  }

  /** The page just read together with what a short page passes over fills the way to the next page. */
  lemma PageAccounts(items: seq<Item>, endpoint: nat, page: nat, size: nat)
    requires page >= 1 && 1 <= size <= 100 && (page == 1 || size == 100)
    ensures PageStart(items, page, size) == Min((page - 1) * 100, |items|)
    ensures PageEnd(items, page, size) <= Min(page * 100, |items|)
    ensures Keep(items, endpoint, 0, Min(page * 100, |items|))
         == Keep(items, endpoint, 0, Min((page - 1) * 100, |items|))
          + Keep(items, endpoint, PageStart(items, page, size), PageEnd(items, page, size))
          + Keep(items, endpoint, PageEnd(items, page, size), Min(page * 100, |items|))
    ensures page * size >= |items| ==> PageEnd(items, page, size) == |items| == Min(page * 100, |items|)
    ensures size == 100 ==> PageEnd(items, page, size) == Min(page * 100, |items|)
  {
    var start, end, full := PageStart(items, page, size), PageEnd(items, page, size), Min(page * 100, |items|);
    if page == 1 {
      assert (page - 1) * size == 0;
      assert page * size == size;
    }
    KeepSplits(items, endpoint, 0, start, full);
    KeepSplits(items, endpoint, start, end, full);
    Regroup(Keep(items, endpoint, 0, start), Keep(items, endpoint, start, end), Keep(items, endpoint, end, full));
  }

  lemma Regroup<T>(a: seq<T>, b: seq<T>, c: seq<T>)
    ensures a + (b + c) == a + b + c
  {
  }

  /** Reading a page that has a successor. */
  lemma {:induction false} PassedNextPage(server: Server, index: nat, page: nat, size: nat)
    requires index < |server| && server[index].Supported? && page >= 1
    requires 1 <= size <= 100 && (page == 1 || size == 100)
    ensures var items := server[index].items;
      Passed(server, index, page + 1) == Passed(server, index, page)
        + Keep(items, index, PageStart(items, page, size), PageEnd(items, page, size))
        + Keep(items, index, PageEnd(items, page, size), Min(page * 100, |items|))
  {
    PageAccounts(server[index].items, index, page, size);
  }

  /** Reading an endpoint's last page. */
  lemma {:induction false} PassedNextEndpoint(server: Server, index: nat, page: nat, size: nat)
    requires index < |server| && server[index].Supported? && page >= 1
    requires 1 <= size <= 100 && (page == 1 || size == 100) && page * size >= |server[index].items|
    ensures var items := server[index].items;
      Passed(server, index + 1, 1) == Passed(server, index, page)
        + Keep(items, index, PageStart(items, page, size), PageEnd(items, page, size))
  {
    var items := server[index].items;
    PassedNextPage(server, index, page, size);
    PageAccounts(items, index, page, size);
    assert Keep(items, index, |items|, |items|) == [];
    if index + 1 < |server| {
      assert Keep(Items(server, index + 1), index + 1, 0, 0) == [];
    }
  }

  /** The objects so far, with what earlier calls accounted for, are the entries before the cursor. */
  predicate Settled(server: Server, past: seq<Position>, acc: Inventory) {
    && acc.endpoint <= |server| && acc.page >= 1
    && past + acc.objects == Passed(server, acc.endpoint, acc.page)
  }

  predicate CursorAtMost(a: Inventory, b: Inventory) {
    a.endpoint < b.endpoint || (a.endpoint == b.endpoint && a.page <= b.page)
  }

  /** The loop may go on at index and page. */
  predicate Ready(server: Server, index: nat, page: nat, limit: nat, acc: Inventory, past: seq<Position>) {
    Stands(server, index, page, acc) && FullSize(page, limit, |acc.objects|) && Settled(server, past, acc)
  }

  /** A call may end with r, having passed over the skipped entries. */
  predicate Ends(server: Server, acc: Inventory, r: Inventory, past: seq<Position>, skipped: seq<Position>) {
    && CursorAtMost(acc, r) && r.endpoint <= |server| && r.page >= 1
    && past + r.objects + skipped == Passed(server, r.endpoint, r.page)
  }

  /** What is held stays in step with what is passed as both are extended. */
  lemma Extends<T>(past: seq<T>, held: seq<T>, kept: seq<T>, skipped: seq<T>, passed: seq<T>)
    requires past + held == passed
    ensures past + (held + kept) == passed + kept
    ensures past + (held + kept) + skipped == passed + kept + skipped
  {
    Regroup(past, held, kept);
  }

  /** The round that reads a page with a successor. */
  lemma StopsAtPage(server: Server, index: nat, page: nat, limit: nat, acc: Inventory, kept: seq<Position>)
    requires index < |server| && page >= 1 && |acc.objects| < limit && server[index].Supported?
    requires var items, size := server[index].items, PageSize(limit, |acc.objects|);
      page * size < |items| && kept == Keep(items, index, PageStart(items, page, size), PageEnd(items, page, size))
    ensures OneRound(server, {}, index, page, limit, acc) ==
            Stop(acc.(objects := acc.objects + kept, endpoint := index, page := page + 1))
  {
  }

  lemma RoundStopsAtPage(
    server: Server, index: nat, page: nat, limit: nat, acc: Inventory, past: seq<Position>)
    requires index < |server| && page >= 1 && |acc.objects| < limit && Ready(server, index, page, limit, acc, past)
    requires server[index].Supported? && page * PageSize(limit, |acc.objects|) < |server[index].items|
    ensures Ends(server, acc, OneRound(server, {}, index, page, limit, acc).result, past,
      RoundSkips(server, {}, index, page, limit, |acc.objects|))
  {
    var items, size := server[index].items, PageSize(limit, |acc.objects|);
    var kept := Keep(items, index, PageStart(items, page, size), PageEnd(items, page, size));
    var skipped := RoundSkips(server, {}, index, page, limit, |acc.objects|);
    StopsAtPage(server, index, page, limit, acc, kept);
    StandsPassed(server, index, page, acc);
    PassedNextPage(server, index, page, size);
    Extends(past, acc.objects, kept, skipped, Passed(server, index, page));
  }

  /** The round that reads an endpoint's last page. */
  lemma FinishesEndpoint(
    server: Server, index: nat, page: nat, limit: nat, acc: Inventory, past: seq<Position>, kept: seq<Position>)
    requires index < |server| && page >= 1 && |acc.objects| < limit && server[index].Supported?
    requires var items, size := server[index].items, PageSize(limit, |acc.objects|);
      page * size >= |items| && kept == Keep(items, index, PageStart(items, page, size), PageEnd(items, page, size))
    requires past + (acc.objects + kept) == Passed(server, index + 1, 1)
    ensures OneRound(server, {}, index, page, limit, acc).Continue?
    ensures Settled(server, past, OneRound(server, {}, index, page, limit, acc).acc)
  {
  }

  lemma SettlesAfterEndpoint(
    server: Server, index: nat, page: nat, size: nat, past: seq<Position>, held: seq<Position>, kept: seq<Position>)
    requires index < |server| && server[index].Supported? && page >= 1
    requires 1 <= size <= 100 && (page == 1 || size == 100) && page * size >= |server[index].items|
    requires var items := server[index].items;
      kept == Keep(items, index, PageStart(items, page, size), PageEnd(items, page, size))
    requires past + held == Passed(server, index, page)
    ensures past + (held + kept) == Passed(server, index + 1, 1)
  {
    PassedNextEndpoint(server, index, page, size);
    Extends(past, held, kept, [], Passed(server, index, page));
  }

  lemma StandsSettled(server: Server, index: nat, page: nat, acc: Inventory, past: seq<Position>)
    requires Stands(server, index, page, acc) && Settled(server, past, acc)
    ensures past + acc.objects == Passed(server, index, page)
  {
    StandsPassed(server, index, page, acc);
  }

  lemma {:induction false} RoundFinishesEndpoint(
    server: Server, index: nat, page: nat, limit: nat, acc: Inventory, past: seq<Position>)
    requires index < |server| && page >= 1 && |acc.objects| < limit && Ready(server, index, page, limit, acc, past)
    requires server[index].Supported? && page * PageSize(limit, |acc.objects|) >= |server[index].items|
    ensures Settled(server, past, OneRound(server, {}, index, page, limit, acc).acc)
  {
    var items, size := server[index].items, PageSize(limit, |acc.objects|);
    var kept := Keep(items, index, PageStart(items, page, size), PageEnd(items, page, size));
    StandsSettled(server, index, page, acc, past);
    SettlesAfterEndpoint(server, index, page, size, past, acc.objects, kept);
    FinishesEndpoint(server, index, page, limit, acc, past, kept);
  }

  predicate RoundLeads(
    server: Server, index: nat, limit: nat, acc: Inventory, past: seq<Position>, skips: seq<Position>, round: Round)
  {
    match round
    case Continue(next) => Ready(server, index + 1, 1, limit, next, past) && CursorAtMost(acc, next)
    case Stop(r) => Ends(server, acc, r, past, skips)
  }

  lemma RoundAccounts(
    server: Server, busy: set<nat>, index: nat, page: nat, limit: nat, acc: Inventory, past: seq<Position>)
    requires index < |server| && page >= 1 && |acc.objects| < limit && Ready(server, index, page, limit, acc, past)
    ensures RoundLeads(server, index, limit, acc, past, RoundSkips(server, busy, index, page, limit, |acc.objects|),
      OneRound(server, busy, index, page, limit, acc))
  {
    if index in busy {
      StandsPassed(server, index, page, acc);
      assert past + acc.objects + [] == past + acc.objects;
    } else if server[index].Supported? {
      if page * PageSize(limit, |acc.objects|) < |server[index].items| {
        RoundStopsAtPage(server, index, page, limit, acc, past);
      } else {
        RoundFinishesEndpoint(server, index, page, limit, acc, past);
      }
    }
  }

  lemma EndsLater(
    server: Server, acc: Inventory, next: Inventory, r: Inventory, past: seq<Position>, skipped: seq<Position>)
    ensures CursorAtMost(acc, next) && Ends(server, next, r, past, skipped) ==> Ends(server, acc, r, past, skipped)
  {
  }

  lemma EndsHere(server: Server, acc: Inventory, past: seq<Position>, done: bool)
    ensures Settled(server, past, acc) ==> Ends(server, acc, acc.(done := done), past, [])
  {
    assert past + acc.objects + [] == past + acc.objects;
  }

  /** A round that goes on leaves the result and the losses to the rounds after it, as it loses nothing. */
  lemma GatherGoesOn(
    server: Server, busy: set<nat>, index: nat, page: nat, limit: nat, acc: Inventory, next: Inventory)
    requires index < |server| && page >= 1 && |acc.objects| < limit
    requires OneRound(server, busy, index, page, limit, acc) == Continue(next)
    ensures Gather(server, busy, index, page, limit, acc) == Gather(server, busy, index + 1, 1, limit, next)
    ensures Skipped(server, busy, index, page, limit, acc) == Skipped(server, busy, index + 1, 1, limit, next)
  {
  }

  /**
   * One call: what it returns and what it passes over are together the kept
   * entries between the cursor it starts at and the one it ends at, and the
   * cursor does not go backwards.
   */
  lemma {:induction false} GatherAccounts(
    server: Server, busy: set<nat>, index: nat, page: nat, limit: nat, acc: Inventory, past: seq<Position>)
    requires index <= |server| && page >= 1
    ensures Ready(server, index, page, limit, acc, past) ==>
      Ends(server, acc, Gather(server, busy, index, page, limit, acc), past,
        Skipped(server, busy, index, page, limit, acc))
    decreases |server| - index
  {
    if Ready(server, index, page, limit, acc, past) {
      if index < |server| && |acc.objects| < limit {
        RoundAccounts(server, busy, index, page, limit, acc, past);
        match OneRound(server, busy, index, page, limit, acc)
        case Stop(r) =>
        case Continue(next) =>
          GatherAccounts(server, busy, index + 1, 1, limit, next, past);
          GatherGoesOn(server, busy, index, page, limit, acc, next);
          EndsLater(server, acc, next, Gather(server, busy, index + 1, 1, limit, next), past,
            Skipped(server, busy, index + 1, 1, limit, next));
      } else {
        EndsHere(server, acc, past, acc.endpoint >= |server|);
      }
    }
  }

  // ------------------------------------------------------- chains of calls

  /** The cursor kept between calls, for one base revision: none yet, inside the inventory, or the base itself. */
  datatype Cursor = Start | Resume(endpoint: nat, page: nat) | Finished

  /** One synchronisation: who is rate limited, how many Git objects come first, and the page limit. */
  datatype Call = Call(busy: set<nat>, gitObjects: nat, limit: nat)

  datatype SyncPage = SyncPage(objects: seq<Position>, cursor: Cursor)

  predicate ValidCursor(server: Server, cursor: Cursor) {
    cursor.Resume? ==> cursor.endpoint <= |server| && cursor.page >= 1
  }

  function Remaining(call: Call, cursor: Cursor): nat {
    if cursor.Start? then call.limit - Min(call.gitObjects, call.limit) else call.limit
  }

  function Endpoint0(cursor: Cursor): nat {
    if cursor.Resume? then cursor.endpoint else 0
  }

  function Page0(cursor: Cursor): nat {
    if cursor.Resume? then cursor.page else 1
  }

  function NextCursor(r: Inventory): Cursor {
    if !r.done || r.retry then Resume(r.endpoint, r.page) else Finished
  }

  function Sync(server: Server, call: Call, cursor: Cursor): SyncPage
    requires ValidCursor(server, cursor)
  {
    if cursor.Finished? then SyncPage([], Finished)
    else if Remaining(call, cursor) < 1 then SyncPage([], Resume(Endpoint0(cursor), Page0(cursor)))
    else
      var r := Gather(server, call.busy, Endpoint0(cursor), Page0(cursor), Remaining(call, cursor),
        Opening(Endpoint0(cursor), Page0(cursor)));
      SyncPage(r.objects, NextCursor(r))
  }

  method SyncForge(server: Server, call: Call, cursor: Cursor) returns (page: SyncPage)
    requires ValidCursor(server, cursor) && 1 <= call.limit <= 500
    ensures page == Sync(server, call, cursor)
  {
    page := SyncPage([], Finished);
    if cursor.Finished? {
      return;
    }
    var resuming := cursor.Resume?;
    var held := 0;
    if !resuming {
      held := Min(call.gitObjects, call.limit);
    }
    var endpoint: nat, inventoryPage: nat := 0, 1;
    if resuming {
      endpoint, inventoryPage := cursor.endpoint, cursor.page;
    }
    var remaining := call.limit - held;
    if remaining < 1 {
      return page.(cursor := Resume(endpoint, inventoryPage));
    }
    var inventory := CollectInventory(server, call.busy, endpoint, inventoryPage, remaining);
    page := page.(objects := inventory.value.objects);
    if !inventory.value.done || inventory.value.retry {
      page := page.(cursor := Resume(inventory.value.endpoint, inventory.value.page));
    }
  }

  /** What a call passes over for good. */
  function SyncSkips(server: Server, call: Call, cursor: Cursor): seq<Position>
    requires ValidCursor(server, cursor)
  {
    if cursor.Finished? || Remaining(call, cursor) < 1 then []
    else Skipped(server, call.busy, Endpoint0(cursor), Page0(cursor), Remaining(call, cursor),
      Opening(Endpoint0(cursor), Page0(cursor)))
  }

  /** The kept entries before a cursor. */
  function Behind(server: Server, cursor: Cursor): seq<Position>
    requires ValidCursor(server, cursor)
  {
    match cursor
    case Start => []
    case Resume(endpoint, page) => Passed(server, endpoint, page)
    case Finished => Listing(server)
  }

  predicate NotAfter(a: Cursor, b: Cursor) {
    match (a, b)
    case (Start, _) => true
    case (_, Finished) => true
    case (Resume(e, p), Resume(f, q)) => e < f || (e == f && p <= q)
    case _ => false
  }

  lemma PassedStart(server: Server)
    ensures Passed(server, 0, 1) == []
  {
    if |server| > 0 {
      assert Keep(Items(server, 0), 0, 0, 0) == [];
    }
  }

  lemma {:induction false} GatherEnds(server: Server, busy: set<nat>, index: nat, page: nat, limit: nat, acc: Inventory)
    requires index <= |server| && page >= 1 && !acc.done && !acc.retry
    ensures var r := Gather(server, busy, index, page, limit, acc);
      (r.done ==> !r.retry && r.endpoint >= |server|)
    decreases |server| - index
  {
    if index < |server| && |acc.objects| < limit {
      match OneRound(server, busy, index, page, limit, acc)
      case Stop(r) =>
      case Continue(next) => GatherEnds(server, busy, index + 1, 1, limit, next);
    }
  }

  /** One synchronisation moves the cursor forward over exactly what it returns and what it passes over. */
  lemma SyncAccounts(server: Server, call: Call, cursor: Cursor)
    requires ValidCursor(server, cursor) && call.limit >= 100
    ensures var next := Sync(server, call, cursor);
      && ValidCursor(server, next.cursor) && NotAfter(cursor, next.cursor)
      && Behind(server, next.cursor) == Behind(server, cursor) + next.objects + SyncSkips(server, call, cursor)
  {
    PassedStart(server);
    if !cursor.Finished? && Remaining(call, cursor) >= 1 {
      var e, p, remaining := Endpoint0(cursor), Page0(cursor), Remaining(call, cursor);
      var past := Behind(server, cursor);
      assert past == Passed(server, e, p);
      assert past + [] == past;
      assert Ready(server, e, p, remaining, Opening(e, p), past);
      GatherAccounts(server, call.busy, e, p, remaining, Opening(e, p), past);
      GatherEnds(server, call.busy, e, p, remaining, Opening(e, p));
    } else {
      assert Behind(server, cursor) + [] + [] == Behind(server, cursor);
    }
  }

  lemma SyncValid(server: Server, call: Call, cursor: Cursor)
    requires ValidCursor(server, cursor) && call.limit >= 100
    ensures ValidCursor(server, Sync(server, call, cursor).cursor)
  {
    SyncAccounts(server, call, cursor);
  }

  function EndCursor(server: Server, cursor: Cursor, calls: seq<Call>): Cursor
    requires ValidCursor(server, cursor) && forall c :: c in calls ==> c.limit >= 100
    decreases calls
  {
    if calls == [] then cursor
    else
      SyncValid(server, calls[0], cursor);
      EndCursor(server, Sync(server, calls[0], cursor).cursor, calls[1..])
  }

  /** Everything a chain of calls returns, in order. */
  function Returned(server: Server, cursor: Cursor, calls: seq<Call>): seq<Position>
    requires ValidCursor(server, cursor) && forall c :: c in calls ==> c.limit >= 100
    decreases calls
  {
    if calls == [] then []
    else
      SyncValid(server, calls[0], cursor);
      Sync(server, calls[0], cursor).objects + Returned(server, Sync(server, calls[0], cursor).cursor, calls[1..])
  }

  /** Everything a chain of calls passes over. */
  function Lost(server: Server, cursor: Cursor, calls: seq<Call>): seq<Position>
    requires ValidCursor(server, cursor) && forall c :: c in calls ==> c.limit >= 100
    decreases calls
  {
    if calls == [] then []
    else
      SyncValid(server, calls[0], cursor);
      SyncSkips(server, calls[0], cursor) + Lost(server, Sync(server, calls[0], cursor).cursor, calls[1..])
  }

  /** Call by call, what is returned and then what is passed over. */
  function Trail(server: Server, cursor: Cursor, calls: seq<Call>): seq<Position>
    requires ValidCursor(server, cursor) && forall c :: c in calls ==> c.limit >= 100
    decreases calls
  {
    if calls == [] then []
    else
      SyncValid(server, calls[0], cursor);
      Sync(server, calls[0], cursor).objects + SyncSkips(server, calls[0], cursor)
      + Trail(server, Sync(server, calls[0], cursor).cursor, calls[1..])
  }

  lemma NotAfterTransitive(a: Cursor, b: Cursor, c: Cursor)
    ensures NotAfter(a, b) && NotAfter(b, c) ==> NotAfter(a, c)
  {
  }

  /** Over a chain of calls the cursor never goes back. */
  lemma {:induction false} ChainNeverGoesBack(server: Server, cursor: Cursor, calls: seq<Call>)
    requires ValidCursor(server, cursor) && forall c :: c in calls ==> c.limit >= 100
    ensures ValidCursor(server, EndCursor(server, cursor, calls))
    ensures NotAfter(cursor, EndCursor(server, cursor, calls))
    decreases calls
  {
    if calls != [] {
      var next := Sync(server, calls[0], cursor).cursor;
      SyncAccounts(server, calls[0], cursor);
      ChainNeverGoesBack(server, next, calls[1..]);
      NotAfterTransitive(cursor, next, EndCursor(server, next, calls[1..]));
    }
  }

  /** The trail of a chain is exactly what lies between the cursors at its ends. */
  lemma {:induction false} ChainAccounts(server: Server, cursor: Cursor, calls: seq<Call>)
    requires ValidCursor(server, cursor) && forall c :: c in calls ==> c.limit >= 100
    ensures ValidCursor(server, EndCursor(server, cursor, calls))
    ensures Behind(server, EndCursor(server, cursor, calls)) == Behind(server, cursor) + Trail(server, cursor, calls)
    decreases calls
  {
    ChainNeverGoesBack(server, cursor, calls);
    if calls == [] {
      assert Behind(server, cursor) + [] == Behind(server, cursor);
    } else {
      var next := Sync(server, calls[0], cursor);
      var skips := SyncSkips(server, calls[0], cursor);
      SyncAccounts(server, calls[0], cursor);
      ChainAccounts(server, next.cursor, calls[1..]);
      Regroup4(Behind(server, cursor), next.objects, skips, Trail(server, next.cursor, calls[1..]));
    }
  }

  lemma Regroup4<T>(a: seq<T>, b: seq<T>, c: seq<T>, d: seq<T>)
    ensures a + b + c + d == a + (b + c + d)
  {
  }

  lemma TrailSplit(server: Server, cursor: Cursor, calls: seq<Call>)
    requires ValidCursor(server, cursor) && calls != [] && forall c :: c in calls ==> c.limit >= 100
    ensures var next, rest := Sync(server, calls[0], cursor), calls[1..];
      && ValidCursor(server, next.cursor)
      && Returned(server, cursor, calls) == next.objects + Returned(server, next.cursor, rest)
      && Lost(server, cursor, calls) == SyncSkips(server, calls[0], cursor) + Lost(server, next.cursor, rest)
      && Trail(server, cursor, calls) ==
           next.objects + SyncSkips(server, calls[0], cursor) + Trail(server, next.cursor, rest)
  {
    SyncValid(server, calls[0], cursor);
  }

  /** A chain splits its trail into what it returns and what it loses. */
  lemma {:induction false} TrailCounts(server: Server, cursor: Cursor, calls: seq<Call>)
    requires ValidCursor(server, cursor) && forall c :: c in calls ==> c.limit >= 100
    ensures |Trail(server, cursor, calls)| == |Returned(server, cursor, calls)| + |Lost(server, cursor, calls)|
    decreases calls
  {
    if calls != [] {
      TrailSplit(server, cursor, calls);
      TrailCounts(server, Sync(server, calls[0], cursor).cursor, calls[1..]);
    }
  }

  lemma {:induction false} TrailWithoutLoss(server: Server, cursor: Cursor, calls: seq<Call>)
    requires ValidCursor(server, cursor) && forall c :: c in calls ==> c.limit >= 100
    ensures Lost(server, cursor, calls) == [] ==> Trail(server, cursor, calls) == Returned(server, cursor, calls)
    decreases calls
  {
    if calls != [] && Lost(server, cursor, calls) == [] {
      var next := Sync(server, calls[0], cursor);
      TrailSplit(server, cursor, calls);
      EmptyParts(SyncSkips(server, calls[0], cursor), Lost(server, next.cursor, calls[1..]));
      TrailWithoutLoss(server, next.cursor, calls[1..]);
      assert next.objects + [] == next.objects;
    }
  }

  lemma EmptyParts<T>(a: seq<T>, b: seq<T>)
    requires a + b == []
    ensures a == [] && b == []
  {
    assert |a + b| == |a| + |b|;
  }

  lemma {:induction false} TrailElements(server: Server, cursor: Cursor, calls: seq<Call>, x: Position)
    requires ValidCursor(server, cursor) && forall c :: c in calls ==> c.limit >= 100
    ensures x in Trail(server, cursor, calls)
      <==> (x in Returned(server, cursor, calls) || x in Lost(server, cursor, calls))
    decreases calls
  {
    if calls != [] {
      SyncValid(server, calls[0], cursor);
      TrailElements(server, Sync(server, calls[0], cursor).cursor, calls[1..], x);
    }
  }

  lemma {:induction false} TrailDistinct(server: Server, cursor: Cursor, calls: seq<Call>)
    requires ValidCursor(server, cursor) && forall c :: c in calls ==> c.limit >= 100
    ensures Distinct(Trail(server, cursor, calls)) ==> Distinct(Returned(server, cursor, calls))
    decreases calls
  {
    if calls != [] && Distinct(Trail(server, cursor, calls)) {
      SyncValid(server, calls[0], cursor);
      var next := Sync(server, calls[0], cursor);
      var rest := Trail(server, next.cursor, calls[1..]);
      DistinctParts(next.objects, SyncSkips(server, calls[0], cursor), rest);
      TrailDistinct(server, next.cursor, calls[1..]);
      forall x | x in Returned(server, next.cursor, calls[1..]) ensures x in rest {
        TrailElements(server, next.cursor, calls[1..], x);
      }
      DistinctJoin(next.objects, Returned(server, next.cursor, calls[1..]), rest);
    }
  }

  predicate Distinct<T(==)>(s: seq<T>) {
    forall i, j :: 0 <= i < j < |s| ==> s[i] != s[j]
  }

  lemma DistinctParts<T>(a: seq<T>, b: seq<T>, c: seq<T>)
    requires Distinct(a + b + c)
    ensures Distinct(a) && Distinct(c) && forall x :: x in a ==> x !in c
  {
    var all := a + b + c;
    forall i, j | 0 <= i < j < |a| ensures a[i] != a[j] { assert all[i] == a[i] && all[j] == a[j]; }
    var n := |a| + |b|;
    forall i, j | 0 <= i < j < |c| ensures c[i] != c[j] { assert all[n + i] == c[i] && all[n + j] == c[j]; }
    forall i, j | 0 <= i < |a| && 0 <= j < |c| ensures a[i] != c[j] { assert all[i] == a[i] && all[n + j] == c[j]; }
  }

  lemma DistinctJoin<T>(a: seq<T>, b: seq<T>, within: seq<T>)
    requires Distinct(a) && Distinct(b) && (forall x :: x in a ==> x !in within) && (forall x :: x in b ==> x in within)
    ensures Distinct(a + b)
  {
    forall i, j | 0 <= i < j < |a + b| ensures (a + b)[i] != (a + b)[j] {
      if i < |a| <= j {
        assert (a + b)[i] in a && (a + b)[j] in b;
      }
    }
  }

  lemma {:induction false} KeepDistinct(items: seq<Item>, endpoint: nat, from: nat, to: nat)
    requires to <= |items|
    ensures Distinct(Keep(items, endpoint, from, to))
    ensures forall x :: x in Keep(items, endpoint, from, to) ==> x.endpoint == endpoint && from <= x.index < to
  {
    if from < to {
      KeepDistinct(items, endpoint, from, to - 1);
    }
  }

  lemma {:induction false} ListedDistinct(server: Server, endpoint: nat)
    requires endpoint <= |server|
    ensures Distinct(ListedBefore(server, endpoint))
    ensures forall x :: x in ListedBefore(server, endpoint) ==> x.endpoint < endpoint
  {
    if endpoint > 0 {
      ListedDistinct(server, endpoint - 1);
      var items := Items(server, endpoint - 1);
      KeepDistinct(items, endpoint - 1, 0, |items|);
      DistinctJoin(ListedBefore(server, endpoint - 1), Keep(items, endpoint - 1, 0, |items|),
        Keep(items, endpoint - 1, 0, |items|));
    }
  }

  lemma BehindDistinct(server: Server, cursor: Cursor)
    requires ValidCursor(server, cursor)
    ensures Distinct(Behind(server, cursor))
  {
    ListedDistinct(server, |server|);
    if cursor.Resume? {
      ListedDistinct(server, cursor.endpoint);
      if cursor.endpoint < |server| {
        var items, n := Items(server, cursor.endpoint), Min((cursor.page - 1) * 100, |Items(server, cursor.endpoint)|);
        KeepDistinct(items, cursor.endpoint, 0, n);
        DistinctJoin(ListedBefore(server, cursor.endpoint), Keep(items, cursor.endpoint, 0, n),
          Keep(items, cursor.endpoint, 0, n));
      }
    }
  }

  /** Over any chain of calls no entry is returned twice, rate limits and refusals or not. */
  lemma NothingReturnedTwice(server: Server, calls: seq<Call>)
    requires forall c :: c in calls ==> c.limit >= 100
    ensures Distinct(Returned(server, Start, calls))
  {
    ChainAccounts(server, Start, calls);
    assert [] + Trail(server, Start, calls) == Trail(server, Start, calls);
    BehindDistinct(server, EndCursor(server, Start, calls));
    TrailDistinct(server, Start, calls);
  }

  /**
   * A finished chain has accounted for every entry of the server: each was
   * returned or lay behind a short page, and the chain returned the whole
   * listing in order exactly when nothing lay behind a short page.
   */
  lemma FinishedChainIsComplete(server: Server, calls: seq<Call>)
    requires forall c :: c in calls ==> c.limit >= 100
    requires EndCursor(server, Start, calls).Finished?
    ensures forall x :: (
      x in Listing(server) <==> (x in Returned(server, Start, calls) || x in Lost(server, Start, calls)))
    ensures |Listing(server)| == |Returned(server, Start, calls)| + |Lost(server, Start, calls)|
    ensures Returned(server, Start, calls) == Listing(server) <==> Lost(server, Start, calls) == []
  {
    ChainAccounts(server, Start, calls);
    assert [] + Trail(server, Start, calls) == Trail(server, Start, calls);
    TrailCounts(server, Start, calls);
    TrailWithoutLoss(server, Start, calls);
    forall x
      ensures x in Listing(server) <==> (x in Returned(server, Start, calls) || x in Lost(server, Start, calls)) {
      TrailElements(server, Start, calls, x);
    }
  }

  // ----------------------------------------------------------- termination

  /** The pages that may still be asked for, from an endpoint on. */
  function Ahead(server: Server, endpoint: nat): nat
    requires endpoint <= |server|
    decreases |server| - endpoint
  {
    if endpoint == |server| then 0 else 1 + |Items(server, endpoint)| + Ahead(server, endpoint + 1)
  }

  function Left(server: Server, endpoint: nat, page: nat): nat
    requires endpoint <= |server| && page >= 1
  {
    if endpoint == |server| then 0 else Ahead(server, endpoint) - Min(page - 1, |Items(server, endpoint)|)
  }

  function CursorLeft(server: Server, cursor: Cursor): nat
    requires ValidCursor(server, cursor)
  {
    match cursor
    case Start => Left(server, 0, 1) + 2
    case Resume(e, p) => Left(server, e, p) + 1
    case Finished => 0
  }

  /** The last endpoint answers; a server without endpoints has none that refuses. */
  predicate LastAnswers(server: Server) {
    |server| > 0 ==> server[|server| - 1].Supported?
  }

  lemma PageWithSuccessor(page: nat, size: nat, n: nat)
    requires page >= 1 && size >= 1 && page * size < n
    ensures page < n
  {
    assert page * size >= page;
  }

  /** An unlimited call whose last endpoint answers finishes or gets strictly closer to the end. */
  lemma {:induction false} GatherProgresses(server: Server, index: nat, page: nat, limit: nat, acc: Inventory)
    requires LastAnswers(server) && page >= 1 && index <= |server|
    requires |acc.objects| < limit && !acc.done && !acc.retry && (index == |server| ==> acc.endpoint == |server|)
    ensures var r := Gather(server, {}, index, page, limit, acc);
      && !r.retry
      && (!r.done ==>
            r.endpoint <= |server| && r.page >= 1 && Left(server, r.endpoint, r.page) < Left(server, index, page))
    decreases |server| - index
  {
    if index < |server| {
      match OneRound(server, {}, index, page, limit, acc)
      case Stop(r) =>
        PageWithSuccessor(page, PageSize(limit, |acc.objects|), |Items(server, index)|);
      case Continue(next) =>
        if |next.objects| < limit {
          GatherProgresses(server, index + 1, 1, limit, next);
        }
    }
  }

  /** A call never reports the end while the last endpoint refuses. */
  lemma {:induction false} GatherStaysBefore(
    server: Server, busy: set<nat>, index: nat, page: nat, limit: nat, acc: Inventory)
    requires !LastAnswers(server) && page >= 1 && index <= |server|
    requires acc.endpoint < |server| && !acc.done
    ensures var r := Gather(server, busy, index, page, limit, acc); !r.done && r.endpoint < |server|
    decreases |server| - index
  {
    if index < |server| && |acc.objects| < limit {
      match OneRound(server, busy, index, page, limit, acc)
      case Stop(r) =>
      case Continue(next) => GatherStaysBefore(server, busy, index + 1, 1, limit, next);
    }
  }

  /** How many calls meet no rate limit. */
  function Unlimited(calls: seq<Call>): nat {
    if calls == [] then 0 else Unlimited(calls[1..]) + if calls[0].busy == {} then 1 else 0
  }

  /** A later cursor has no more pages ahead. */
  lemma {:induction false} AheadFalls(server: Server, e: nat, f: nat)
    requires e < f <= |server|
    ensures Ahead(server, f) + 1 + |Items(server, e)| <= Ahead(server, e)
    decreases f
  {
    if e + 1 < f { AheadFalls(server, e, f - 1); }
  }

  lemma LeftFalls(server: Server, e: nat, p: nat, f: nat, q: nat)
    requires e <= |server| && f <= |server| && p >= 1 && q >= 1
    requires e < f || (e == f && p <= q)
    ensures Left(server, f, q) <= Left(server, e, p)
  {
    if e < f { AheadFalls(server, e, f); }
  }

  lemma CursorLeftFalls(server: Server, a: Cursor, b: Cursor)
    requires ValidCursor(server, a) && ValidCursor(server, b) && NotAfter(a, b)
    ensures CursorLeft(server, b) <= CursorLeft(server, a)
  {
    if b.Resume? { LeftFalls(server, Endpoint0(a), Page0(a), b.endpoint, b.page); }
  }

  lemma SyncProgresses(server: Server, call: Call, cursor: Cursor)
    requires LastAnswers(server) && ValidCursor(server, cursor) && call.limit >= 100 && call.busy == {} &&
             !cursor.Finished?
    ensures ValidCursor(server, Sync(server, call, cursor).cursor)
    ensures CursorLeft(server, Sync(server, call, cursor).cursor) < CursorLeft(server, cursor)
  {
    if Remaining(call, cursor) >= 1 {
      GatherProgresses(server, Endpoint0(cursor), Page0(cursor), Remaining(call, cursor),
        Opening(Endpoint0(cursor), Page0(cursor)));
    }
  }

  /** A call that meets no rate limit moves the cursor strictly forward. */
  lemma CallAdvances(server: Server, call: Call, cursor: Cursor)
    requires LastAnswers(server) && ValidCursor(server, cursor) && call.limit >= 100 && call.busy == {} &&
             !cursor.Finished?
    ensures NotAfter(cursor, Sync(server, call, cursor).cursor) && Sync(server, call, cursor).cursor != cursor
  {
    SyncAccounts(server, call, cursor);
    SyncProgresses(server, call, cursor);
  }

  /** A chain finishes once enough of its calls meet no rate limit, whatever the others meet. */
  lemma {:induction false} EnoughCallsFinish(server: Server, cursor: Cursor, calls: seq<Call>)
    requires LastAnswers(server) && ValidCursor(server, cursor) && forall c :: c in calls ==> c.limit >= 100
    requires Unlimited(calls) >= CursorLeft(server, cursor)
    ensures EndCursor(server, cursor, calls).Finished?
    decreases calls
  {
    if calls != [] {
      var next := Sync(server, calls[0], cursor).cursor;
      SyncAccounts(server, calls[0], cursor);
      CursorLeftFalls(server, cursor, next);
      if !cursor.Finished? && calls[0].busy == {} { SyncProgresses(server, calls[0], cursor); }
      EnoughCallsFinish(server, next, calls[1..]);
    }
  }

  lemma {:induction false} NeverFinishes(server: Server, cursor: Cursor, calls: seq<Call>)
    requires !LastAnswers(server) && (forall c :: c in calls ==> c.limit >= 100)
    requires cursor.Start? || (cursor.Resume? && cursor.endpoint < |server| && cursor.page >= 1)
    ensures !EndCursor(server, cursor, calls).Finished?
    decreases calls
  {
    if calls != [] {
      SyncAccounts(server, calls[0], cursor);
      if Remaining(calls[0], cursor) >= 1 {
        GatherStaysBefore(server, calls[0].busy, Endpoint0(cursor), Page0(cursor), Remaining(calls[0], cursor),
          Opening(Endpoint0(cursor), Page0(cursor)));
      }
      NeverFinishes(server, Sync(server, calls[0], cursor).cursor, calls[1..]);
    }
  }

  /**
   * A chain with enough calls that meet no rate limit reaches the end exactly when the
   * last endpoint does not refuse: a refusal does not advance the cursor.
   */
  lemma ChainFinishesIff(server: Server, calls: seq<Call>)
    requires (forall c :: c in calls ==> c.limit >= 100) && Unlimited(calls) >= CursorLeft(server, Start)
    ensures EndCursor(server, Start, calls).Finished? <==> LastAnswers(server)
  {
    if LastAnswers(server) {
      EnoughCallsFinish(server, Start, calls);
    } else {
      NeverFinishes(server, Start, calls);
    }
  }
}
