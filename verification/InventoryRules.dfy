/**
 * What one call of the inventory answers, said of the endpoints and their
 * entries: which calls are refused, which entries a page yields, and what the
 * call says of endpoints that answer 403, 404 or 429.
 */
module InventoryRules {
  import opened Documents
  import opened ForgeInventory

  // ------------------------------------------------------------------ entries

  /** The place holds an entry of a supported endpoint that normalisation keeps. */
  predicate Entry(server: Server, at: Position) {
    && at.endpoint < |server| && server[at.endpoint].Supported?
    && at.index < |server[at.endpoint].items| && server[at.endpoint].items[at.index].listed
  }

  predicate Ahead(a: Position, b: Position) {
    a.endpoint < b.endpoint || (a.endpoint == b.endpoint && a.index < b.index)
  }

  predicate Sequential(objects: seq<Position>) {
    forall i, j :: 0 <= i < j < |objects| ==> Ahead(objects[i], objects[j])
  }

  lemma {:induction false} KeepIff(items: seq<Item>, endpoint: nat, from: nat, to: nat, at: Position)
    requires to <= |items|
    ensures at in Keep(items, endpoint, from, to) <==>
            at.endpoint == endpoint && from <= at.index < to && items[at.index].listed
  {
    if from < to { KeepIff(items, endpoint, from, to - 1, at); }
  }

  lemma {:induction false} KeepSequential(items: seq<Item>, endpoint: nat, from: nat, to: nat)
    requires to <= |items|
    ensures Sequential(Keep(items, endpoint, from, to))
  {
    if from < to {
      var rest := Keep(items, endpoint, from, to - 1);
      KeepSequential(items, endpoint, from, to - 1);
      forall i | 0 <= i < |rest| ensures Ahead(rest[i], At(endpoint, to - 1)) {
        assert rest[i] in rest;
        KeepIff(items, endpoint, from, to - 1, rest[i]);
      }
    }
  }

  lemma EntryAt(server: Server, k: nat, at: Position)
    requires k < |server|
    ensures at in Keep(Items(server, k), k, 0, |Items(server, k)|) <==> at.endpoint == k && Entry(server, at)
  {
    KeepIff(Items(server, k), k, 0, |Items(server, k)|, at);
  }

  lemma {:induction false} ListedIff(server: Server, endpoint: nat, at: Position)
    requires endpoint <= |server|
    ensures at in ListedBefore(server, endpoint) <==> at.endpoint < endpoint && Entry(server, at)
  {
    if endpoint > 0 {
      ListedIff(server, endpoint - 1, at);
      EntryAt(server, endpoint - 1, at);
    }
  }

  lemma {:induction false} ListedSequential(server: Server, endpoint: nat)
    requires endpoint <= |server|
    ensures Sequential(ListedBefore(server, endpoint))
  {
    if endpoint > 0 {
      var k := endpoint - 1;
      var before, last := ListedBefore(server, k), Keep(Items(server, k), k, 0, |Items(server, k)|);
      ListedSequential(server, k);
      KeepSequential(Items(server, k), k, 0, |Items(server, k)|);
      forall i, j | 0 <= i < |before| && 0 <= j < |last| ensures Ahead(before[i], last[j]) {
        assert before[i] in before && last[j] in last;
        ListedIff(server, k, before[i]);
        KeepIff(Items(server, k), k, 0, |Items(server, k)|, last[j]);
      }
    }
  }

  /** The listing is every entry of the server once, endpoint after endpoint. */
  lemma ListingIs(server: Server)
    ensures Sequential(Listing(server))
    ensures forall at :: at in Listing(server) <==> Entry(server, at)
  {
    ListedSequential(server, |server|);
    forall at ensures at in Listing(server) <==> Entry(server, at) { ListedIff(server, |server|, at); }
  }

  // -------------------------------------------------------------------- calls

  /** A call is refused exactly for a cursor outside the endpoints, a page below one, or a bad limit. */
  lemma CallRefusedIff(server: Server, busy: set<nat>, endpoint: int, page: int, limit: int)
    ensures Collect(server, busy, endpoint, page, limit) == Failure <==>
      !(0 <= endpoint <= |server|) || page <= 0 || !(0 < limit < 501)
  {
  }

  /** The page holds the places from one size to the next. */
  lemma PageIs(items: seq<Item>, endpoint: nat, page: nat, size: nat, at: Position)
    requires page >= 1
    ensures at in Keep(items, endpoint, PageStart(items, page, size), PageEnd(items, page, size)) <==>
      && at.endpoint == endpoint && at.index < |items| && items[at.index].listed
      && (page - 1) * size <= at.index < page * size
  {
    KeepIff(items, endpoint, PageStart(items, page, size), PageEnd(items, page, size), at);
  }

  /** The endpoint answers neither with a page nor with 429. */
  predicate Passes(server: Server, busy: set<nat>, k: nat) {
    k < |server| && server[k].Refused? && k !in busy
  }

  /**
   * Of the endpoints from the first on, the answer names those passed: all before
   * its cursor, and those after it when the call got to the end.
   */
  ghost predicate NamesPassed(server: Server, busy: set<nat>, first: nat, limit: nat, r: Inventory) {
    forall k: nat :: k in r.unsupported <==>
      && first <= k && Passes(server, busy, k)
      && (k < r.endpoint || (|r.objects| < limit && AllPass(server, busy, r.endpoint)))
  }

  predicate AllPass(server: Server, busy: set<nat>, from: nat) {
    forall k :: from <= k < |server| ==> Passes(server, busy, k)
  }

  /** The answer asks to retry exactly when the endpoint at its cursor answered 429. */
  predicate TellsRetry(server: Server, busy: set<nat>, limit: nat, r: Inventory) {
    r.retry <==> r.endpoint < |server| && r.endpoint in busy && |r.objects| < limit
  }

  /** What holds between rounds: passed endpoints lie from the first to the index, and nothing is due yet. */
  ghost predicate Between(server: Server, busy: set<nat>, first: nat, index: nat, acc: Inventory) {
    && first <= acc.endpoint <= index <= |server| && !acc.retry
    && (forall k :: acc.endpoint <= k < index ==> Passes(server, busy, k))
    && forall k: nat :: k in acc.unsupported <==> first <= k < index && Passes(server, busy, k)
  }

  lemma RoundStops(
    server: Server, busy: set<nat>, first: nat, index: nat, page: nat, limit: nat, acc: Inventory, r: Inventory)
    requires index < |server| && page >= 1 && |acc.objects| < limit && Between(server, busy, first, index, acc)
    requires OneRound(server, busy, index, page, limit, acc) == Stop(r)
    ensures NamesPassed(server, busy, first, limit, r) && TellsRetry(server, busy, limit, r)
  {
    assert !Passes(server, busy, index) && r.endpoint == index && r.unsupported == acc.unsupported;
  }

  lemma RoundContinues(
    server: Server, busy: set<nat>, first: nat, index: nat, page: nat, limit: nat, acc: Inventory, next: Inventory)
    requires index < |server| && page >= 1 && |acc.objects| < limit && Between(server, busy, first, index, acc)
    requires OneRound(server, busy, index, page, limit, acc) == Continue(next)
    ensures Between(server, busy, first, index + 1, next)
    ensures server[index].Refused? ==> next.objects == acc.objects && next.endpoint == acc.endpoint
    ensures server[index].Supported? ==> next.endpoint == index + 1
  {
  }

  /** The call ends between rounds: at the end of the endpoints, or because it holds enough. */
  lemma EndsBetween(server: Server, busy: set<nat>, first: nat, index: nat, limit: nat, acc: Inventory)
    requires Between(server, busy, first, index, acc) && (index == |server| || |acc.objects| >= limit)
    requires acc.endpoint < index ==> |acc.objects| < limit
    ensures NamesPassed(server, busy, first, limit, acc) && TellsRetry(server, busy, limit, acc)
  {
    if acc.endpoint < index { assert Passes(server, busy, acc.endpoint); }
  }

  lemma {:induction false} GatherTells(
    server: Server, busy: set<nat>, first: nat, index: nat, page: nat, limit: nat, acc: Inventory)
    requires page >= 1 && Between(server, busy, first, index, acc)
    requires acc.endpoint < index ==> |acc.objects| < limit
    ensures var r := Gather(server, busy, index, page, limit, acc);
      NamesPassed(server, busy, first, limit, r) && TellsRetry(server, busy, limit, r)
    decreases |server| - index
  {
    if index == |server| || |acc.objects| >= limit {
      EndsBetween(server, busy, first, index, limit, acc);
    } else {
      match OneRound(server, busy, index, page, limit, acc)
      case Stop(r) => RoundStops(server, busy, first, index, page, limit, acc, r);
      case Continue(next) =>
        RoundContinues(server, busy, first, index, page, limit, acc, next);
        GatherTells(server, busy, first, index + 1, 1, limit, next);
    }
  }

  /** What an answer says of the endpoints that gave no page, and whether it is the last. */
  lemma AnswerTells(server: Server, busy: set<nat>, endpoint: int, page: int, limit: int)
    requires Collect(server, busy, endpoint, page, limit).Success?
    ensures var r := Collect(server, busy, endpoint, page, limit).value;
      && NamesPassed(server, busy, endpoint, limit, r) && TellsRetry(server, busy, limit, r)
      && (r.done <==> r.endpoint == |server|)
  {
    GatherTells(server, busy, endpoint, endpoint, page, limit, Opening(endpoint, page));
    GatherDone(server, busy, endpoint, page, limit, Opening(endpoint, page));
  }

  lemma {:induction false} GatherDone(
    server: Server, busy: set<nat>, index: nat, page: nat, limit: nat, acc: Inventory)
    requires index <= |server| && page >= 1 && acc.endpoint <= index && !acc.done
    ensures var r := Gather(server, busy, index, page, limit, acc);
      r.endpoint <= |server| && (r.done <==> r.endpoint == |server|)
    decreases |server| - index
  {
    if index < |server| && |acc.objects| < limit {
      match OneRound(server, busy, index, page, limit, acc)
      case Stop(r) =>
      case Continue(next) => GatherDone(server, busy, index + 1, 1, limit, next);
    }
  }

  // -------------------------------------------------------- the page at the cursor

  /** What a call returns of the endpoint at its cursor: the asked page, of a hundred entries or of the limit. */
  lemma {:induction false} FirstPage(server: Server, busy: set<nat>, endpoint: nat, page: nat, limit: nat, at: Position)
    requires endpoint < |server| && page >= 1 && 1 <= limit <= 500 && at.endpoint == endpoint
    ensures var size := if limit < 100 then limit else 100;
      at in Collect(server, busy, endpoint, page, limit).value.objects <==>
      Entry(server, at) && endpoint !in busy && (page - 1) * size <= at.index < page * size
  {
    var acc := Opening(endpoint, page);
    if endpoint !in busy && server[endpoint].Supported? {
      PageIs(server[endpoint].items, endpoint, page, PageSize(limit, 0), at);
      assert acc.objects == [];
    }
    match OneRound(server, busy, endpoint, page, limit, acc)
    case Stop(r) =>
    case Continue(next) => LaterRounds(server, busy, endpoint + 1, 1, limit, next, at);
  }

  lemma {:induction false} LaterRounds(
    server: Server, busy: set<nat>, index: nat, page: nat, limit: nat, acc: Inventory, at: Position)
    requires index <= |server| && page >= 1 && at.endpoint < index
    ensures at in Gather(server, busy, index, page, limit, acc).objects <==> at in acc.objects
    decreases |server| - index
  {
    if index < |server| && |acc.objects| < limit {
      if server[index].Supported? { PageIs(server[index].items, index, page, PageSize(limit, |acc.objects|), at); }
      match OneRound(server, busy, index, page, limit, acc)
      case Stop(r) =>
      case Continue(next) => LaterRounds(server, busy, index + 1, 1, limit, next, at);
    }
  }

  // --------------------------------------------------------- synchronisations

  /** What the Git objects, which only a first call lists, leave of the limit. */
  function Room(call: Call, cursor: Cursor): nat {
    if cursor == Start && call.gitObjects < call.limit then call.limit - call.gitObjects
    else if cursor == Start then 0
    else call.limit
  }

  /** A call that the Git objects fill asks nothing, and the next one begins with the endpoints. */
  lemma FullCallWaits(server: Server, call: Call, cursor: Cursor)
    requires ValidCursor(server, cursor) && cursor != Finished && Room(call, cursor) == 0
    ensures Sync(server, call, cursor) ==
            SyncPage([], if cursor == Start then Resume(0, 1) else Resume(cursor.endpoint, cursor.page))
  {
  }

  /** Any other call returns what is collected at its cursor, and finishes when that got past the last endpoint. */
  lemma SyncCollects(server: Server, call: Call, cursor: Cursor)
    requires ValidCursor(server, cursor) && cursor != Finished && Room(call, cursor) > 0 && call.limit <= 500
    ensures var (endpoint, page) := if cursor == Start then (0, 1) else (cursor.endpoint, cursor.page);
      var collected := Collect(server, call.busy, endpoint, page, Room(call, cursor));
      && collected.Success?
      && Sync(server, call, cursor).objects == collected.value.objects
      && (Sync(server, call, cursor).cursor == Finished <==> collected.value.endpoint == |server|)
      && (collected.value.endpoint != |server| ==>
            Sync(server, call, cursor).cursor == Resume(collected.value.endpoint, collected.value.page))
  {
    var (endpoint, page) := if cursor == Start then (0, 1) else (cursor.endpoint, cursor.page);
    AnswerTells(server, call.busy, endpoint, page, Room(call, cursor));
  }
}
