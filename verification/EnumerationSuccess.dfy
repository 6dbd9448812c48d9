/** Listings that succeed (src/client.rs): from the begin cursor to the end cursor, with any limits, and
    how many calls it takes to return every object. */
module EnumerationSuccess {
  import opened Wrappers
  import opened HObject
  import opened Enumeration

  /** `begin_object_cursor`. */
  const BEGIN := HObject([], [], 0, 0, false, [], I64_MIN)

  /** The objects of a pool that this view may list, in ascending position. */
  ghost predicate Offered(s: Scope, objects: seq<ListEntry>) {
    s.poolId != I64_MIN && Catalogue(s, objects) && forall i :: 0 <= i < |objects| ==> Listable(s, objects[i])
  }

  /** A position that can be handed back as a cursor. */
  predicate Fits(h: HObject) {
    h.max || EncodedSize(h) <= 1024
  }

  /** Where a page may leave off: at the end, or at a cursor of the pool beyond where it started. */
  predicate LeavesOff(s: Scope, start: HObject, next: HObject) {
    next.max || (next.pool == s.poolId && next.snapshot == NO_SNAP && Lt(start, next) && Fits(next))
  }

  /** Answers every request, with exactly the objects up to where its page leaves off. */
  ghost predicate Answering(s: Scope, objects: seq<ListEntry>, serve: Server) {
    forall t, cursor, n ::
      && serve(t, cursor, n).Ok?
      && LeavesOff(s, cursor, serve(t, cursor, n).value.next)
      && serve(t, cursor, n).value.entries == Range(s, objects, cursor, serve(t, cursor, n).value.next)
  }

  /** Every honest page is accepted. */
  lemma HonestPageOk(s: Scope, objects: seq<ListEntry>, start: HObject, page: Page)
    requires Offered(s, objects) && LeavesOff(s, start, page.next)
    requires page.entries == Range(s, objects, start, page.next)
    ensures PageOk(s, start, page)
  {
    hide Compare, Rank, CursorOf;
    var lo := Rank(s, objects, start);
    forall i | 0 <= i < |page.entries| ensures NamespaceOk(s, page.entries[i]) && EntryOk(s, start, page, i) {
      assert page.entries[i] == objects[lo + i] && Listable(s, objects[lo + i]);
      RankIs(s, objects, page.next);
      if i == 0 {
        RankIs(s, objects, start);
        OrderLaws(start, CursorOf(s, objects[lo]), start);
      } else {
        assert page.entries[i - 1] == objects[lo + i - 1];
      }
    }
  }

  /** An honest server never makes a listing fail: it ends, or the rounds run out. */
  lemma {:induction false} ListingSucceeds(s: Scope, objects: seq<ListEntry>, finish: HObject, limit: nat,
                                           serve: Server, t: nat, fuel: nat, next: HObject, values: seq<ListEntry>)
    requires Offered(s, objects) && Answering(s, objects, serve) && Fits(finish) && Fits(next) && t <= fuel
    ensures var r := Listing(s, finish, limit, serve, t, fuel, next, values);
            if r.Ok? then Fits(r.value.1) else r == Err(Unreachable)
    decreases fuel - t
  {
    hide Compare, Rank, PageOk, Trimmed, Range;
    if |values| >= limit || !Lt(next, finish) || t == fuel {
    } else {
      var page := serve(t, next, limit - |values|).value;
      HonestPageOk(s, objects, next, page);
      var (resume, count) := Clipped(s, page, finish, limit - |values|);
      ResumeFits(s, objects, next, page, finish, limit - |values|);
      ListingSucceeds(s, objects, finish, limit, serve, t + 1, fuel, resume, values + page.entries[..count]);
    }
  }

  lemma ResumeFits(s: Scope, objects: seq<ListEntry>, start: HObject, page: Page, finish: HObject, available: nat)
    requires Offered(s, objects) && LeavesOff(s, start, page.next) && Fits(finish)
    requires page.entries == Range(s, objects, start, page.next)
    ensures Fits(Clipped(s, page, finish, available).0)
  {
    hide Compare, Rank, Trimmed, CursorOf, Catalogue;
    var lo := Rank(s, objects, start);
    forall i | 0 <= i < |page.entries| ensures Fits(CursorOf(s, page.entries[i])) {
      assert page.entries[i] == objects[lo + i] && Listable(s, objects[lo + i]);
    }
  }

  /** Resumed listings of honest servers, from any cursor to any later one, fail only when the rounds of
      some call run out. */
  lemma {:induction false} ResumedSucceeds(s: Scope, objects: seq<ListEntry>, after: HObject, finish: HObject,
                                           calls: seq<Call>)
    requires Offered(s, objects) && Fits(after) && Fits(finish)
    requires PositionOk(s, after) && PositionOk(s, finish) && Le(after, finish)
    requires forall i :: 0 <= i < |calls| ==>
               0 < calls[i].limit <= 2_796_202 && Answering(s, objects, calls[i].serve)
    ensures var r := Resumed(s, after, finish, calls); r.Ok? || r == Err(Unreachable)
    decreases |calls|
  {
    hide Compare, Offered, Answering, PositionOk, Listing, InOrder;
    if calls == [] {
    } else {
      var call := calls[0];
      ListingSucceeds(s, objects, finish, call.limit, call.serve, 0, call.fuel, after, []);
      var page := Listed(s, after, finish, call.limit, call.serve, call.fuel);
      if page.Ok? {
        ListedInOrder(s, after, finish, call.limit, call.serve, call.fuel);
        NextIsCursor(s, after, finish, page.value);
        ResumedSucceeds(s, objects, page.value.next, finish, calls[1..]);
      }
    }
  }

  lemma NextIsCursor(s: Scope, after: HObject, finish: HObject, page: ObjectPage)
    requires InOrder(s, after, finish, page.values, page.next)
    ensures PositionOk(s, page.next) && Le(page.next, finish)
  {
  }

  /** What one call returns when the server sends everything: the next `limit` objects and the position of
      the one after them, or all that are left and the end. */
  lemma WholeListed(s: Scope, objects: seq<ListEntry>, at: HObject, limit: nat, fuel: nat)
    requires Offered(s, objects) && PositionOk(s, at) && !at.max && 0 < limit <= MAX_ENTRIES && fuel > 0
    ensures var j := Rank(s, objects, at);
            Listed(s, at, TOP, limit, Whole(s, objects), fuel) ==
            Ok(if j + limit < |objects| then ObjectPage(objects[j..j + limit], CursorOf(s, objects[j + limit]), true)
               else ObjectPage(objects[j..], TOP, false))
  {
    hide Compare, Rank, PageOk, CursorOf, Listing, Clipped, Range, Listable;
    OrderLaws(TOP, at, at);
    OrderLaws(at, TOP, TOP);
    OrderLaws(TOP, TOP, TOP);
    var j, page := Rank(s, objects, at), Page(TOP, Range(s, objects, at, TOP));
    HonestPageOk(s, objects, at, page);
    WholeClipped(s, objects, at, limit);
    OneRound(s, TOP, limit, Whole(s, objects), fuel, at, page);
    if j + limit < |objects| {
      assert Listable(s, objects[j + limit]);
      BelowTop(s, objects[j + limit]);
      ListableFits(s, objects[j + limit]);
    }
  }

  lemma ListableFits(s: Scope, e: ListEntry)
    requires Listable(s, e)
    ensures EncodedSize(CursorOf(s, e)) <= CURSOR_MAX_BYTES
  {
  }

  lemma WholeClipped(s: Scope, objects: seq<ListEntry>, at: HObject, limit: nat)
    requires Catalogue(s, objects)
    ensures var j, page := Rank(s, objects, at), Page(TOP, Range(s, objects, at, TOP));
            var (resume, count) := Clipped(s, page, TOP, limit);
            if j + limit < |objects|
            then
              && resume == CursorOf(s, objects[j + limit]) && count == limit
              && page.entries[..count] == objects[j..j + limit]
            else resume == TOP && page.entries[..count] == objects[j..]
  {
    hide Compare, Rank, CursorOf;
    OrderLaws(TOP, TOP, TOP);
    AllBelowTop(s, objects);
  }

  /** A listing that the first page fills or ends. */
  lemma OneRound(s: Scope, finish: HObject, limit: nat, serve: Server, fuel: nat, at: HObject, page: Page)
    requires Lt(at, finish) && limit > 0 && fuel > 0 && serve(0, at, limit) == Ok(page) && PageOk(s, at, page)
    requires var (resume, count) := Clipped(s, page, finish, limit); count >= limit || !Lt(resume, finish)
    ensures var (resume, count) := Clipped(s, page, finish, limit);
            Listing(s, finish, limit, serve, 0, fuel, at, []) == Ok((page.entries[..count], resume))
  {
    hide Compare, PageOk, Clipped, Lt;
    var (resume, count) := Clipped(s, page, finish, limit);
    assert [] + page.entries[..count] == page.entries[..count];
    assert Listing(s, finish, limit, serve, 1, fuel, resume, page.entries[..count])
        == Ok((page.entries[..count], resume));
  }

  lemma BelowTop(s: Scope, e: ListEntry)
    ensures Lt(CursorOf(s, e), TOP) && !CursorOf(s, e).max && PositionOk(s, CursorOf(s, e))
  {
    hide Compare;
    OrderLaws(TOP, CursorOf(s, e), TOP);
  }

  lemma AllBelowTop(s: Scope, objects: seq<ListEntry>)
    requires Catalogue(s, objects)
    ensures Rank(s, objects, TOP) == |objects|
  {
    hide Compare, CursorOf, Rank;
    RankIs(s, objects, TOP);
    if Rank(s, objects, TOP) < |objects| {
      BelowTop(s, objects[Rank(s, objects, TOP)]);
    }
  }

  /** The calls of one listing: any limits that the request allows, a server that sends everything, at least
      one round each. */
  ghost predicate WholeCalls(s: Scope, objects: seq<ListEntry>, calls: seq<Call>) {
    forall i :: 0 <= i < |calls| ==>
      0 < calls[i].limit <= 2_796_202 && calls[i].serve == Whole(s, objects) && calls[i].fuel > 0
  }

  lemma EndListed(s: Scope, call: Call)
    requires 0 < call.limit <= MAX_ENTRIES
    ensures Listed(s, TOP, TOP, call.limit, call.serve, call.fuel) == Ok(ObjectPage([], TOP, false))
  {
    hide Compare;
    OrderLaws(TOP, TOP, TOP);
  }

  /** At the end nothing more is listed. */
  lemma {:induction false} EndStays(s: Scope, objects: seq<ListEntry>, calls: seq<Call>)
    requires WholeCalls(s, objects, calls)
    ensures Resumed(s, TOP, TOP, calls) == Ok(ObjectPage([], TOP, false))
    decreases |calls|
  {
    hide Compare, Whole, Listed;
    OrderLaws(TOP, TOP, TOP);
    if calls == [] {
    } else {
      EndListed(s, calls[0]);
      EndStays(s, objects, calls[1..]);
      var none: seq<ListEntry> := [];
      assert none + none == none;
    }
  }

  /** Listings from the begin cursor to the end succeed, whatever their number and limits. */
  lemma {:induction false} WholeResumes(s: Scope, objects: seq<ListEntry>, at: HObject, calls: seq<Call>)
    requires Offered(s, objects) && WholeCalls(s, objects, calls) && PositionOk(s, at) && !at.max
    ensures Resumed(s, at, TOP, calls).Ok?
    decreases |calls|
  {
    hide Compare, Offered, PositionOk, Listed, Whole, CursorOf;
    if calls == [] {
    } else {
      var j, limit := Rank(s, objects, at), calls[0].limit;
      WholeListed(s, objects, at, limit, calls[0].fuel);
      if j + limit < |objects| {
        BelowTop(s, objects[j + limit]);
        WholeResumes(s, objects, CursorOf(s, objects[j + limit]), calls[1..]);
      } else {
        EndStays(s, objects, calls[1..]);
      }
    }
  }

  /** Where no two objects compare equal, as many calls as objects are left return them all and report
      the end. */
  lemma {:induction false} WholeCompletes(s: Scope, objects: seq<ListEntry>, at: HObject, calls: seq<Call>)
    requires Offered(s, objects) && WholeCalls(s, objects, calls) && PositionOk(s, at) && !at.max
    requires Untied(s, objects) && calls != [] && Rank(s, objects, at) + |calls| >= |objects|
    ensures Resumed(s, at, TOP, calls) == Ok(ObjectPage(objects[Rank(s, objects, at)..], TOP, false))
    decreases |calls|
  {
    hide Compare, Offered, PositionOk, Listed, Whole, CursorOf, Rank, Untied;
    var j, limit := Rank(s, objects, at), calls[0].limit;
    WholeListed(s, objects, at, limit, calls[0].fuel);
    if j + limit < |objects| {
      var next := CursorOf(s, objects[j + limit]);
      BelowTop(s, objects[j + limit]);
      RankOfObject(s, objects, j + limit);
      WholeCompletes(s, objects, next, calls[1..]);
      assert objects[j..j + limit] + objects[j + limit..] == objects[j..];
    } else {
      EndStays(s, objects, calls[1..]);
      assert objects[j..] + [] == objects[j..];
    }
  }

  lemma RankOfObject(s: Scope, objects: seq<ListEntry>, k: nat)
    requires Offered(s, objects) && Untied(s, objects) && k < |objects|
    ensures Rank(s, objects, CursorOf(s, objects[k])) == k
  {
    hide Compare, Rank, CursorOf;
    var at := CursorOf(s, objects[k]);
    OrderLaws(at, at, at);
    RankUnique(s, objects, at, k);
  }

  /** Every object of the pool lies beyond the begin cursor. */
  lemma BeginIsFirst(s: Scope, objects: seq<ListEntry>)
    requires s.poolId != I64_MIN
    ensures PositionOk(s, BEGIN) && Fits(BEGIN) && Lt(BEGIN, TOP) && Rank(s, objects, BEGIN) == 0
  {
    hide CompareBytes, ReverseBits;
  }

  /** A pool listed from the begin cursor to the end: every call succeeds, and where no two objects compare
      equal, one call for each object and one at least return exactly the pool, in order. */
  lemma PoolListed(s: Scope, objects: seq<ListEntry>, calls: seq<Call>)
    requires Offered(s, objects) && WholeCalls(s, objects, calls)
    ensures Resumed(s, BEGIN, TOP, calls).Ok?
    ensures Untied(s, objects) && |calls| >= |objects| && calls != [] ==>
              Resumed(s, BEGIN, TOP, calls) == Ok(ObjectPage(objects, TOP, false))
  {
    hide Compare, Resumed, Untied, WholeCalls, Catalogue, Listable;
    BeginIsFirst(s, objects);
    WholeResumes(s, objects, BEGIN, calls);
    if Untied(s, objects) && |calls| >= |objects| && calls != [] {
      WholeCompletes(s, objects, BEGIN, calls);
      assert objects[0..] == objects;
    }
  }
}
