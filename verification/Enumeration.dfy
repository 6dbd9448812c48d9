/** Paged object listing over a half-open cursor interval (src/client.rs). */
module Enumeration {
  import opened Wrappers
  import opened HObject

  const MAX_ENTRIES: nat := (32 * 0x10_0000) / 12
  const CURSOR_MAX_BYTES: nat := 1024
  const ALL_NAMESPACES: Bytes := [1]

  datatype ListEntry = ListEntry(namespace: Bytes, name: Bytes, locator: Bytes)

  datatype Page = Page(next: HObject, entries: seq<ListEntry>)

  datatype Error = Invalid | NotConnected | Unreachable

  /** A pool view and the hash that places its objects by key and namespace. */
  datatype Scope = Scope(poolId: I64, namespace: Bytes, hashOf: (Bytes, Bytes) -> U32)

  /** What the cluster answers in each round to a cursor and the number of entries still wanted. */
  type Server = (nat, HObject, nat) -> Result<Page, Error>

  /** What `object_hash` hashes: the locator, or the name where there is none. */
  function KeyOf(e: ListEntry): (key: Bytes) {
    if e.locator == [] then e.name else e.locator
  }

  function CursorOf(s: Scope, e: ListEntry): (h: HObject) {
    HObject(e.locator, e.name, NO_SNAP, s.hashOf(KeyOf(e), e.namespace), false, e.namespace, s.poolId)
  }

  /** The position of an object: inside the pool, at the hash of its locator, or of its name where it has
      none, under that locator and name. */
  lemma ObjectPosition(s: Scope, namespace: Bytes, name: Bytes, locator: Bytes)
    ensures var h := CursorOf(s, ListEntry(namespace, name, locator));
            && h.pool == s.poolId && !h.max && h.snapshot == 0xffff_ffff_ffff_fffe
            && h.key == locator && h.name == name && h.namespace == namespace
            && h.hash == s.hashOf(if |locator| > 0 then locator else name, namespace)
  {
  }

  predicate NamespaceOk(s: Scope, e: ListEntry) {
    s.namespace == ALL_NAMESPACES || e.namespace == s.namespace
  }

  // --- one page

  /** Entry `i` is not before the one it follows and lies before `next`. */
  predicate EntryOk(s: Scope, start: HObject, page: Page, i: nat)
    requires i < |page.entries|
  {
    && Le(if i == 0 then start else CursorOf(s, page.entries[i - 1]), CursorOf(s, page.entries[i]))
    && (page.next.max || Lt(CursorOf(s, page.entries[i]), page.next))
  }

  /** Entries in order from `start` on and before `next`, which lies beyond `start`. */
  predicate PageOk(s: Scope, start: HObject, page: Page) {
    && (forall i :: 0 <= i < |page.entries| ==> NamespaceOk(s, page.entries[i]))
    && (page.next.max
      || (page.next.pool == s.poolId != I64_MIN && page.next.snapshot == NO_SNAP && Lt(start, page.next)))
    && (forall i :: 0 <= i < |page.entries| ==> EntryOk(s, start, page, i))
  }

  /** `validate_enumeration_page`, after the namespace of every entry has been checked. */
  method ValidatePage(s: Scope, start: HObject, page: Page) returns (ok: bool)
    ensures ok == PageOk(s, start, page)
  {
    hide Compare;
    for i := 0 to |page.entries|
      invariant forall j :: 0 <= j < i ==> NamespaceOk(s, page.entries[j])
    {
      if s.namespace != ALL_NAMESPACES && page.entries[i].namespace != s.namespace {
        return false;
      }
    }
    var next := page.next;
    if !next.max && (next.pool == I64_MIN || next.snapshot != NO_SNAP || next.pool != s.poolId) {
      return false;
    }
    var previous := start;
    for i := 0 to |page.entries|
      invariant previous == if i == 0 then start else CursorOf(s, page.entries[i - 1])
      invariant forall j :: 0 <= j < i ==> EntryOk(s, start, page, j)
    {
      var entry := CursorOf(s, page.entries[i]);
      OrderLaws(previous, entry, entry);
      if Compare(entry, previous) == Less || (!next.max && Compare(entry, next) != Less) {
        assert !EntryOk(s, start, page, i);
        return false;
      }
      previous := entry;
    }
    CompareLaws(start, next, next);
    if !next.max && Compare(next, start) != Greater {
      return false;
    }
    return true;
  }

  /** The number of leading entries that remain when those not before `finish` are dropped from the end. */
  function Trimmed(s: Scope, entries: seq<ListEntry>, finish: HObject): (n: nat)
    ensures n <= |entries|
  {
    if entries == [] || Lt(CursorOf(s, entries[|entries| - 1]), finish) then |entries|
    else Trimmed(s, entries[..|entries| - 1], finish)
  }

  /** Where the listing resumes and how many entries of the page it keeps. */
  function Clipped(s: Scope, page: Page, finish: HObject, available: nat): (c: (HObject, nat))
    ensures c.1 <= |page.entries| && c.1 <= available
  {
    var kept := if Lt(finish, page.next) then Trimmed(s, page.entries, finish) else |page.entries|;
    if kept > available then (CursorOf(s, page.entries[available]), available)
    else (if Lt(finish, page.next) then finish else page.next, kept)
  }

  /** `clip_enumeration_page`. */
  method ClipPage(s: Scope, page: Page, finish: HObject, available: nat) returns (next: HObject, count: nat)
    ensures (next, count) == Clipped(s, page, finish, available)
  {
    hide Compare;
    next, count := page.next, |page.entries|;
    CompareLaws(finish, page.next, page.next);
    assert page.entries[..|page.entries|] == page.entries;
    if Compare(next, finish) == Greater {
      next := finish;
      while count > 0 && Compare(CursorOf(s, page.entries[count - 1]), finish) != Less
        invariant count <= |page.entries|
        invariant Trimmed(s, page.entries[..count], finish) == Trimmed(s, page.entries, finish)
      {
        assert page.entries[..count][..count - 1] == page.entries[..count - 1];
        count := count - 1;
      }
    }
    if count > available {
      next := CursorOf(s, page.entries[available]);
      count := available;
    }
  }

  // --- the listing loop

  /** A position a cursor may hold: the start of everything, or one inside the pool. */
  predicate PositionOk(s: Scope, h: HObject) {
    || h.max
    || (h.pool == s.poolId && h.snapshot == NO_SNAP)
    || (h.snapshot == 0 && h.hash == 0 && h.pool == I64_MIN)
  }

  function EncodedSize(h: HObject): (n: nat) {
    39 + |h.key| + |h.name| + |h.namespace|
  }

  /** The position reached and the entries collected, from `next` on, in rounds `t` to `fuel`. */
  function Listing(s: Scope, finish: HObject, limit: nat, serve: Server, t: nat, fuel: nat, next: HObject,
                   values: seq<ListEntry>)
    : (r: Result<(seq<ListEntry>, HObject), Error>)
    requires t <= fuel
    decreases fuel - t
  {
    if |values| >= limit || !Lt(next, finish) then Ok((values, next))
    else if t == fuel then Err(Unreachable)
    else
      match serve(t, next, limit - |values|)
      case Err(e) => Err(e)
      case Ok(page) =>
        if !PageOk(s, next, page) then Err(NotConnected)
        else
          var (resume, count) := Clipped(s, page, finish, limit - |values|);
          Listing(s, finish, limit, serve, t + 1, fuel, resume, values + page.entries[..count])
  }

  datatype ObjectPage = ObjectPage(values: seq<ListEntry>, next: HObject, more: bool)

  predicate RequestOk(s: Scope, after: HObject, finish: HObject, limit: nat) {
    0 < limit <= MAX_ENTRIES && PositionOk(s, after) && PositionOk(s, finish) && Le(after, finish)
  }

  function Listed(s: Scope, after: HObject, finish: HObject, limit: nat, serve: Server,
                  fuel: nat): (r: Result<ObjectPage, Error>) {
    if !RequestOk(s, after, finish, limit) then Err(Invalid)
    else
      match Listing(s, finish, limit, serve, 0, fuel, after, [])
      case Err(e) => Err(e)
      case Ok((values, next)) =>
        if !next.max && EncodedSize(next) > CURSOR_MAX_BYTES then Err(Invalid)
        else Ok(ObjectPage(values, next, Lt(next, finish)))
  }

  /** `cursor_hobject`, with the end cursor as the maximum. */
  method CheckCursor(s: Scope, h: HObject) returns (ok: bool)
    ensures ok == PositionOk(s, h)
  {
    if h.max {
      return true;
    }
    var minimum := h.snapshot == 0 && h.hash == 0 && h.pool == I64_MIN;
    if !minimum && (h.pool != s.poolId || h.snapshot != NO_SNAP) {
      return false;
    }
    return true;
  }

  /** `list_objects_range`. */
  method ListObjectsRange(s: Scope, after: HObject, finish: HObject, limit: nat, serve: Server, fuel: nat)
    returns (r: Result<ObjectPage, Error>)
    ensures r == Listed(s, after, finish, limit, serve, fuel)
  {
    hide Compare, PageOk, Clipped;
    var afterOk := CheckCursor(s, after);
    var finishOk := CheckCursor(s, finish);
    if limit == 0 || limit > MAX_ENTRIES || !afterOk || !finishOk || Compare(after, finish) == Greater {
      return Err(Invalid);
    }
    var next := after;
    var values: seq<ListEntry> := [];
    var t := 0;
    while |values| < limit && Compare(next, finish) == Less
      invariant t <= fuel
      invariant Listing(s, finish, limit, serve, t, fuel, next, values)
          == Listing(s, finish, limit, serve, 0, fuel, after, [])
      decreases fuel - t
    {
      if t == fuel {
        return Err(Unreachable);
      }
      var page := serve(t, next, limit - |values|);
      if page.Err? {
        return Err(page.error);
      }
      var ok := ValidatePage(s, next, page.value);
      if !ok {
        return Err(NotConnected);
      }
      var pageNext, count := ClipPage(s, page.value, finish, limit - |values|);
      values := values + page.value.entries[..count];
      next := pageNext;
      t := t + 1;
    }
    if !next.max && EncodedSize(next) > CURSOR_MAX_BYTES {
      return Err(Invalid);
    }
    return Ok(ObjectPage(values, next, Compare(next, finish) == Less));
  }

  // --- what any server can make it return

  /** Entries in order, inside the interval and not beyond the position reached. */
  ghost predicate InOrder(s: Scope, after: HObject, finish: HObject, values: seq<ListEntry>, next: HObject) {
    && Le(after, next) && Le(next, finish) && PositionOk(s, next)
    && (forall i :: 0 <= i < |values| ==>
          Le(after, CursorOf(s, values[i])) && Lt(CursorOf(s, values[i]), finish) && Le(CursorOf(s, values[i]), next))
    && (forall i, j :: 0 <= i < j < |values| ==> Le(CursorOf(s, values[i]), CursorOf(s, values[j])))
  }

  lemma {:induction false} PageSorted(s: Scope, start: HObject, page: Page, i: nat, j: nat)
    requires PageOk(s, start, page) && i <= j < |page.entries|
    ensures Le(start, CursorOf(s, page.entries[i])) && Le(CursorOf(s, page.entries[i]), CursorOf(s, page.entries[j]))
    decreases j
  {
    hide Compare;
    var at := CursorOf(s, page.entries[j]);
    assert EntryOk(s, start, page, j);
    OrderLaws(at, at, at);
    if j == 0 {
    } else {
      var before := CursorOf(s, page.entries[j - 1]);
      PageSorted(s, start, page, if i < j then i else j - 1, j - 1);
      OrderLaws(start, before, at);
      OrderLaws(CursorOf(s, page.entries[i]), before, at);
    }
  }

  lemma {:induction false} TrimmedLast(s: Scope, entries: seq<ListEntry>, finish: HObject)
    ensures var n := Trimmed(s, entries, finish);
            && (n > 0 ==> Lt(CursorOf(s, entries[n - 1]), finish))
            && (n < |entries| ==> !Lt(CursorOf(s, entries[n]), finish))
  {
    hide Compare, CursorOf;
    if entries == [] || Lt(CursorOf(s, entries[|entries| - 1]), finish) {
    } else {
      TrimmedLast(s, entries[..|entries| - 1], finish);
    }
  }

  /** The entries of an admitted page that lie before `finish`. */
  lemma KeptBeforeFinish(s: Scope, start: HObject, page: Page, finish: HObject, i: nat)
    requires PageOk(s, start, page) && i < |page.entries|
    requires Lt(finish, page.next) ==> i < Trimmed(s, page.entries, finish)
    ensures Lt(CursorOf(s, page.entries[i]), finish)
  {
    hide Compare, PageOk, Trimmed;
    var at := CursorOf(s, page.entries[i]);
    if Lt(finish, page.next) {
      var n := Trimmed(s, page.entries, finish);
      TrimmedLast(s, page.entries, finish);
      PageSorted(s, start, page, i, n - 1);
      OrderLaws(at, CursorOf(s, page.entries[n - 1]), finish);
    } else {
      OrderLaws(finish, at, at);
      OrderLaws(page.next, finish, finish);
      OrderLaws(at, page.next, finish);
      assert page.next.max || Lt(at, page.next) by { EntryBeforeNext(s, start, page, i); }
    }
  }

  lemma EntryBeforeNext(s: Scope, start: HObject, page: Page, i: nat)
    requires PageOk(s, start, page) && i < |page.entries|
    ensures page.next.max || Lt(CursorOf(s, page.entries[i]), page.next)
    ensures Lt(CursorOf(s, page.entries[i]), page.next)
  {
    hide Compare;
    assert EntryOk(s, start, page, i);
    OrderLaws(page.next, CursorOf(s, page.entries[i]), start);
  }

  lemma ClipInOrder(s: Scope, start: HObject, page: Page, finish: HObject, available: nat)
    requires PageOk(s, start, page) && Lt(start, finish) && PositionOk(s, finish) && available > 0
    ensures var (resume, count) := Clipped(s, page, finish, available);
            InOrder(s, start, finish, page.entries[..count], resume)
  {
    hide Compare, Trimmed;
    var (resume, count) := Clipped(s, page, finish, available);
    forall i | 0 <= i < count
      ensures Le(start, CursorOf(s, page.entries[i])) && Lt(CursorOf(s, page.entries[i]), finish)
          && Le(CursorOf(s, page.entries[i]), resume)
    {
      hide PageOk;
      var at := CursorOf(s, page.entries[i]);
      PageSorted(s, start, page, i, i);
      KeptBeforeFinish(s, start, page, finish, i);
      OrderLaws(at, finish, finish);
      OrderLaws(finish, at, at);
      EntryBeforeNext(s, start, page, i);
      OrderLaws(at, page.next, page.next);
      OrderLaws(page.next, at, at);
      if |page.entries| > available {
        PageSorted(s, start, page, i, available);
      }
    }
    forall i, j | 0 <= i < j < count ensures Le(CursorOf(s, page.entries[i]), CursorOf(s, page.entries[j])) {
      PageSorted(s, start, page, i, j);
    }
    assert Le(start, resume) && Le(resume, finish) && PositionOk(s, resume) by {
      ResumeInside(s, start, page, finish, available);
    }
  }

  lemma ResumeInside(s: Scope, start: HObject, page: Page, finish: HObject, available: nat)
    requires PageOk(s, start, page) && Lt(start, finish) && PositionOk(s, finish) && available > 0
    ensures var resume := Clipped(s, page, finish, available).0;
            Le(start, resume) && Le(resume, finish) && PositionOk(s, resume)
  {
    hide Compare, Trimmed;
    var kept := if Lt(finish, page.next) then Trimmed(s, page.entries, finish) else |page.entries|;
    var resume := Clipped(s, page, finish, available).0;
    OrderLaws(finish, start, start);
    OrderLaws(start, finish, finish);
    OrderLaws(page.next, finish, finish);
    OrderLaws(page.next, start, start);
    OrderLaws(start, page.next, page.next);
    OrderLaws(resume, finish, finish);
    if kept > available {
      KeptBeforeFinish(s, start, page, finish, available);
      PageSorted(s, start, page, available, available);
      OrderLaws(finish, resume, resume);
    }
  }

  lemma InOrderAppend(s: Scope, after: HObject, finish: HObject, values: seq<ListEntry>, next: HObject,
                      more: seq<ListEntry>, resume: HObject)
    requires InOrder(s, after, finish, values, next) && InOrder(s, next, finish, more, resume)
    ensures InOrder(s, after, finish, values + more, resume)
  {
    hide Compare, Le, Lt, PositionOk, CursorOf;
    OrderLaws(after, next, resume);
    var all := values + more;
    forall i | 0 <= i < |all|
      ensures Le(after, CursorOf(s, all[i])) && Lt(CursorOf(s, all[i]), finish) && Le(CursorOf(s, all[i]), resume)
    {
      OrderLaws(after, next, CursorOf(s, all[i]));
      OrderLaws(CursorOf(s, all[i]), next, resume);
    }
    forall i, j | 0 <= i < j < |all| ensures Le(CursorOf(s, all[i]), CursorOf(s, all[j])) {
      OrderLaws(CursorOf(s, all[i]), next, CursorOf(s, all[j]));
    }
  }

  /** Whatever pages the server sends, entries come out in order and inside the interval. */
  lemma {:induction false} ListingInOrder(s: Scope, after: HObject, finish: HObject, limit: nat, serve: Server, t: nat,
                                          fuel: nat,
                                          next: HObject, values: seq<ListEntry>)
    requires t <= fuel && PositionOk(s, finish) && |values| <= limit
    requires InOrder(s, after, finish, values, next)
    ensures var r := Listing(s, finish, limit, serve, t, fuel, next, values);
            r.Ok? ==> |r.value.0| <= limit && InOrder(s, after, finish, r.value.0, r.value.1)
    decreases fuel - t
  {
    hide Compare, PageOk, Clipped, InOrder, PositionOk;
    if |values| >= limit || !Lt(next, finish) || t == fuel {
    } else {
      var reply := serve(t, next, limit - |values|);
      if reply.Ok? && PageOk(s, next, reply.value) {
        var (resume, count) := Clipped(s, reply.value, finish, limit - |values|);
        ClipInOrder(s, next, reply.value, finish, limit - |values|);
        InOrderAppend(s, after, finish, values, next, reply.value.entries[..count], resume);
        ListingInOrder(s, after, finish, limit, serve, t + 1, fuel, resume, values + reply.value.entries[..count]);
      }
    }
  }

  /** The values lie before the position reached: the cut after them separates no two that compare equal. */
  predicate Parted(s: Scope, values: seq<ListEntry>, next: HObject) {
    values == [] || Lt(CursorOf(s, values[|values| - 1]), next)
  }

  /** A successful listing stays inside its interval and can always be resumed from where it ended. It
      advances if its last value lies before that, and in any case unless all its values compare equal
      to where it began. */
  lemma ListedInOrder(s: Scope, after: HObject, finish: HObject, limit: nat, serve: Server, fuel: nat)
    requires Listed(s, after, finish, limit, serve, fuel).Ok?
    ensures var page := Listed(s, after, finish, limit, serve, fuel).value;
            && |page.values| <= limit && InOrder(s, after, finish, page.values, page.next)
            && (page.more ==> |page.values| == limit && RequestOk(s, page.next, finish, limit))
            && (!page.more ==> Le(finish, page.next))
            && (page.more && Parted(s, page.values, page.next) ==> Lt(after, page.next))
            && (page.more && !Lt(after, page.next) ==>
                  forall i :: 0 <= i < |page.values| ==> Compare(CursorOf(s, page.values[i]), after) == Equal)
  {
    hide Compare, PageOk, Clipped, CursorOf;
    OrderLaws(after, after, after);
    ListingInOrder(s, after, finish, limit, serve, 0, fuel, after, []);
    ListingStops(s, finish, limit, serve, 0, fuel, after, []);
    var page := Listed(s, after, finish, limit, serve, fuel).value;
    OrderLaws(page.next, finish, finish);
    OrderLaws(finish, page.next, page.next);
    if page.more {
      OrderLaws(after, CursorOf(s, page.values[|page.values| - 1]), page.next);
    }
    forall i | 0 <= i < |page.values| && !Lt(after, page.next)
      ensures Compare(CursorOf(s, page.values[i]), after) == Equal
    {
      var at := CursorOf(s, page.values[i]);
      OrderLaws(page.next, after, after);
      OrderLaws(at, page.next, after);
      CompareLaws(at, after, after);
    }
  }

  lemma {:induction false} ListingStops(s: Scope, finish: HObject, limit: nat, serve: Server, t: nat, fuel: nat,
                                        next: HObject, values: seq<ListEntry>)
    requires t <= fuel
    ensures var r := Listing(s, finish, limit, serve, t, fuel, next, values);
            r.Ok? ==> |r.value.0| >= limit || !Lt(r.value.1, finish)
    decreases fuel - t
  {
    hide Compare, PageOk, Clipped;
    if |values| >= limit || !Lt(next, finish) || t == fuel {
    } else {
      var reply := serve(t, next, limit - |values|);
      if reply.Ok? && PageOk(s, next, reply.value) {
        var (resume, count) := Clipped(s, reply.value, finish, limit - |values|);
        ListingStops(s, finish, limit, serve, t + 1, fuel, resume, values + reply.value.entries[..count]);
      }
    }
  }

  // --- what an honest server makes it return

  /** The objects of the pool, in ascending position. */
  ghost predicate Catalogue(s: Scope, objects: seq<ListEntry>) {
    forall i, j :: 0 <= i < j < |objects| ==> Le(CursorOf(s, objects[i]), CursorOf(s, objects[j]))
  }

  /** No two neighbours compare equal. */
  ghost predicate Untied(s: Scope, objects: seq<ListEntry>) {
    forall i :: 0 < i < |objects| ==> Lt(CursorOf(s, objects[i - 1]), CursorOf(s, objects[i]))
  }

  /** How many objects lie before a position. */
  function Rank(s: Scope, objects: seq<ListEntry>, a: HObject): (k: nat)
    ensures k <= |objects|
  {
    if objects == [] || !Lt(CursorOf(s, objects[0]), a) then 0 else 1 + Rank(s, objects[1..], a)
  }

  /** The objects of a half-open interval. */
  function Range(s: Scope, objects: seq<ListEntry>, a: HObject, b: HObject): (r: seq<ListEntry>) {
    var i, j := Rank(s, objects, a), Rank(s, objects, b);
    if i <= j then objects[i..j] else []
  }

  /** Each page holds exactly the objects from the cursor up to its `next`. */
  ghost predicate Honest(s: Scope, objects: seq<ListEntry>, serve: Server) {
    forall t, cursor, n :: serve(t, cursor, n).Ok? ==>
      serve(t, cursor, n).value.entries == Range(s, objects, cursor, serve(t, cursor, n).value.next)
  }

  lemma {:induction false} RankIs(s: Scope, objects: seq<ListEntry>, a: HObject)
    requires Catalogue(s, objects)
    ensures forall i :: 0 <= i < |objects| ==> (i < Rank(s, objects, a) <==> Lt(CursorOf(s, objects[i]), a))
  {
    hide Compare, Lt, Le;
    if objects == [] {
    } else {
      var rest := objects[1..];
      assert forall i :: 0 < i < |objects| ==> objects[i] == rest[i - 1];
      RankIs(s, rest, a);
      forall i | 0 < i < |objects| ensures !Lt(CursorOf(s, objects[0]), a) ==> !Lt(CursorOf(s, objects[i]), a) {
        var x, y := CursorOf(s, objects[0]), CursorOf(s, objects[i]);
        OrderLaws(x, y, a);
        OrderLaws(y, a, a);
      }
    }
  }

  lemma RankUnique(s: Scope, objects: seq<ListEntry>, a: HObject, k: nat)
    requires Catalogue(s, objects) && k <= |objects|
    requires k > 0 ==> Lt(CursorOf(s, objects[k - 1]), a)
    requires k < |objects| ==> !Lt(CursorOf(s, objects[k]), a)
    ensures Rank(s, objects, a) == k
  {
    hide Compare, Lt, Rank;
    RankIs(s, objects, a);
  }

  lemma RankMonotone(s: Scope, objects: seq<ListEntry>, a: HObject, b: HObject)
    requires Catalogue(s, objects) && Le(a, b)
    ensures Rank(s, objects, a) <= Rank(s, objects, b)
  {
    hide Compare, Lt, Le, Rank;
    RankIs(s, objects, a);
    RankIs(s, objects, b);
    var k := Rank(s, objects, a);
    if k > 0 {
      OrderLaws(CursorOf(s, objects[k - 1]), a, b);
    }
  }

  /** What lies before a position of the interval's end lies strictly before it. */
  lemma RangeParted(s: Scope, objects: seq<ListEntry>, a: HObject, b: HObject)
    requires Catalogue(s, objects)
    ensures Parted(s, Range(s, objects, a, b), b)
  {
    hide Compare, Lt, Rank, CursorOf;
    RankIs(s, objects, b);
  }

  /** Adjacent intervals list what their union lists. */
  lemma RangeSplits(s: Scope, objects: seq<ListEntry>, a: HObject, b: HObject, c: HObject)
    requires Catalogue(s, objects) && Le(a, b) && Le(b, c)
    ensures Range(s, objects, a, b) + Range(s, objects, b, c) == Range(s, objects, a, c)
  {
    hide Compare, Rank, Le;
    RankMonotone(s, objects, a, b);
    RankMonotone(s, objects, b, c);
  }

  /** Clipping an honest page leaves exactly the objects up to where it resumes, unless a limit cuts
      between two that compare equal. */
  lemma ClipExact(s: Scope, objects: seq<ListEntry>, start: HObject, page: Page, finish: HObject, available: nat)
    requires Catalogue(s, objects) && PageOk(s, start, page) && Lt(start, finish) && available > 0
    requires page.entries == Range(s, objects, start, page.next)
    ensures var (resume, count) := Clipped(s, page, finish, available);
            && (page.entries[..count] == Range(s, objects, start, resume) <==> Parted(s, page.entries[..count], resume))
            && (!Parted(s, page.entries[..count], resume) ==> count == available && Lt(resume, finish))
            && (Untied(s, objects) ==> Parted(s, page.entries[..count], resume))
  {
    hide Compare, Rank, Trimmed, CursorOf, PageOk;
    var (resume, count) := Clipped(s, page, finish, available);
    var kept := if Lt(finish, page.next) then Trimmed(s, page.entries, finish) else |page.entries|;
    RangeParted(s, objects, start, resume);
    if kept > available {
      KeptBeforeFinish(s, start, page, finish, available);
      CutIsRank(s, objects, start, page, available);
    } else {
      KeptExact(s, objects, start, page, finish);
    }
  }

  lemma KeptExact(s: Scope, objects: seq<ListEntry>, start: HObject, page: Page, finish: HObject)
    requires Catalogue(s, objects) && Lt(start, finish) && page.entries == Range(s, objects, start, page.next)
    ensures page.entries[..if Lt(finish, page.next) then Trimmed(s, page.entries, finish) else |page.entries|]
         == Range(s, objects, start, if Lt(finish, page.next) then finish else page.next)
  {
    hide Compare, Rank, Trimmed, CursorOf;
    var lo, hi := Rank(s, objects, start), Rank(s, objects, page.next);
    OrderLaws(start, finish, finish);
    OrderLaws(finish, page.next, page.next);
    if Lt(finish, page.next) {
      OrderLaws(start, finish, page.next);
      RankMonotone(s, objects, start, finish);
      RankMonotone(s, objects, finish, page.next);
      TrimIsRank(s, objects, page.entries, lo, hi, finish);
      var f := Rank(s, objects, finish);
      assert objects[lo..hi][..f - lo] == objects[lo..f];
    } else {
      assert page.entries[..|page.entries|] == page.entries;
    }
  }

  /** Where a limit cuts between two positions, the second of them has that many objects before it. */
  lemma CutIsRank(s: Scope, objects: seq<ListEntry>, start: HObject, page: Page, k: nat)
    requires Catalogue(s, objects) && page.entries == Range(s, objects, start, page.next) && 0 < k < |page.entries|
    ensures var resume := CursorOf(s, page.entries[k]);
            && (Parted(s, page.entries[..k], resume) ==> page.entries[..k] == Range(s, objects, start, resume))
            && (Untied(s, objects) ==> Parted(s, page.entries[..k], resume))
  {
    hide Compare, Rank, CursorOf, Catalogue;
    var lo := Rank(s, objects, start);
    var at := CursorOf(s, page.entries[k]);
    assert page.entries[k] == objects[lo + k] && page.entries[k - 1] == objects[lo + k - 1];
    assert page.entries[..k][k - 1] == objects[lo + k - 1];
    OrderLaws(at, at, at);
    if Parted(s, page.entries[..k], at) {
      RankUnique(s, objects, at, lo + k);
    }
  }

  lemma TrimIsRank(s: Scope, objects: seq<ListEntry>, entries: seq<ListEntry>, lo: nat, hi: nat, finish: HObject)
    requires Catalogue(s, objects) && lo <= Rank(s, objects, finish) <= hi <= |objects| && entries == objects[lo..hi]
    ensures Trimmed(s, entries, finish) == Rank(s, objects, finish) - lo
  {
    hide Compare, Rank, Trimmed, CursorOf;
    TrimmedLast(s, entries, finish);
    RankIs(s, objects, finish);
    var n := Trimmed(s, entries, finish);
    assert n > 0 ==> entries[n - 1] == objects[lo + n - 1];
    assert n < |entries| ==> entries[n] == objects[lo + n];
  }

  lemma {:induction false} ListingExact(s: Scope, objects: seq<ListEntry>, after: HObject, finish: HObject,
                                        limit: nat, serve: Server, t: nat, fuel: nat,
                                        next: HObject, values: seq<ListEntry>)
    requires t <= fuel && PositionOk(s, finish)
    requires Catalogue(s, objects) && Honest(s, objects, serve)
    requires Le(after, next) && values == Range(s, objects, after, next)
    ensures var r := Listing(s, finish, limit, serve, t, fuel, next, values);
            r.Ok? ==>
              && (r.value.0 == Range(s, objects, after, r.value.1) <==> Parted(s, r.value.0, r.value.1))
              && (Untied(s, objects) || !Lt(r.value.1, finish) ==> Parted(s, r.value.0, r.value.1))
    decreases fuel - t
  {
    hide Compare, PageOk, Clipped, Range, Catalogue, PositionOk, Le, Lt, CursorOf, Untied;
    RangeParted(s, objects, after, next);
    if |values| >= limit || !Lt(next, finish) || t == fuel {
    } else {
      var reply := serve(t, next, limit - |values|);
      if reply.Ok? && PageOk(s, next, reply.value) {
        var (resume, count) := Clipped(s, reply.value, finish, limit - |values|);
        var more := reply.value.entries[..count];
        ResumeInside(s, next, reply.value, finish, limit - |values|);
        ClipExact(s, objects, next, reply.value, finish, limit - |values|);
        RangeSplits(s, objects, after, next, resume);
        OrderLaws(after, next, resume);
        if Parted(s, more, resume) {
          ListingExact(s, objects, after, finish, limit, serve, t + 1, fuel, resume, values + more);
        } else {
          assert (values + more)[|values| + count - 1] == more[count - 1];
          assert (values + more)[|values|..] == more;
        }
      }
    }
  }

  /** One call of a listing that is resumed until it is done. */
  datatype Call = Call(limit: nat, serve: Server, fuel: nat)

  function Resumed(s: Scope, after: HObject, finish: HObject, calls: seq<Call>): (r: Result<ObjectPage, Error>)
    decreases |calls|
  {
    if calls == [] then Ok(ObjectPage([], after, Lt(after, finish)))
    else
      match Listed(s, after, finish, calls[0].limit, calls[0].serve, calls[0].fuel)
      case Err(e) => Err(e)
      case Ok(page) =>
        match Resumed(s, page.next, finish, calls[1..])
        case Err(e) => Err(e)
        case Ok(rest) => Ok(ObjectPage(page.values + rest.values, rest.next, rest.more))
  }

  /** Successive listings with any limits return every object of the interval once, in order, where no two
      objects compare equal. */
  lemma {:induction false} ResumedExact(s: Scope, objects: seq<ListEntry>, after: HObject, finish: HObject,
                                        calls: seq<Call>)
    requires Catalogue(s, objects) && Untied(s, objects) && Le(after, finish)
    requires forall i :: 0 <= i < |calls| ==> Honest(s, objects, calls[i].serve)
    requires Resumed(s, after, finish, calls).Ok?
    ensures var r := Resumed(s, after, finish, calls).value;
            && Le(after, r.next) && Le(r.next, finish)
            && r.values == Range(s, objects, after, r.next)
            && (!r.more ==> r.values == Range(s, objects, after, finish))
    decreases |calls|
  {
    hide Compare, Range, Catalogue, Untied, Honest, InOrder, Listed, Rank, Parted;
    OrderLaws(after, finish, finish);
    OrderLaws(finish, after, after);
    if calls == [] {
      SameRank(s, objects, after, after, finish);
      EmptyRange(s, objects, after);
    } else {
      var call := calls[0];
      var page := Listed(s, after, finish, call.limit, call.serve, call.fuel).value;
      ListedExact(s, objects, after, finish, call);
      ResumedExact(s, objects, page.next, finish, calls[1..]);
      var r := Resumed(s, after, finish, calls).value;
      RangeSplits(s, objects, after, page.next, r.next);
      OrderLaws(after, page.next, r.next);
      RangeSplits(s, objects, after, page.next, finish);
    }
  }

  /** One listing returns exactly the objects up to where it ends, unless its limit cuts between two that
      compare equal; a listing that reports the end always does. */
  lemma ListedExact(s: Scope, objects: seq<ListEntry>, after: HObject, finish: HObject, call: Call)
    requires Catalogue(s, objects) && Honest(s, objects, call.serve)
    requires Listed(s, after, finish, call.limit, call.serve, call.fuel).Ok?
    ensures var page := Listed(s, after, finish, call.limit, call.serve, call.fuel).value;
            && Le(after, page.next) && Le(page.next, finish)
            && (page.values == Range(s, objects, after, page.next) <==> Parted(s, page.values, page.next))
            && (Untied(s, objects) || !page.more ==> Parted(s, page.values, page.next))
  {
    hide Compare, Range, Catalogue, Untied, Honest, PageOk, Clipped, Parted;
    ListedInOrder(s, after, finish, call.limit, call.serve, call.fuel);
    OrderLaws(after, after, after);
    EmptyRange(s, objects, after);
    ListingExact(s, objects, after, finish, call.limit, call.serve, 0, call.fuel, after, []);
  }

  lemma EmptyRange(s: Scope, objects: seq<ListEntry>, a: HObject)
    ensures Range(s, objects, a, a) == []
  {
  }

  /** Positions that compare equal bound the same objects. */
  lemma SameRank(s: Scope, objects: seq<ListEntry>, a: HObject, b: HObject, c: HObject)
    requires Catalogue(s, objects)
    ensures Le(b, c) && Le(c, b) ==> Range(s, objects, a, b) == Range(s, objects, a, c)
  {
    hide Compare, Rank, Le;
    if Le(b, c) && Le(c, b) {
      RankMonotone(s, objects, b, c);
      RankMonotone(s, objects, c, b);
    }
  }

  // --- nothing is lost

  /** Clipping an honest page keeps everything before where it resumes, and nothing from outside. */
  lemma ClipCovers(s: Scope, objects: seq<ListEntry>, start: HObject, page: Page, finish: HObject, available: nat)
    requires Catalogue(s, objects) && PageOk(s, start, page) && Lt(start, finish) && available > 0
    requires page.entries == Range(s, objects, start, page.next)
    ensures var (resume, count) := Clipped(s, page, finish, available);
            && Range(s, objects, start, resume) <= page.entries[..count]
            && forall e :: e in page.entries[..count] ==> e in Range(s, objects, start, finish)
  {
    hide Compare, Rank, Trimmed, CursorOf, PageOk, Lt;
    var (resume, count) := Clipped(s, page, finish, available);
    var kept := if Lt(finish, page.next) then Trimmed(s, page.entries, finish) else |page.entries|;
    forall i | 0 <= i < count ensures page.entries[i] in Range(s, objects, start, finish) {
      KeptBeforeFinish(s, start, page, finish, i);
      RangeHolds(s, objects, start, page, finish, i);
    }
    if kept > available {
      CutCovers(s, objects, start, page, available);
    } else {
      KeptExact(s, objects, start, page, finish);
    }
  }

  lemma RangeHolds(s: Scope, objects: seq<ListEntry>, start: HObject, page: Page, finish: HObject, i: nat)
    requires Catalogue(s, objects) && page.entries == Range(s, objects, start, page.next) && i < |page.entries|
    requires Lt(CursorOf(s, page.entries[i]), finish)
    ensures page.entries[i] in Range(s, objects, start, finish)
  {
    hide Compare, Rank, CursorOf, Lt;
    RankIs(s, objects, finish);
    var lo, f := Rank(s, objects, start), Rank(s, objects, finish);
    assert page.entries[i] == objects[lo + i];
    assert objects[lo..f][i] == objects[lo + i];
  }

  lemma CutCovers(s: Scope, objects: seq<ListEntry>, start: HObject, page: Page, k: nat)
    requires Catalogue(s, objects) && page.entries == Range(s, objects, start, page.next) && k < |page.entries|
    ensures Range(s, objects, start, CursorOf(s, page.entries[k])) <= page.entries[..k]
  {
    hide Compare, Rank, CursorOf;
    var lo, at := Rank(s, objects, start), CursorOf(s, page.entries[k]);
    assert page.entries[k] == objects[lo + k];
    OrderLaws(at, at, at);
    RankIs(s, objects, at);
  }

  lemma {:induction false} ListingCovers(s: Scope, objects: seq<ListEntry>, after: HObject, finish: HObject,
                                         limit: nat, serve: Server, t: nat, fuel: nat,
                                         next: HObject, values: seq<ListEntry>)
    requires t <= fuel && PositionOk(s, finish)
    requires Catalogue(s, objects) && Honest(s, objects, serve)
    requires Le(after, next) && Le(next, finish) && values == Range(s, objects, after, next)
    ensures var r := Listing(s, finish, limit, serve, t, fuel, next, values);
            r.Ok? ==>
              && Range(s, objects, after, r.value.1) <= r.value.0
              && forall e :: e in r.value.0 ==> e in Range(s, objects, after, finish)
    decreases fuel - t
  {
    hide Compare, PageOk, Clipped, Range, Catalogue, PositionOk, Le, Lt, CursorOf, Parted;
    RangeSplits(s, objects, after, next, finish);
    if |values| >= limit || !Lt(next, finish) || t == fuel {
    } else {
      var reply := serve(t, next, limit - |values|);
      if reply.Ok? && PageOk(s, next, reply.value) {
        var (resume, count) := Clipped(s, reply.value, finish, limit - |values|);
        var more := reply.value.entries[..count];
        ResumeInside(s, next, reply.value, finish, limit - |values|);
        ClipExact(s, objects, next, reply.value, finish, limit - |values|);
        ClipCovers(s, objects, next, reply.value, finish, limit - |values|);
        RangeSplits(s, objects, after, next, resume);
        OrderLaws(after, next, resume);
        if Parted(s, more, resume) {
          ListingCovers(s, objects, after, finish, limit, serve, t + 1, fuel, resume, values + more);
        }
      }
    }
  }

  lemma ListedCovers(s: Scope, objects: seq<ListEntry>, after: HObject, finish: HObject, call: Call)
    requires Catalogue(s, objects) && Honest(s, objects, call.serve)
    requires Listed(s, after, finish, call.limit, call.serve, call.fuel).Ok?
    ensures var page := Listed(s, after, finish, call.limit, call.serve, call.fuel).value;
            && Le(after, page.next) && Le(page.next, finish)
            && Range(s, objects, after, page.next) <= page.values
            && forall e :: e in page.values ==> e in Range(s, objects, after, finish)
  {
    hide Compare, Range, Catalogue, Honest, PageOk, Clipped, Parted;
    ListedInOrder(s, after, finish, call.limit, call.serve, call.fuel);
    OrderLaws(after, after, after);
    EmptyRange(s, objects, after);
    ListingCovers(s, objects, after, finish, call.limit, call.serve, 0, call.fuel, after, []);
  }

  lemma PrefixWithin<T>(a: seq<T>, b: seq<T>)
    requires a <= b
    ensures multiset(a) <= multiset(b)
  {
    assert b == a + b[|a|..];
  }

  lemma Together<T>(a: seq<T>, b: seq<T>, c: seq<T>, d: seq<T>)
    requires multiset(a) <= multiset(b) && multiset(c) <= multiset(d)
    ensures multiset(a + c) <= multiset(b + d)
  {
  }

  /** Whatever the limits, and with objects that compare equal as without: a resumed listing that reports the
      end has returned every object of the range, as often as the pool holds it at least, and no other. So
      objects that compare equal can be repeated, and are never lost. */
  lemma {:induction false} ResumedCovers(s: Scope, objects: seq<ListEntry>, after: HObject, finish: HObject,
                                         calls: seq<Call>)
    requires Catalogue(s, objects) && Le(after, finish)
    requires forall i :: 0 <= i < |calls| ==> Honest(s, objects, calls[i].serve)
    requires Resumed(s, after, finish, calls).Ok?
    ensures var r := Resumed(s, after, finish, calls).value;
            && Le(after, r.next) && Le(r.next, finish)
            && multiset(Range(s, objects, after, r.next)) <= multiset(r.values)
            && (forall e :: e in r.values ==> e in Range(s, objects, after, finish))
            && (!r.more ==> multiset(Range(s, objects, after, finish)) <= multiset(r.values))
    decreases |calls|
  {
    hide Compare, Range, Catalogue, Honest, Listed, Rank, Lt;
    OrderLaws(after, finish, finish);
    OrderLaws(finish, after, after);
    if calls == [] {
      SameRank(s, objects, after, after, finish);
      EmptyRange(s, objects, after);
    } else {
      var call := calls[0];
      var page := Listed(s, after, finish, call.limit, call.serve, call.fuel).value;
      ListedCovers(s, objects, after, finish, call);
      ResumedCovers(s, objects, page.next, finish, calls[1..]);
      var rest := Resumed(s, page.next, finish, calls[1..]).value;
      RangeSplits(s, objects, after, page.next, rest.next);
      RangeSplits(s, objects, after, page.next, finish);
      OrderLaws(after, page.next, rest.next);
      PrefixWithin(Range(s, objects, after, page.next), page.values);
      Together(Range(s, objects, after, page.next), page.values, Range(s, objects, page.next, rest.next), rest.values);
      Together(Range(s, objects, after, page.next), page.values, Range(s, objects, page.next, finish),
        if rest.more then Range(s, objects, page.next, finish) else rest.values);
    }
  }

  // --- objects that compare equal

  /** Agreement in namespace, name and key: where two objects differ, one of them has no locator and the
      other repeats the name as its locator. */
  predicate Twins(a: ListEntry, b: ListEntry) {
    a.namespace == b.namespace && a.name == b.name && KeyOf(a) == KeyOf(b)
  }

  /** Two objects have one position exactly when they are twins. */
  lemma EntriesTieIff(s: Scope, a: ListEntry, b: ListEntry)
    ensures Compare(CursorOf(s, a), CursorOf(s, b)) == Equal <==> Twins(a, b)
  {
    hide Compare;
    CompareEqualIff(CursorOf(s, a), CursorOf(s, b));
  }

  /** A pool is untied exactly when it holds no twins. */
  lemma UntiedIff(s: Scope, objects: seq<ListEntry>)
    requires Catalogue(s, objects)
    ensures Untied(s, objects) <==> forall i, j :: 0 <= i < j < |objects| ==> !Twins(objects[i], objects[j])
  {
    hide Compare, CursorOf, Twins;
    forall i, j | 0 <= i < j < |objects|
      ensures Compare(CursorOf(s, objects[i]), CursorOf(s, objects[j])) == Equal <==> Twins(objects[i], objects[j])
      ensures Untied(s, objects) ==> Lt(CursorOf(s, objects[i]), CursorOf(s, objects[j]))
    {
      EntriesTieIff(s, objects[i], objects[j]);
      var x, y, z := CursorOf(s, objects[i]), CursorOf(s, objects[j - 1]), CursorOf(s, objects[j]);
      OrderLaws(x, y, z);
      OrderLaws(x, x, x);
    }
  }

  /** Different objects can be twins: without a locator, and with the name as locator. */
  lemma TwinObjects(s: Scope, namespace: Bytes, name: Bytes)
    requires name != []
    ensures var objects := [ListEntry(namespace, name, []), ListEntry(namespace, name, name)];
            objects[0] != objects[1] && Twins(objects[0], objects[1]) && Catalogue(s, objects) && !Untied(s, objects)
  {
    hide Compare;
    var objects := [ListEntry(namespace, name, []), ListEntry(namespace, name, name)];
    EntriesTieIff(s, objects[0], objects[1]);
  }

  const TOP := HObject([], [], 0, 0, true, [], 0)

  /** A server that answers with everything from the cursor on. */
  function Whole(s: Scope, objects: seq<ListEntry>): (serve: Server) {
    (t: nat, cursor: HObject, n: nat) => Ok(Page(TOP, Range(s, objects, cursor, TOP)))
  }

  /** An object that this view may list and whose position fits a cursor. */
  predicate Listable(s: Scope, e: ListEntry) {
    NamespaceOk(s, e) && EncodedSize(CursorOf(s, e)) <= CURSOR_MAX_BYTES
  }

  /** Everything from a position that object `j` is the first to have. */
  lemma RangeToTop(s: Scope, objects: seq<ListEntry>, j: nat, at: HObject)
    requires Catalogue(s, objects) && j < |objects| && Compare(at, CursorOf(s, objects[j])) == Equal
    requires j > 0 ==> Lt(CursorOf(s, objects[j - 1]), at)
    ensures Range(s, objects, at, TOP) == objects[j..]
  {
    hide Compare, Rank;
    var x := CursorOf(s, objects[j]);
    CompareLaws(at, x, x);
    RankUnique(s, objects, at, j);
    OrderLaws(TOP, CursorOf(s, objects[|objects| - 1]), x);
    RankUnique(s, objects, TOP, |objects|);
  }

  lemma WholePageOk(s: Scope, objects: seq<ListEntry>, j: nat, at: HObject)
    requires Catalogue(s, objects) && j < |objects| && Compare(at, CursorOf(s, objects[j])) == Equal
    requires forall i :: 0 <= i < |objects| ==> Listable(s, objects[i])
    ensures PageOk(s, at, Page(TOP, objects[j..]))
  {
    hide Compare, CursorOf;
    var entries := objects[j..];
    forall i | 0 <= i < |entries| ensures EntryOk(s, at, Page(TOP, entries), i) && NamespaceOk(s, entries[i]) {
      assert entries[i] == objects[j + i] && Listable(s, objects[j + i]);
      assert i > 0 ==> entries[i - 1] == objects[j + i - 1];
    }
  }

  /** From where twins stand, a listing of one returns the first and resumes where it began. */
  lemma TwinsListed(s: Scope, objects: seq<ListEntry>, j: nat, at: HObject)
    requires Catalogue(s, objects) && j + 1 < |objects| && Twins(objects[j], objects[j + 1])
    requires j > 0 ==> Lt(CursorOf(s, objects[j - 1]), CursorOf(s, objects[j]))
    requires forall i :: 0 <= i < |objects| ==> Listable(s, objects[i])
    requires PositionOk(s, at) && Compare(at, CursorOf(s, objects[j])) == Equal
    ensures Listed(s, at, TOP, 1, Whole(s, objects), 1)
        == Ok(ObjectPage([objects[j]], CursorOf(s, objects[j + 1]), true))
    ensures Compare(CursorOf(s, objects[j + 1]), CursorOf(s, objects[j])) == Equal
  {
    hide Compare, Rank, PageOk, Twins, Range;
    var x, y := CursorOf(s, objects[j]), CursorOf(s, objects[j + 1]);
    EntriesTieIff(s, objects[j], objects[j + 1]);
    CompareLaws(x, y, y);
    CompareLaws(at, x, x);
    if j > 0 {
      OrderLaws(CursorOf(s, objects[j - 1]), x, at);
    }
    OrderLaws(TOP, x, x);
    OrderLaws(TOP, y, y);
    OrderLaws(at, x, TOP);
    OrderLaws(TOP, TOP, TOP);
    RangeToTop(s, objects, j, at);
    WholePageOk(s, objects, j, at);
    var page := Page(TOP, objects[j..]);
    assert Listable(s, objects[j + 1]);
    assert Clipped(s, page, TOP, 1) == (y, 1);
    assert [] + page.entries[..1] == [objects[j]];
    assert Listing(s, TOP, 1, Whole(s, objects), 1, 1, y, [objects[j]]) == Ok(([objects[j]], y));
  }

  /** So listings of one, each resumed where the last ended, return the first twin for ever. */
  lemma {:induction false} TwinsStall(s: Scope, objects: seq<ListEntry>, j: nat, at: HObject, n: nat)
    requires Catalogue(s, objects) && j + 1 < |objects| && Twins(objects[j], objects[j + 1])
    requires j > 0 ==> Lt(CursorOf(s, objects[j - 1]), CursorOf(s, objects[j]))
    requires forall i :: 0 <= i < |objects| ==> Listable(s, objects[i])
    requires PositionOk(s, at) && Compare(at, CursorOf(s, objects[j])) == Equal
    ensures var r := Resumed(s, at, TOP, seq(n, _ => Call(1, Whole(s, objects), 1)));
            && r.Ok? && r.value.values == seq(n, _ => objects[j]) && r.value.more
            && Compare(r.value.next, CursorOf(s, objects[j])) == Equal
    decreases n
  {
    hide Compare, Listed, Twins, Catalogue, Listable, Whole, PositionOk;
    var calls := seq(n, _ => Call(1, Whole(s, objects), 1));
    if n == 0 {
      var x := CursorOf(s, objects[j]);
      CompareLaws(at, x, x);
      OrderLaws(TOP, x, x);
      OrderLaws(at, x, TOP);
    } else {
      TwinsListed(s, objects, j, at);
      CursorFits(s, objects[j + 1]);
      TwinsStall(s, objects, j, CursorOf(s, objects[j + 1]), n - 1);
      assert calls[1..] == seq(n - 1, _ => Call(1, Whole(s, objects), 1));
      assert [objects[j]] + seq(n - 1, _ => objects[j]) == seq(n, _ => objects[j]);
    }
  }

  lemma CursorFits(s: Scope, e: ListEntry)
    ensures PositionOk(s, CursorOf(s, e))
  {
  }

  /** Resumed listings of an honest server return exactly the objects up to where they end. */
  ghost predicate ListsExactly(s: Scope, objects: seq<ListEntry>, after: HObject, finish: HObject, calls: seq<Call>) {
    && Le(after, finish) && (forall i :: 0 <= i < |calls| ==> Honest(s, objects, calls[i].serve))
    && Resumed(s, after, finish, calls).Ok? ==>
      var r := Resumed(s, after, finish, calls).value;
      r.values == Range(s, objects, after, r.next)
  }

  lemma FirstTwins(s: Scope, objects: seq<ListEntry>) returns (j: nat)
    requires Catalogue(s, objects) && !Untied(s, objects)
    ensures j + 1 < |objects| && Twins(objects[j], objects[j + 1])
    ensures j > 0 ==> Lt(CursorOf(s, objects[j - 1]), CursorOf(s, objects[j]))
  {
    hide Compare, CursorOf, Twins;
    var i :| 0 < i < |objects| && !Lt(CursorOf(s, objects[i - 1]), CursorOf(s, objects[i]));
    j := 0;
    while Lt(CursorOf(s, objects[j]), CursorOf(s, objects[j + 1]))
      invariant j < i && (j > 0 ==> Lt(CursorOf(s, objects[j - 1]), CursorOf(s, objects[j])))
      decreases i - j
    {
      j := j + 1;
    }
    assert Le(CursorOf(s, objects[j]), CursorOf(s, objects[j + 1]));
    EntriesTieIff(s, objects[j], objects[j + 1]);
  }

  lemma TwinsRefute(s: Scope, objects: seq<ListEntry>, j: nat)
    requires Catalogue(s, objects) && j + 1 < |objects| && Twins(objects[j], objects[j + 1])
    requires j > 0 ==> Lt(CursorOf(s, objects[j - 1]), CursorOf(s, objects[j]))
    requires forall i :: 0 <= i < |objects| ==> Listable(s, objects[i])
    ensures !ListsExactly(s, objects, CursorOf(s, objects[j]), TOP, seq(1, _ => Call(1, Whole(s, objects), 1)))
  {
    hide Compare, Resumed, Catalogue, Range, Twins;
    var at := CursorOf(s, objects[j]);
    var calls := seq(1, _ => Call(1, Whole(s, objects), 1));
    OrderLaws(at, at, at);
    CompareLaws(at, at, at);
    OrderLaws(TOP, at, at);
    OrderLaws(at, TOP, TOP);
    TwinsStall(s, objects, j, at, 1);
    var r := Resumed(s, at, TOP, calls).value;
    CompareLaws(r.next, at, at);
    EmptyRange(s, objects, at);
    SameRank(s, objects, at, at, r.next);
    assert Honest(s, objects, calls[0].serve);
    assert |r.values| == 1;
  }

  /** For a pool of listable objects, resumed listings are exact whatever the range, limits and honest
      servers exactly when it holds no twins. */
  lemma ExactIffUntied(s: Scope, objects: seq<ListEntry>)
    requires Catalogue(s, objects) && forall i :: 0 <= i < |objects| ==> Listable(s, objects[i])
    ensures (forall after, finish, calls :: ListsExactly(s, objects, after, finish, calls)) <==> Untied(s, objects)
  {
    hide Compare, Catalogue, Untied, Range, Resumed, Listable;
    if Untied(s, objects) {
      forall after: HObject, finish: HObject, calls: seq<Call> ensures ListsExactly(s, objects, after, finish, calls) {
        if && Le(after, finish) && (forall i :: 0 <= i < |calls| ==> Honest(s, objects, calls[i].serve))
           && Resumed(s, after, finish, calls).Ok? {
          ResumedExact(s, objects, after, finish, calls);
        }
      }
    } else {
      var j := FirstTwins(s, objects);
      TwinsRefute(s, objects, j);
    }
  }
}
