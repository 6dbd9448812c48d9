/** Splitting a cursor interval into reversed-hash partitions (src/client.rs). */
module SplitCursor {
  import opened Wrappers
  import opened Arithmetic
  import opened HObject
  import opened Enumeration

  const MAX_PARTITIONS: nat := 0x10_0000

  function StartPosition(begin: HObject): (p: nat)
    ensures p < TWO_32
  {
    ReverseBits(begin.hash)
  }

  function FinishPosition(end: HObject): (p: nat)
    ensures p <= TWO_32
  {
    if end.max then TWO_32 else ReverseBits(end.hash)
  }

  /** The position of boundary `i` of `n`: the exact fraction, rounded down. */
  function Position(start: nat, difference: nat, i: nat, n: nat): (p: nat)
    requires n > 0
  {
    start + difference * i / n
  }

  /** A boundary at a position: before every object whose hash reverses to it. */
  function Boundary(s: Scope, position: nat): (h: HObject)
    requires position < TWO_32
  {
    HObject([], [], NO_SNAP, ReverseBits(position), false, [], s.poolId)
  }

  predicate SplitOk(s: Scope, begin: HObject, end: HObject, n: nat) {
    0 < n <= MAX_PARTITIONS && PositionOk(s, begin) && PositionOk(s, end) && Le(begin, end)
  }

  // --- the arithmetic

  /** Dividing first avoids the wide product and loses nothing. */
  lemma SplitQuotient(d: nat, i: nat, n: nat)
    requires n > 0
    ensures d / n * i + d % n * i / n == d * i / n
  {
    var q, r := d / n, d % n;
    var a, b := r * i / n, r * i % n;
    assert d == q * n + r;
    assert r * i == a * n + b;
    assert d * i == (q * n) * i + r * i;
    assert (q * n) * i == (q * i) * n;
    assert (q * i + a) * n == (q * i) * n + a * n;
    RemainderUnique(d * i, n, q * i + a, b);
  }

  /** Every intermediate value fits 64 bits. */
  lemma SplitFits(d: nat, i: nat, n: nat)
    requires 0 < n <= MAX_PARTITIONS && i < n && d <= TWO_32
    ensures d / n * i <= TWO_32 && d % n * i < 0x100_0000_0000
    ensures TWO_32 + d / n * i + d % n * i / n < 0x1_0000_0000_0000_0000
  {
    QuotientBound(d, n);
    MulMonotone(i, n, d / n);
    assert d / n * n == n * (d / n);
    MulMonotone(d % n, MAX_PARTITIONS, i);
    MulMonotone(i, MAX_PARTITIONS, MAX_PARTITIONS);
    QuotientBound(d % n * i, n);
  }

  /** Positions never decrease ... */
  lemma PositionsMonotone(d: nat, i: nat, j: nat, n: nat)
    requires 0 < n && i <= j
    ensures d * i / n <= d * j / n
  {
    MulMonotone(i, j, d);
    QuotientMonotone(d * i, d * j, n);
  }

  /** ... run from the start to the finish ... */
  lemma PositionsSpan(d: nat, n: nat)
    requires n > 0
    ensures d * 0 / n == 0 && d * n / n == d
  {
    RemainderUnique(0, n, 0, 0);
    RemainderUnique(d * n, n, d, 0);
  }

  /** ... and reach the finish only at the end. */
  lemma PositionsBelow(d: nat, i: nat, n: nat)
    requires i < n && d > 0
    ensures d * i / n < d
  {
    MulMonotone(i, n - 1, d);
    assert (n - 1) * d == n * d - d;
    QuotientBelow(d * i, d, n);
  }

  lemma QuotientBelow(x: nat, d: nat, n: nat)
    requires n > 0 && x < n * d
    ensures x / n < d
  {
    QuotientBound(x, n);
    if x / n >= d {
      MulMonotone(d, x / n, n);
    }
  }

  lemma QuotientMonotone(a: nat, b: nat, n: nat)
    requires n > 0 && a <= b
    ensures a / n <= b / n
  {
    QuotientBound(b, n);
    assert n * (b / n + 1) == n * (b / n) + n;
    QuotientBelow(a, b / n + 1, n);
  }

  /** Partition widths differ by at most one. */
  lemma WidthsEven(d: nat, i: nat, n: nat)
    requires 0 < n && i < n
    ensures var width := d * (i + 1) / n - d * i / n;
            width == d / n || width == d / n + 1
  {
    var q, r := d / n, d % n;
    var a, b := d * i / n, d * i % n;
    assert d == q * n + r;
    assert d * i == a * n + b;
    assert d * (i + 1) == d * i + d;
    assert (a + q) * n == a * n + q * n;
    if b + r < n {
      RemainderUnique(d * (i + 1), n, a + q, b + r);
    } else {
      assert (a + q + 1) * n == (a + q) * n + n;
      RemainderUnique(d * (i + 1), n, a + q + 1, b + r - n);
    }
  }

  // --- the boundaries

  lemma {:induction false} ReversedZero(k: nat)
    ensures Reversed(0, k) == 0
  {
    if k == 0 {
    } else {
      ReversedZero(k - 1);
    }
  }

  /** The subtraction of positions cannot underflow, because the cursors are in order. */
  lemma PositionsOrdered(s: Scope, begin: HObject, end: HObject)
    requires PositionOk(s, begin) && PositionOk(s, end) && Le(begin, end) && !begin.max
    ensures StartPosition(begin) <= FinishPosition(end)
  {
    ReversedZero(32);
    hide Reversed, CompareBytes;
  }

  function Difference(begin: HObject, end: HObject): (d: nat)
    requires StartPosition(begin) <= FinishPosition(end)
    ensures d <= TWO_32
  {
    FinishPosition(end) - StartPosition(begin)
  }

  /** No boundary before the last lies past the greatest hash. */
  lemma PositionFits(start: nat, d: nat, i: nat, n: nat)
    requires i < n && start < TWO_32 && start + d <= TWO_32
    ensures Position(start, d, i, n) < TWO_32
  {
    if d == 0 {
      RemainderUnique(0, n, 0, 0);
    } else {
      PositionsBelow(d, i, n);
    }
  }

  function Boundaries(s: Scope, begin: HObject, end: HObject, n: nat): (b: seq<HObject>)
    requires SplitOk(s, begin, end, n)
    ensures |b| == n + 1 && b[0] == begin
  {
    if begin.max then seq(n + 1, _ => begin)
    else
      PositionsOrdered(s, begin, end);
      var start, d := StartPosition(begin), Difference(begin, end);
      seq(n + 1, i requires 0 <= i <= n =>
        if i == 0 then begin else if i == n then end
            else PositionFits(start, d, i, n); Boundary(s, Position(start, d, i, n)))
  }

  /** `split_cursor`, without a product wider than 64 bits. */
  method Split(s: Scope, begin: HObject, end: HObject, n: nat) returns (r: Result<seq<HObject>, Error>)
    ensures if SplitOk(s, begin, end, n) then r == Ok(Boundaries(s, begin, end, n)) else r == Err(Invalid)
  {
    hide Compare, ReverseBits;
    var beginOk := CheckCursor(s, begin);
    var endOk := CheckCursor(s, end);
    if n == 0 || n > MAX_PARTITIONS || !beginOk || !endOk || Compare(begin, end) == Greater {
      return Err(Invalid);
    }
    if begin.max {
      return Ok(seq(n + 1, _ => begin));
    }
    PositionsOrdered(s, begin, end);
    var startHash: U64 := ReverseBits(begin.hash);
    var finishHash: U64 := if end.max then TWO_32 else ReverseBits(end.hash);
    var difference: U64 := finishHash - startHash;
    var boundaries := [begin];
    for index := 1 to n
      invariant |boundaries| == index
      invariant forall i :: 0 <= i < index ==> boundaries[i] == Boundaries(s, begin, end, n)[i]
    {
      SplitFits(difference, index, n);
      SplitQuotient(difference, index, n);
      PositionFits(startHash, difference, index, n);
      var reversed: U64 := startHash + difference / n * index + difference % n * index / n;
      boundaries := boundaries + [Boundary(s, reversed)];
    }
    assert boundaries + [end] == Boundaries(s, begin, end, n);
    return Ok(boundaries + [end]);
  }

  // --- their order

  /** A cursor that stands before every object of its hash. */
  predicate Bare(h: HObject) {
    h.key == [] && h.name == [] && h.namespace == []
  }

  predicate Minimum(h: HObject) {
    !h.max && h.pool == I64_MIN
  }

  lemma BoundaryOrder(s: Scope, p: nat, q: nat)
    requires p <= q < TWO_32
    ensures Le(Boundary(s, p), Boundary(s, q))
  {
    ReverseBitsTwice(p);
    ReverseBitsTwice(q);
    hide ReverseBits;
  }

  /** Where the first cursor stands against a boundary at or after its own position. */
  lemma BeginOrder(s: Scope, begin: HObject, p: nat)
    requires PositionOk(s, begin) && !begin.max && s.poolId != I64_MIN && StartPosition(begin) <= p < TWO_32
    ensures Le(begin, Boundary(s, p)) <==> Minimum(begin) || StartPosition(begin) < p || Bare(begin)
  {
    ReverseBitsTwice(p);
    hide ReverseBits;
  }

  lemma EndOrder(s: Scope, end: HObject, p: nat)
    requires PositionOk(s, end) && s.poolId != I64_MIN && p < TWO_32 && p <= FinishPosition(end)
    ensures Le(Boundary(s, p), end) <==> !Minimum(end)
  {
    ReverseBitsTwice(p);
    hide ReverseBits;
  }

  ghost predicate Ascending(b: seq<HObject>) {
    forall i :: 0 < i < |b| ==> Le(b[i - 1], b[i])
  }

  /** When the boundaries are in cursor order: the split is trivial, or the end is past the minimum
      and the first cut moves off the first hash or the first cursor stands before all of it. */
  predicate InOrderSplit(begin: HObject, end: HObject, n: nat)
    requires !begin.max ==> StartPosition(begin) <= FinishPosition(end)
  {
    begin.max || n == 1 || (!Minimum(end) && (Minimum(begin) || Difference(begin, end) >= n || Bare(begin)))
  }

  /** The boundaries ascend exactly under that condition. */
  lemma SplitAscendsIff(s: Scope, begin: HObject, end: HObject, n: nat)
    requires SplitOk(s, begin, end, n) && s.poolId != I64_MIN
    ensures !begin.max ==> StartPosition(begin) <= FinishPosition(end)
    ensures Ascending(Boundaries(s, begin, end, n)) <==> InOrderSplit(begin, end, n)
  {
    hide Compare, ReverseBits, PositionOk;
    var b := Boundaries(s, begin, end, n);
    if begin.max {
      OrderLaws(begin, begin, begin);
    } else {
      PositionsOrdered(s, begin, end);
      var start, d := StartPosition(begin), Difference(begin, end);
      forall i | 1 < i < n ensures Le(b[i - 1], b[i]) {
        PositionsMonotone(d, i - 1, i, n);
        PositionFits(start, d, i - 1, n);
        PositionFits(start, d, i, n);
        BoundaryOrder(s, Position(start, d, i - 1, n), Position(start, d, i, n));
      }
      if n > 1 {
        FirstCut(s, begin, end, n);
        LastCut(s, begin, end, n);
        assert Ascending(b) ==> Le(b[0], b[1]) && Le(b[n - 1], b[n]);
      }
    }
  }

  lemma FirstCut(s: Scope, begin: HObject, end: HObject, n: nat)
    requires SplitOk(s, begin, end, n) && s.poolId != I64_MIN && n > 1 && !begin.max
    ensures StartPosition(begin) <= FinishPosition(end)
    ensures var b := Boundaries(s, begin, end, n);
            Le(b[0], b[1]) <==> Minimum(begin) || Difference(begin, end) >= n || Bare(begin)
  {
    hide Compare, ReverseBits, PositionOk, Position, Bare, Minimum;
    PositionsOrdered(s, begin, end);
    var start, d := StartPosition(begin), Difference(begin, end);
    PositionFits(start, d, 1, n);
    FirstStep(start, d, n);
    BeginOrder(s, begin, Position(start, d, 1, n));
  }

  lemma FirstStep(start: nat, d: nat, n: nat)
    requires n > 0
    ensures start < Position(start, d, 1, n) <==> d >= n
    ensures start <= Position(start, d, 1, n)
  {
    assert d * 1 == d;
    if d < n {
      RemainderUnique(d, n, 0, d);
    } else {
      QuotientMonotone(n, d, n);
      RemainderUnique(n, n, 1, 0);
    }
  }

  lemma LastCut(s: Scope, begin: HObject, end: HObject, n: nat)
    requires SplitOk(s, begin, end, n) && s.poolId != I64_MIN && n > 1 && !begin.max
    ensures var b := Boundaries(s, begin, end, n); Le(b[n - 1], b[n]) <==> !Minimum(end)
  {
    hide Compare, ReverseBits, PositionOk;
    PositionsOrdered(s, begin, end);
    var start, d := StartPosition(begin), Difference(begin, end);
    PositionFits(start, d, n - 1, n);
    PositionsMonotone(d, n - 1, n, n);
    PositionsSpan(d, n);
    EndOrder(s, end, Position(start, d, n - 1, n));
  }

  // --- listing by partition

  /** The objects of consecutive intervals, one after another. */
  function ByPartition(s: Scope, objects: seq<ListEntry>, b: seq<HObject>): (r: seq<ListEntry>) {
    if |b| < 2 then [] else Range(s, objects, b[0], b[1]) + ByPartition(s, objects, b[1..])
  }

  /** Ascending boundaries partition what the whole interval lists: nothing is lost or repeated. */
  lemma {:induction false} PartitionsCover(s: Scope, objects: seq<ListEntry>, b: seq<HObject>)
    requires Catalogue(s, objects) && |b| > 0 && Ascending(b)
    ensures Le(b[0], b[|b| - 1]) && ByPartition(s, objects, b) == Range(s, objects, b[0], b[|b| - 1])
  {
    hide Compare, Catalogue, Range, Le;
    OrderLaws(b[0], b[0], b[0]);
    if |b| == 1 {
      EmptyRange(s, objects, b[0]);
    } else {
      var rest := b[1..];
      assert Ascending(rest) by {
        assert forall i :: 0 < i < |rest| ==> rest[i - 1] == b[i] && rest[i] == b[i + 1];
      }
      PartitionsCover(s, objects, rest);
      assert Le(b[0], b[1]);
      OrderLaws(b[0], b[1], b[|b| - 1]);
      RangeSplits(s, objects, b[0], b[1], b[|b| - 1]);
    }
  }

  /** Listing by the partitions of a split in cursor order lists exactly the whole interval. */
  lemma SplitCovers(s: Scope, objects: seq<ListEntry>, begin: HObject, end: HObject, n: nat)
    requires SplitOk(s, begin, end, n) && s.poolId != I64_MIN && Catalogue(s, objects)
    requires !begin.max ==> StartPosition(begin) <= FinishPosition(end)
    requires InOrderSplit(begin, end, n)
    ensures var b := Boundaries(s, begin, end, n);
            && b[0] == begin && (begin.max || b[n] == end)
            && ByPartition(s, objects, b) == Range(s, objects, begin, end)
  {
    hide Compare, Catalogue, Range, ReverseBits, ByPartition, InOrderSplit, PositionOk;
    SplitAscendsIff(s, begin, end, n);
    var b := Boundaries(s, begin, end, n);
    PartitionsCover(s, objects, b);
    OrderLaws(begin, end, end);
    SameRank(s, objects, begin, b[n], end);
  }

  /** The objects found by listing each interval with the calls given for it, if every listing completes. */
  function ListedByPartition(s: Scope, b: seq<HObject>, calls: seq<seq<Call>>): (r: Option<seq<ListEntry>>)
    requires |b| == |calls| + 1
    decreases |calls|
  {
    if calls == [] then Some([])
    else
      var first := Resumed(s, b[0], b[1], calls[0]);
      var rest := ListedByPartition(s, b[1..], calls[1..]);
      if first.Ok? && !first.value.more && rest.Some? then Some(first.value.values + rest.value) else None
  }

  ghost predicate AllHonest(s: Scope, objects: seq<ListEntry>, calls: seq<Call>) {
    forall i :: 0 <= i < |calls| ==> Honest(s, objects, calls[i].serve)
  }

  lemma {:induction false} ListedIsByPartition(s: Scope, objects: seq<ListEntry>, b: seq<HObject>,
                                               calls: seq<seq<Call>>)
    requires Catalogue(s, objects) && Untied(s, objects) && |b| == |calls| + 1 && Ascending(b)
    requires forall k :: 0 <= k < |calls| ==> AllHonest(s, objects, calls[k])
    requires ListedByPartition(s, b, calls).Some?
    ensures ListedByPartition(s, b, calls).value == ByPartition(s, objects, b)
    decreases |calls|
  {
    hide Compare, Catalogue, Untied, Range, Resumed, Le;
    if calls == [] {
    } else {
      assert Le(b[0], b[1]) && AllHonest(s, objects, calls[0]);
      ResumedExact(s, objects, b[0], b[1], calls[0]);
      var rest := b[1..];
      assert forall i :: 0 < i < |rest| ==> rest[i - 1] == b[i] && rest[i] == b[i + 1];
      ListedIsByPartition(s, objects, rest, calls[1..]);
    }
  }

  /** Listing every partition of a split in cursor order, in any number of calls each, returns every object of
      the whole interval once, in order. */
  lemma SplitListsAll(s: Scope, objects: seq<ListEntry>, begin: HObject, end: HObject, n: nat, calls: seq<seq<Call>>)
    requires SplitOk(s, begin, end, n) && s.poolId != I64_MIN && Catalogue(s, objects) && Untied(s, objects)
    requires !begin.max ==> StartPosition(begin) <= FinishPosition(end)
    requires InOrderSplit(begin, end, n) && |calls| == n
    requires forall k :: 0 <= k < n ==> AllHonest(s, objects, calls[k])
    requires ListedByPartition(s, Boundaries(s, begin, end, n), calls).Some?
    ensures ListedByPartition(s, Boundaries(s, begin, end, n), calls).value == Range(s, objects, begin, end)
  {
    hide Compare, Catalogue, Untied, Range, ReverseBits, ByPartition, ListedByPartition, InOrderSplit, PositionOk,
      AllHonest;
    SplitAscendsIff(s, begin, end, n);
    SplitCovers(s, objects, begin, end, n);
    ListedIsByPartition(s, objects, Boundaries(s, begin, end, n), calls);
  }

  /** A split is no use at its first partition exactly when the cursor rests on an object and the split is
      finer than its hashes allow: that partition runs backwards, and listing it is refused. */
  lemma FirstPartitionRefused(s: Scope, begin: HObject, end: HObject, n: nat, limit: nat, serve: Server, fuel: nat)
    requires SplitOk(s, begin, end, n) && s.poolId != I64_MIN && n > 1 && !begin.max && 0 < limit <= MAX_ENTRIES
    ensures StartPosition(begin) <= FinishPosition(end)
    ensures var b := Boundaries(s, begin, end, n);
            var usable := Minimum(begin) || Difference(begin, end) >= n || Bare(begin);
            && (RequestOk(s, b[0], b[1], limit) <==> usable)
            && (!usable ==> Lt(b[1], b[0]) && Listed(s, b[0], b[1], limit, serve, fuel) == Err(Invalid))
  {
    hide Compare, ReverseBits, Minimum, Bare;
    FirstCut(s, begin, end, n);
    var b := Boundaries(s, begin, end, n);
    OrderLaws(b[0], b[1], begin);
    OrderLaws(b[1], b[0], begin);
  }

  /** Two cursors on objects of one hash, split in two: the cut lies before the first. */
  lemma SplitRunsBackwards(s: Scope, hash: U32)
    requires s.poolId != I64_MIN
    ensures var begin := HObject([], [97], NO_SNAP, hash, false, [], s.poolId);
            var end := begin.(name := [98]);
            SplitOk(s, begin, end, 2) && Lt(Boundaries(s, begin, end, 2)[1], begin)
  {
    var begin := HObject([], [97], NO_SNAP, hash, false, [], s.poolId);
    var end := begin.(name := [98]);
    assert Le(begin, end) by { hide ReverseBits; }
    hide Compare, ReverseBits;
    FirstPartitionRefused(s, begin, end, 2, 1, (t, cursor, k) => Err(Unreachable), 0);
  }
}
