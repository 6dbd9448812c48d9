/** The CRUSH hierarchy and the depth-first search that admits it
    (src/crush/map.rs). */
module CrushMap {
  import opened Wrappers

  const MAX_CERTIFIED_DEPTH: nat := 64

  const RULE_TAKE: U32 := 1
  const RULE_CHOOSE_FIRST_N: U32 := 2
  const RULE_CHOOSE_INDEP: U32 := 3
  const RULE_EMIT: U32 := 4
  const RULE_CHOOSELEAF_FIRST_N: U32 := 6
  const RULE_SET_CHOOSE_TRIES: U32 := 8
  const RULE_SET_CHOOSELEAF_TRIES: U32 := 9
  const RULE_TYPE_REPLICATED: nat := 1
  const RULE_TYPE_ERASURE: nat := 3

  datatype Bucket = Bucket(id: I32, bucketType: nat, items: seq<I32>, itemWeights: seq<U32>)

  datatype RuleStep = RuleStep(operation: U32, argument1: I32, argument2: I32)

  datatype Rule = Rule(ruleType: nat, steps: seq<RuleStep>)

  datatype Map = Map(
    maxDevices: I32,
    buckets: map<I32, Bucket>,
    rules: map<U32, Rule>,
    chooseLocalTries: nat,
    chooseLocalFallbackTries: nat,
    chooseTotalTries: nat,
    chooseleafDescendOnce: nat,
    chooseleafVaryR: nat,
    strawCalcVersion: nat,
    allowedBucketAlgorithms: nat,
    chooseleafStable: nat,
    msrDescents: nat,
    msrCollisionTries: nat,
    classShadowBuckets: set<I32>)

  datatype GraphError = Malformed | DepthExceeded

  /** `b` is a bucket item of bucket `a`; an item of at least zero is a device. */
  predicate Child(m: Map, a: I32, b: I32) {
    a in m.buckets && b < 0 && b in m.buckets[a].items
  }

  /** A descent through the hierarchy: every element is a bucket and each is an item of the one before. */
  ghost predicate IsChain(m: Map, c: seq<I32>) {
    && |c| > 0
    && (forall i :: 0 <= i < |c| ==> c[i] in m.buckets)
    && (forall i :: 0 < i < |c| ==> Child(m, c[i - 1], c[i]))
  }

  ghost predicate IsChainFrom(m: Map, x: I32, c: seq<I32>) {
    IsChain(m, c) && c[0] == x
  }

  predicate ItemOk(m: Map, item: I32) {
    if item >= 0 then item < m.maxDevices else item in m.buckets
  }

  predicate ItemsOk(m: Map, b: Bucket) {
    forall i :: 0 <= i < |b.items| ==> ItemOk(m, b.items[i])
  }

  ghost predicate Dangling(m: Map) {
    exists x :: x in m.buckets && !ItemsOk(m, m.buckets[x])
  }

  ghost predicate Cyclic(m: Map) {
    exists c :: IsChain(m, c) && |c| > 1 && c[0] == c[|c| - 1]
  }

  ghost predicate TooDeep(m: Map) {
    exists c :: IsChain(m, c) && |c| > 64
  }

  /** The graphs a placement may descend. Every item names a bucket or a device in range, nothing
      is its own descendant and no chain of buckets is longer than the certified depth of 64. */
  ghost predicate GraphOk(m: Map) {
    !Dangling(m) && !Cyclic(m) && !TooDeep(m)
  }

  /** `h` is the length of the longest chain that starts at `x`. */
  ghost predicate IsHeight(m: Map, x: I32, h: nat) {
    && (forall c :: IsChainFrom(m, x, c) ==> |c| <= h)
    && (exists c :: IsChainFrom(m, x, c) && |c| == h)
  }

  lemma ChainConcat(m: Map, a: seq<I32>, b: seq<I32>)
    requires IsChain(m, b)
    requires a == [] || (IsChain(m, a) && Child(m, a[|a| - 1], b[0]))
    ensures IsChain(m, a + b)
  {
  }

  lemma ChainSuffix(m: Map, c: seq<I32>, k: nat)
    requires IsChain(m, c) && k < |c|
    ensures IsChain(m, c[k..])
  {
  }

  /** A bucket that is its own descendant can be descended for ever. */
  lemma {:induction false} CycleUnwinds(m: Map, c: seq<I32>, n: nat) returns (d: seq<I32>)
    requires IsChain(m, c) && |c| > 1 && c[0] == c[|c| - 1]
    ensures IsChain(m, d) && |d| > n && d[0] == c[0]
  {
    if n == 0 {
      d := c;
    } else {
      var e := CycleUnwinds(m, c, n - 1);
      var front := c[..|c| - 1];
      assert c == front + [c[|c| - 1]];
      assert IsChain(m, front) by {
        forall i | 0 < i < |front| ensures Child(m, front[i - 1], front[i]) {
          assert Child(m, c[i - 1], c[i]);
        }
      }
      assert Child(m, c[|c| - 2], c[|c| - 1]);
      ChainConcat(m, front, e);
      d := front + e;
    }
  }

  /** The search `validate_graph` runs: 1 marks a bucket on the current descent, 2 a finished
      one whose height is recorded. */
  class GraphWalk {
    const m: Map
    var states: map<I32, nat>
    var heights: map<I32, nat>

    constructor (m: Map)
      ensures this.m == m && states == map[] && heights == map[]
    {
      this.m := m;
      states := map[];
      heights := map[];
    }

    predicate Done(x: I32)
      reads this
    {
      x in states && states[x] == 2 && x in heights
    }

    /** The finished buckets are exactly measured, and `path` is the descent in progress. */
    ghost predicate Valid(path: seq<I32>)
      reads this
    {
      && (path == [] || IsChain(m, path))
      && (forall x :: x in states ==> x in m.buckets && (states[x] == 1 || Done(x)))
      && (forall x :: x in path <==> x in states && states[x] == 1)
      && (forall x :: Done(x) ==>
            IsHeight(m, x, heights[x]) && ItemsOk(m, m.buckets[x]))
    }

    /** The outcome of a successful visit at `depth`. */
    ghost predicate Measured(path: seq<I32>, id: I32, depth: nat, height: nat)
      reads this
    {
      Valid(path) && Done(id) && heights[id] == height && depth + height <= MAX_CERTIFIED_DEPTH + 1
    }

    method VisitBucket(id: I32, depth: nat, ghost path: seq<I32>) returns (r: Result<nat, GraphError>)
      requires Valid(path)
      requires depth == |path| + 1 <= MAX_CERTIFIED_DEPTH + 1
      requires id in m.buckets
      requires path != [] ==> Child(m, path[|path| - 1], id)
      modifies this
      ensures r.Ok? ==> Measured(path, id, depth, r.value)
      ensures r.Ok? ==> forall x :: old(Done(x)) ==> Done(x) && heights[x] == old(heights[x])
      ensures r == Err(Malformed) ==> Dangling(m) || Cyclic(m)
      ensures r == Err(DepthExceeded) ==> TooDeep(m)
      decreases MAX_CERTIFIED_DEPTH + 1 - depth, 1
    {
      hide IsHeight, IsChain, ItemsOk;
      ChainGrows(m, path, id);
      if depth > MAX_CERTIFIED_DEPTH {
        return Err(DepthExceeded);
      }
      if id in states {
        if states[id] == 1 {
          BackEdge(m, path, id);
          return Err(Malformed);
        }
        var height := heights[id];
        if depth + height - 1 > MAX_CERTIFIED_DEPTH {
          LongDescent(m, path, id, height);
          return Err(DepthExceeded);
        }
        return Ok(height);
      }
      r := VisitItems(id, depth, path);
    }

    method VisitItems(id: I32, depth: nat, ghost path: seq<I32>) returns (r: Result<nat, GraphError>)
      requires Valid(path)
      requires depth == |path| + 1 <= MAX_CERTIFIED_DEPTH
      requires id in m.buckets && id !in states
      requires IsChain(m, path + [id])
      modifies this
      ensures r.Ok? ==> Measured(path, id, depth, r.value)
      ensures r.Ok? ==> forall x :: old(Done(x)) ==> Done(x) && heights[x] == old(heights[x])
      ensures r == Err(Malformed) ==> Dangling(m) || Cyclic(m)
      ensures r == Err(DepthExceeded) ==> TooDeep(m)
      decreases MAX_CERTIFIED_DEPTH + 1 - depth, 0
    {
      hide IsHeight, IsChain, IsChainFrom, ItemsOk, Valid;
      var bucket := m.buckets[id];
      Begin(id, path);
      var height := 1;
      ghost var deepest := ChainOfOne(m, id);
      for k := 0 to |bucket.items|
        invariant Valid(path + [id])
        invariant forall x :: old(Done(x)) ==> Done(x) && heights[x] == old(heights[x])
        invariant forall j :: 0 <= j < k ==> ItemOk(m, bucket.items[j])
        invariant forall j :: 0 <= j < k && bucket.items[j] < 0 ==>
                    Done(bucket.items[j]) && heights[bucket.items[j]] < height
        invariant IsChainFrom(m, id, deepest) && |deepest| == height
        invariant depth + height - 1 <= MAX_CERTIFIED_DEPTH
      {
        var item := bucket.items[k];
        if !ItemOk(m, item) {
          BrokenItem(m, id, k);
          return Err(Malformed);
        }
        if item < 0 {
          var child := VisitBucket(item, depth + 1, path + [id]);
          if child.Err? {
            return child;
          }
          if child.value + 1 > height {
            DoneIsMeasured(path + [id], item);
            deepest := ChainThrough(m, id, item, child.value);
            height := child.value + 1;
          }
        }
      }
      ItemsMeasured(path + [id], id, height, deepest);
      Settle(id, height, path);
      return Ok(height);
    }

    lemma DoneIsMeasured(path: seq<I32>, x: I32)
      requires Valid(path) && Done(x)
      ensures IsHeight(m, x, heights[x])
    {
    }

    lemma ItemsMeasured(path: seq<I32>, id: I32, height: nat, deepest: seq<I32>)
      requires Valid(path) && id in m.buckets
      requires forall x :: x in m.buckets[id].items ==>
                 ItemOk(m, x) && (x < 0 ==> Done(x) && heights[x] < height)
      requires IsChainFrom(m, id, deepest) && |deepest| == height
      ensures IsHeight(m, id, height) && ItemsOk(m, m.buckets[id])
    {
      HeightFromItems(m, id, heights, height, deepest);
    }

    method Begin(id: I32, ghost path: seq<I32>)
      requires Valid(path) && id !in states && IsChain(m, path + [id])
      modifies this`states
      ensures states == old(states)[id := 1] && Valid(path + [id])
      ensures id !in path && (path == [] || IsChain(m, path))
    {
      states := states[id := 1];
      assert forall x :: x in path + [id] <==> x in path || x == id;
    }

    method Settle(id: I32, height: nat, ghost path: seq<I32>)
      requires Valid(path + [id]) && id !in path && (path == [] || IsChain(m, path))
      requires IsHeight(m, id, height) && ItemsOk(m, m.buckets[id])
      modifies this
      ensures states == old(states)[id := 2] && heights == old(heights)[id := height]
      ensures Valid(path)
    {
      states := states[id := 2];
      heights := heights[id := height];
      assert forall x :: x in path + [id] <==> x in path || x == id;
    }
  }

  lemma ChainOfOne(m: Map, id: I32) returns (c: seq<I32>)
    requires id in m.buckets
    ensures c == [id] && IsChainFrom(m, id, c)
  {
    c := [id];
  }

  lemma ChainGrows(m: Map, path: seq<I32>, id: I32)
    requires id in m.buckets
    requires path == [] || (IsChain(m, path) && Child(m, path[|path| - 1], id))
    ensures IsChain(m, path + [id]) && IsChainFrom(m, id, [id])
    ensures |path| >= MAX_CERTIFIED_DEPTH ==> TooDeep(m)
    ensures forall x :: x in path + [id] <==> x in path || x == id
  {
  }

  lemma BrokenItem(m: Map, id: I32, k: nat)
    requires id in m.buckets && k < |m.buckets[id].items| && !ItemOk(m, m.buckets[id].items[k])
    ensures Dangling(m)
  {
  }

  lemma ChainThrough(m: Map, id: I32, item: I32, h: nat) returns (c: seq<I32>)
    requires id in m.buckets && Child(m, id, item) && IsHeight(m, item, h)
    ensures IsChainFrom(m, id, c) && |c| == h + 1
  {
    var d :| IsChainFrom(m, item, d) && |d| == h;
    ChainConcat(m, [id], d);
    c := [id] + d;
  }

  lemma BackEdge(m: Map, path: seq<I32>, id: I32)
    requires id in path && IsChain(m, path + [id])
    ensures Cyclic(m)
  {
    var k :| 0 <= k < |path| && path[k] == id;
    ChainSuffix(m, path + [id], k);
    var c := (path + [id])[k..];
    assert c[0] == id && c[|c| - 1] == id;
  }

  lemma LongDescent(m: Map, path: seq<I32>, id: I32, height: nat)
    requires path == [] || (IsChain(m, path) && Child(m, path[|path| - 1], id))
    requires IsHeight(m, id, height) && |path| + height > MAX_CERTIFIED_DEPTH
    ensures TooDeep(m)
  {
    var c :| IsChainFrom(m, id, c) && |c| == height;
    ChainConcat(m, path, c);
    assert |path + c| > MAX_CERTIFIED_DEPTH;
  }

  /** One more than the highest bucket item is the height of the bucket that holds them. */
  lemma HeightFromItems(m: Map, id: I32, heights: map<I32, nat>, height: nat, deepest: seq<I32>)
    requires id in m.buckets
    requires forall x :: x < 0 && x in m.buckets[id].items ==>
               x in heights && IsHeight(m, x, heights[x]) && heights[x] < height
    requires forall i :: 0 <= i < |m.buckets[id].items| ==> ItemOk(m, m.buckets[id].items[i])
    requires IsChainFrom(m, id, deepest) && |deepest| == height
    ensures IsHeight(m, id, height) && ItemsOk(m, m.buckets[id])
  {
    forall c | IsChainFrom(m, id, c) ensures |c| <= height {
      if |c| > 1 {
        assert Child(m, c[0], c[1]);
        ChainSuffix(m, c, 1);
        assert IsChainFrom(m, c[1], c[1..]);
      }
    }
  }

  /** `validate_graph`: the memoised search accepts exactly the graphs above, whatever the order
      in which buckets are visited, and each refusal names a defect that is really there. */
  method ValidateGraph(m: Map) returns (r: Result<(), GraphError>)
    ensures r.Ok? <==> GraphOk(m)
    ensures r == Err(Malformed) ==> Dangling(m) || Cyclic(m)
    ensures r == Err(DepthExceeded) ==> TooDeep(m)
  {
    var walk := new GraphWalk(m);
    var pending := m.buckets.Keys;
    while pending != {}
      invariant walk.m == m && pending <= m.buckets.Keys
      invariant walk.Valid([])
      invariant forall x :: x in m.buckets && x !in pending ==> walk.Done(x) && walk.heights[x] <= MAX_CERTIFIED_DEPTH
      decreases |pending|
    {
      var id :| id in pending;
      pending := pending - {id};
      var h := walk.VisitBucket(id, 1, []);
      if h.Err? {
        assert h.error == Malformed || h.error == DepthExceeded;
        return Err(h.error);
      }
    }
    AllMeasured(m, walk.heights);
    return Ok(());
  }

  lemma AllMeasured(m: Map, heights: map<I32, nat>)
    requires forall x :: x in m.buckets ==>
               && ItemsOk(m, m.buckets[x]) && x in heights && IsHeight(m, x, heights[x])
               && heights[x] <= MAX_CERTIFIED_DEPTH
    ensures GraphOk(m)
  {
    forall c | IsChain(m, c) ensures |c| <= MAX_CERTIFIED_DEPTH {
      assert IsChainFrom(m, c[0], c);
    }
    if Cyclic(m) {
      var c :| IsChain(m, c) && |c| > 1 && c[0] == c[|c| - 1];
      var d := CycleUnwinds(m, c, MAX_CERTIFIED_DEPTH);
    }
  }

  lemma {:induction false} HeightExists(m: Map, x: I32, bound: nat)
    requires x in m.buckets
    requires forall c :: IsChainFrom(m, x, c) ==> |c| <= bound
    ensures exists h :: IsHeight(m, x, h)
  {
    assert IsChainFrom(m, x, [x]);
    if exists c :: IsChainFrom(m, x, c) && |c| == bound {
      assert IsHeight(m, x, bound);
    } else {
      HeightExists(m, x, bound - 1);
    }
  }

  /** The height of a bucket; the measure on which every descent terminates. */
  ghost function Height(m: Map, x: I32): (h: nat)
    requires GraphOk(m) && x in m.buckets
    ensures IsHeight(m, x, h)
  {
    HeightExists(m, x, MAX_CERTIFIED_DEPTH);
    var h :| IsHeight(m, x, h);
    h
  }

  lemma HeightDrops(m: Map, a: I32, b: I32)
    requires GraphOk(m) && Child(m, a, b)
    ensures b in m.buckets && Height(m, b) < Height(m, a)
  {
    assert ItemsOk(m, m.buckets[a]);
    var i :| 0 <= i < |m.buckets[a].items| && m.buckets[a].items[i] == b;
    assert ItemOk(m, m.buckets[a].items[i]);
    var c := ChainThrough(m, a, b, Height(m, b));
  }

  /** The hierarchy can be descended from `anc` to `x`. */
  ghost predicate Reaches(m: Map, anc: I32, x: I32) {
    exists c :: IsChainFrom(m, anc, c) && c[|c| - 1] == x
  }

  /** `x` is an item of `anc` or of a bucket below it. */
  ghost predicate Below(m: Map, anc: I32, x: I32) {
    exists b :: b in m.buckets && Reaches(m, anc, b) && x in m.buckets[b].items
  }

  lemma ReachesSelf(m: Map, x: I32)
    requires x in m.buckets
    ensures Reaches(m, x, x)
  {
    assert IsChainFrom(m, x, [x]);
  }

  lemma ReachesChild(m: Map, anc: I32, b: I32, x: I32)
    requires Reaches(m, anc, b) && Child(m, b, x) && x in m.buckets
    ensures Reaches(m, anc, x)
  {
    var c :| IsChainFrom(m, anc, c) && c[|c| - 1] == b;
    ChainConcat(m, c, [x]);
    assert IsChainFrom(m, anc, c + [x]);
  }

  lemma ReachesOn(m: Map, a: I32, b: I32, x: I32)
    requires Reaches(m, a, b) && Reaches(m, b, x)
    ensures Reaches(m, a, x)
  {
    var c :| IsChainFrom(m, a, c) && c[|c| - 1] == b;
    var d :| IsChainFrom(m, b, d) && d[|d| - 1] == x;
    if |d| > 1 {
      assert Child(m, d[0], d[1]);
      ChainSuffix(m, d, 1);
      ChainConcat(m, c, d[1..]);
      assert IsChainFrom(m, a, c + d[1..]);
    }
  }

  lemma BelowOn(m: Map, a: I32, b: I32, x: I32)
    requires Below(m, a, b) && b < 0 && b in m.buckets && Below(m, b, x)
    ensures Below(m, a, x)
  {
    hide Reaches;
    var p :| p in m.buckets && Reaches(m, a, p) && b in m.buckets[p].items;
    var q :| q in m.buckets && Reaches(m, b, q) && x in m.buckets[q].items;
    ReachesChild(m, a, p, b);
    ReachesOn(m, a, b, q);
  }
}
