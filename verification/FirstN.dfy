/** What first-n selection chooses (the specification behind `choose_first_n` in
    src/crush/place.rs), and what is true of every choice. */
module FirstN {
  import opened Wrappers
  import opened CrushMap
  import opened Straw2
  import opened Shuffle

  const MAX_CERTIFIED_RETRIES: nat := 1000

  /** Whether and how a chosen bucket is followed down to a device. */
  datatype LeafMode = NoLeaf | Leaf(tries: nat, varyR: nat, stable: bool)

  datatype Params = Params(target: I32, tries: nat, localRetries: nat, fallback: nat, leaf: LeafMode)

  /** One replica is skipped, or finds an item and the device that represents it. */
  datatype Outcome = Skip | Found(item: I32, leaf: I32)

  /** Retry counts as the decoder admits them. */
  predicate Moderate(p: Params) {
    && p.tries <= MAX_CERTIFIED_RETRIES
    && p.localRetries <= MAX_CERTIFIED_RETRIES
    && p.fallback <= MAX_CERTIFIED_RETRIES
    && (p.leaf.Leaf? ==> p.leaf.tries <= MAX_CERTIFIED_RETRIES)
  }

  /** More failures than one descent can collect before it starts again from the root. */
  const MAX_LOCAL: nat := MAX_ITEMS + MAX_CERTIFIED_RETRIES

  predicate IsOut(e: Env, item: I32, seed: U32) {
    || item < 0
    || item >= |e.weights|
    || (e.weights[item] < 0x1_0000
        && (e.weights[item] == 0 || e.hashPair(seed, item) % 0x1_0000 >= e.weights[item]))
  }

  /** A device of weight `w` is out for the share of seeds whose hash has low 16 bits of at least `w`:
      for all of them at weight zero, for none at full weight. */
  lemma OutByWeight(e: Env, item: I32, seed: U32)
    requires 0 <= item < |e.weights|
    ensures IsOut(e, item, seed) <==> e.hashPair(seed, item) % 0x1_0000 >= e.weights[item]
  {
  }

  /** A device that may hold data: inside the map and not weighted out. */
  predicate Usable(e: Env, item: I32) {
    0 <= item < e.crush.maxDevices && item < |e.weights| && e.weights[item] != 0
  }

  function TypeOf(m: Map, item: I32): (t: int)
    requires ItemOk(m, item)
  {
    if item < 0 then m.buckets[item].bucketType else 0
  }

  /** `r >> (vary_r - 1)`, or nothing when retries do not vary. */
  function SubR(r: nat, varyR: nat): (s: nat)
    ensures s <= r
  {
    if varyR == 0 then 0 else if varyR == 1 then r else SubR(r / 2, varyR - 1)
  }

  predicate UsesShuffle(b: Bucket, local: nat, fallback: nat) {
    fallback > 0 && local >= |b.items| / 2 && local > fallback
  }

  /** The item a descent takes at one bucket. */
  function Pick(e: Env, b: Bucket, seed: U32, r: U32, local: nat, fallback: nat): (item: I32)
    requires 0 < |b.items| == |b.itemWeights| <= MAX_ITEMS
    ensures item in b.items
  {
    if UsesShuffle(b, local, fallback) then b.items[ShuffledSlot(e, b, seed, r)]
    else b.items[Straw2Index(e, b, seed, r)]
  }

  /** A failed draw is repeated in the same bucket, not from the root. */
  predicate RetriesHere(p: Params, b: Bucket, local: nat, collide: bool) {
    (collide && local <= p.localRetries) || (p.fallback > 0 && local <= |b.items| + p.fallback)
  }

  ghost predicate SearchReady(e: Env, p: Params, taken: seq<I32>, base: nat) {
    && GraphOk(e.crush) && WellShaped(e.crush) && Moderate(p)
    && base <= 0x7000_0000
    && (p.leaf.Leaf? ==> base + |taken| <= 0x1000_0000)
  }

  function LeafParams(p: Params): (q: Params)
    requires p.leaf.Leaf?
  {
    Params(0, p.leaf.tries, p.localRetries, p.fallback, NoLeaf)
  }

  function LeafBase(p: Params, slot: nat, r: nat): (base: nat)
    requires p.leaf.Leaf?
    ensures base <= slot + r
  {
    (if p.leaf.stable then 0 else slot) + SubR(r, p.leaf.varyR)
  }

  /** What one draw in one bucket leads to: the replica is given up, the descent goes one bucket
      deeper, the draw has failed, or it has succeeded. */
  datatype Verdict = Barred | Deeper(child: I32) | Failed(collide: bool) | Accepted(item: I32, leaf: I32)

  ghost predicate StepReady(e: Env, p: Params, taken: seq<I32>, base: nat, cur: I32, total: nat, local: nat) {
    && SearchReady(e, p, taken, base) && cur in e.crush.buckets
    && local <= MAX_LOCAL && total <= p.tries + local
  }

  ghost function DrawVerdict(e: Env, p: Params, seed: U32, taken: seq<I32>, leaves: seq<I32>,
                             base: nat, cur: I32, total: nat, local: nat): (v: Verdict)
    requires StepReady(e, p, taken, base, cur, total, local)
    ensures v.Deeper? ==> Child(e.crush, cur, v.child) && v.child in e.crush.buckets
    decreases if p.leaf.Leaf? then 2 else 0, if total < p.tries then p.tries - total else 0,
              MAX_LOCAL - local, Height(e.crush, cur), 0
  {
    hide GraphOk, IsHeight, Pick, LeafOf, IsOut;
    var b := e.crush.buckets[cur];
    if b.items == [] then Failed(false)
    else
      var item := Pick(e, b, seed, base + total, local, p.fallback);
      if !ItemOk(e.crush, item) then Barred
      else if TypeOf(e.crush, item) != p.target then (if item >= 0 then Barred else Deeper(item))
      else if item in taken then Failed(true)
      else
        var leaf := if p.leaf.NoLeaf? || item >= 0 then Some(item)
                    else LeafOf(e, p, seed, |taken|, leaves, base + total, item);
        if leaf.None? || (TypeOf(e.crush, item) == 0 && IsOut(e, item, seed)) then Failed(false)
        else Accepted(item, leaf.value)
  }

  /** The search of one replica from bucket `cur`, after `total` failures in all and `local`
      failures since the last start from `root`. */
  ghost function Search(e: Env, p: Params, seed: U32, root: I32, taken: seq<I32>, leaves: seq<I32>,
                        base: nat, cur: I32, total: nat, local: nat): (o: Outcome)
    requires StepReady(e, p, taken, base, cur, total, local) && root in e.crush.buckets
    decreases if p.leaf.Leaf? then 2 else 0, if total < p.tries then p.tries - total else 0,
              MAX_LOCAL - local, Height(e.crush, cur), 1
  {
    hide GraphOk, IsHeight;
    match DrawVerdict(e, p, seed, taken, leaves, base, cur, total, local)
    case Barred => Skip
    case Deeper(child) =>
      HeightDrops(e.crush, cur, child);
      Search(e, p, seed, root, taken, leaves, base, child, total, local)
    case Failed(collide) =>
      if RetriesHere(p, e.crush.buckets[cur], local + 1, collide)
      then Search(e, p, seed, root, taken, leaves, base, cur, total + 1, local + 1)
      else if total + 1 < p.tries then Search(e, p, seed, root, taken, leaves, base, root, total + 1, 0)
      else Skip
    case Accepted(item, leaf) => Found(item, leaf)
  }

  /** The device that stands for a chosen bucket; none when the bucket yields no device. */
  ghost function LeafOf(e: Env, p: Params, seed: U32, slot: nat, leaves: seq<I32>, r: nat,
                        item: I32): (leaf: Option<I32>)
    requires GraphOk(e.crush) && WellShaped(e.crush) && Moderate(p) && item in e.crush.buckets
    requires p.leaf.Leaf? && slot + r <= 0x7000_0000
    decreases 1
  {
    match Search(e, LeafParams(p), seed, item, leaves, [], LeafBase(p, slot, r), item, 0, 0)
    case Skip => None
    case Found(device, _) => Some(device)
  }

  /** What every found replica satisfies. */
  ghost predicate GoodOutcome(e: Env, p: Params, root: I32, taken: seq<I32>, leaves: seq<I32>, o: Outcome) {
    o.Found? ==>
      && ItemOk(e.crush, o.item) && TypeOf(e.crush, o.item) == p.target
      && o.item !in taken
      && Below(e.crush, root, o.item)
      && (p.target == 0 ==> Usable(e, o.item))
      && (p.leaf.NoLeaf? || o.item >= 0 ==> o.leaf == o.item)
      && (p.leaf.Leaf? && o.item < 0 ==>
            Usable(e, o.leaf) && o.leaf !in leaves && Below(e.crush, o.item, o.leaf))
  }

  lemma {:induction false} VerdictIsGood(e: Env, p: Params, seed: U32, root: I32, taken: seq<I32>, leaves: seq<I32>,
                                         base: nat, cur: I32, total: nat, local: nat)
    requires StepReady(e, p, taken, base, cur, total, local) && Reaches(e.crush, root, cur)
    ensures var v := DrawVerdict(e, p, seed, taken, leaves, base, cur, total, local);
            v.Accepted? ==> GoodOutcome(e, p, root, taken, leaves, Found(v.item, v.leaf))
    decreases if p.leaf.Leaf? then 2 else 0, 0
  {
    hide GraphOk, IsOut, Pick, Reaches;
    var b := e.crush.buckets[cur];
    if b.items != [] {
      var item := Pick(e, b, seed, base + total, local, p.fallback);
      if ItemOk(e.crush, item) {
        assert Below(e.crush, root, item);
        OutOrUsable(e, item, seed);
        if p.leaf.Leaf? && item < 0 {
          LeafIsGood(e, p, seed, |taken|, leaves, base + total, item);
        }
      }
    }
  }

  lemma OutOrUsable(e: Env, item: I32, seed: U32)
    requires ItemOk(e.crush, item)
    ensures IsOut(e, item, seed) || Usable(e, item)
  {
  }

  lemma {:induction false} SearchIsGood(e: Env, p: Params, seed: U32, root: I32, taken: seq<I32>, leaves: seq<I32>,
                                        base: nat, cur: I32, total: nat, local: nat)
    requires StepReady(e, p, taken, base, cur, total, local)
    requires root in e.crush.buckets && Reaches(e.crush, root, cur)
    ensures GoodOutcome(e, p, root, taken, leaves, Search(e, p, seed, root, taken, leaves, base, cur, total, local))
    decreases if p.leaf.Leaf? then 2 else 0, 1, if total < p.tries then p.tries - total else 0,
              MAX_LOCAL - local, Height(e.crush, cur)
  {
    hide GraphOk, IsHeight, Reaches, GoodOutcome, DrawVerdict;
    VerdictIsGood(e, p, seed, root, taken, leaves, base, cur, total, local);
    SkipIsGood(e, p, root, taken, leaves);
    match DrawVerdict(e, p, seed, taken, leaves, base, cur, total, local)
    case Barred =>
    case Accepted(_, _) =>
    case Deeper(child) =>
      HeightDrops(e.crush, cur, child);
      ReachesChild(e.crush, root, cur, child);
      SearchIsGood(e, p, seed, root, taken, leaves, base, child, total, local);
    case Failed(collide) =>
      if RetriesHere(p, e.crush.buckets[cur], local + 1, collide) {
        SearchIsGood(e, p, seed, root, taken, leaves, base, cur, total + 1, local + 1);
      } else if total + 1 < p.tries {
        ReachesSelf(e.crush, root);
        SearchIsGood(e, p, seed, root, taken, leaves, base, root, total + 1, 0);
      }
  }

  lemma SkipIsGood(e: Env, p: Params, root: I32, taken: seq<I32>, leaves: seq<I32>)
    ensures GoodOutcome(e, p, root, taken, leaves, Skip)
  {
  }

  lemma {:induction false} LeafIsGood(e: Env, p: Params, seed: U32, slot: nat, leaves: seq<I32>, r: nat, item: I32)
    requires GraphOk(e.crush) && WellShaped(e.crush) && Moderate(p) && item in e.crush.buckets
    requires p.leaf.Leaf? && slot + r <= 0x7000_0000
    ensures var leaf := LeafOf(e, p, seed, slot, leaves, r, item);
            leaf.Some? ==> Usable(e, leaf.value) && leaf.value !in leaves && Below(e.crush, item, leaf.value)
    decreases 1
  {
    ReachesSelf(e.crush, item);
    SearchIsGood(e, LeafParams(p), seed, item, leaves, [], LeafBase(p, slot, r), item, 0, 0);
  }

  /** The replicas chosen so far and the device that stands for each. */
  datatype Selection = Selection(items: seq<I32>, leaves: seq<I32>)

  const NOTHING := Selection([], [])

  ghost predicate SelectionReady(e: Env, p: Params, start: Selection, first: nat, n: nat) {
    && GraphOk(e.crush) && WellShaped(e.crush) && Moderate(p)
    && first + n <= 0x7000_0000
    && (p.leaf.Leaf? ==> first + |start.items| + 2 * n <= 0x1000_0000)
  }

  /** The selection after `n` replicas, the first of which draws from position `first`; `size` is
      the room left in the output. */
  ghost function Selected(e: Env, p: Params, seed: U32, root: I32, start: Selection, first: nat, size: nat,
                          n: nat): (s: Selection)
    requires SelectionReady(e, p, start, first, n) && root in e.crush.buckets
    ensures |start.items| <= |s.items| <= |start.items| + n
    ensures |s.items| <= |start.items| + size
    ensures |start.items| == |start.leaves| ==> |s.items| == |s.leaves|
  {
    if n == 0 then start
    else
      hide GraphOk;
      var before := Selected(e, p, seed, root, start, first, size, n - 1);
      if |before.items| == |start.items| + size then before
      else Extended(before, Search(e, p, seed, root, before.items, Watched(p, before), first + n - 1, root, 0, 0))
  }

  /** The devices a leaf search must avoid. */
  function Watched(p: Params, s: Selection): (leaves: seq<I32>) {
    if p.leaf.Leaf? then s.leaves else []
  }

  function Extended(s: Selection, o: Outcome): (t: Selection) {
    if o.Found? then Selection(s.items + [o.item], s.leaves + [o.leaf]) else s
  }

  predicate Distinct(s: seq<I32>) {
    forall i, j :: 0 <= i < j < |s| ==> s[i] != s[j]
  }

  /** Replicas on different devices that may hold data, below the root; when buckets of a type were
      asked for, the devices come from different buckets of that type. */
  ghost predicate GoodSelection(e: Env, p: Params, root: I32, s: Selection) {
    && |s.items| == |s.leaves|
    && Distinct(s.items) && Distinct(s.leaves)
    && (forall i :: 0 <= i < |s.leaves| ==> Usable(e, s.leaves[i]))
    && (forall i :: 0 <= i < |s.items| ==>
          && ItemOk(e.crush, s.items[i]) && TypeOf(e.crush, s.items[i]) == p.target
          && Below(e.crush, root, s.items[i])
          && (p.leaf.Leaf? ==> Below(e.crush, s.items[i], s.leaves[i]))
          && (p.leaf.NoLeaf? ==> s.leaves[i] == s.items[i]))
  }

  lemma ExtendedIsGood(e: Env, p: Params, root: I32, s: Selection, o: Outcome)
    requires if p.leaf.Leaf? then p.target > 0 else p.target == 0
    requires GoodSelection(e, p, root, s) && GoodOutcome(e, p, root, s.items, Watched(p, s), o)
    ensures GoodSelection(e, p, root, Extended(s, o))
  {
    hide Below, Usable;
  }

  lemma {:induction false} SelectedIsGood(e: Env, p: Params, seed: U32, root: I32, size: nat, n: nat)
    requires SelectionReady(e, p, NOTHING, 0, n) && root in e.crush.buckets
    requires if p.leaf.Leaf? then p.target > 0 else p.target == 0
    ensures GoodSelection(e, p, root, Selected(e, p, seed, root, NOTHING, 0, size, n))
  {
    hide GraphOk, GoodSelection, GoodOutcome, WellShaped, Search, Extended, Moderate, Reaches;
    if n == 0 {
      NothingIsGood(e, p, root);
    } else {
      SelectedIsGood(e, p, seed, root, size, n - 1);
      var before := Selected(e, p, seed, root, NOTHING, 0, size, n - 1);
      if |before.items| != size {
        ReachesSelf(e.crush, root);
        SearchIsGood(e, p, seed, root, before.items, Watched(p, before), n - 1, root, 0, 0);
        ExtendedIsGood(e, p, root, before,
          Search(e, p, seed, root, before.items, Watched(p, before), n - 1, root, 0, 0));
      }
    }
  }

  lemma NothingIsGood(e: Env, p: Params, root: I32)
    ensures GoodSelection(e, p, root, NOTHING)
  {
  }

  /** A full output ends the selection. */
  lemma {:induction false} FullStays(e: Env, p: Params, seed: U32, root: I32, start: Selection, first: nat, size: nat,
                                     n: nat, m: nat)
    requires SelectionReady(e, p, start, first, m) && root in e.crush.buckets && n <= m
    requires |Selected(e, p, seed, root, start, first, size, n).items| == |start.items| + size
    ensures Selected(e, p, seed, root, start, first, size, m) == Selected(e, p, seed, root, start, first, size, n)
  {
    hide GraphOk, Search, WellShaped;
    if n == m {
    } else {
      FullStays(e, p, seed, root, start, first, size, n, m - 1);
    }
  }

  /** While the output is not full its size does not influence the choice. */
  lemma {:induction false} SizeIrrelevant(e: Env, p: Params, seed: U32, root: I32, size: nat, size': nat, n: nat)
    requires SelectionReady(e, p, NOTHING, 0, n) && root in e.crush.buckets
    requires n <= size && n <= size'
    ensures Selected(e, p, seed, root, NOTHING, 0, size, n) == Selected(e, p, seed, root, NOTHING, 0, size', n)
  {
    hide GraphOk, Search, WellShaped;
    if n == 0 {
    } else {
      SizeIrrelevant(e, p, seed, root, size, size', n - 1);
    }
  }

  /** Asking for more replicas keeps every replica chosen for fewer, in its place. */
  lemma {:induction false} MoreReplicasExtend(e: Env, p: Params, seed: U32, root: I32, n: nat, m: nat)
    requires n <= m && SelectionReady(e, p, NOTHING, 0, m) && root in e.crush.buckets
    ensures var few := Selected(e, p, seed, root, NOTHING, 0, n, n);
            var many := Selected(e, p, seed, root, NOTHING, 0, m, m);
            few.items <= many.items && few.leaves <= many.leaves
  {
    hide GraphOk, Search, WellShaped;
    if n == m {
    } else {
      MoreReplicasExtend(e, p, seed, root, n, m - 1);
      SizeIrrelevant(e, p, seed, root, m - 1, m, m - 1);
    }
  }
}
