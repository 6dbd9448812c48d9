/** Which draw decides a replica or a shard (src/crush/place.rs): the searches of first-n and indep
    selection under the certified tunables, told by the number of the draw that succeeds. */
module DrawOrder {
  import opened Wrappers
  import opened Arithmetic
  import opened CrushMap
  import opened Straw2
  import opened FirstN
  import opened Indep
  import opened CrushRule

  /** Where one descent without retries ends: at an empty bucket, at a device above the type asked
      for, or at an item of that type. */
  datatype Landing = Nowhere | TooLow | At(item: I32)

  ghost predicate Descends(e: Env, cur: I32) {
    GraphOk(e.crush) && WellShaped(e.crush) && cur in e.crush.buckets
  }

  /** The descent of draw `r`: the longest straw at every bucket on the way. */
  ghost function Lands(e: Env, target: int, seed: U32, cur: I32, r: U32): (l: Landing)
    requires Descends(e, cur)
    decreases Height(e.crush, cur)
  {
    hide GraphOk, IsHeight;
    var b := e.crush.buckets[cur];
    if b.items == [] then Nowhere
    else
      var item := b.items[Straw2Index(e, b, seed, r)];
      ItemsAreOk(e.crush, cur, item);
      if TypeOf(e.crush, item) == target then At(item)
      else if item >= 0 then TooLow
      else
        HeightDrops(e.crush, cur, item);
        Lands(e, target, seed, item, r)
  }

  /** For devices, the landing is what a pass of indep selection draws. */
  lemma {:induction false} LandsOnDevice(e: Env, seed: U32, cur: I32, r: U32)
    requires Descends(e, cur)
    ensures var d := Descent(e, seed, cur, r);
            Lands(e, 0, seed, cur, r) == if d.Some? then At(d.value) else Nowhere
    decreases Height(e.crush, cur)
  {
    hide GraphOk, IsHeight, Straw2Index;
    var b := e.crush.buckets[cur];
    if b.items == [] {
    } else {
      var item := b.items[Straw2Index(e, b, seed, r)];
      ItemsAreOk(e.crush, cur, item);
      if TypeOf(e.crush, item) != 0 {
        HeightDrops(e.crush, cur, item);
        LandsOnDevice(e, seed, item, r);
      }
    }
  }

  lemma {:induction false} LandingIsOfType(e: Env, target: int, seed: U32, cur: I32, r: U32)
    requires Descends(e, cur)
    ensures var l := Lands(e, target, seed, cur, r);
            l.At? ==> ItemOk(e.crush, l.item) && TypeOf(e.crush, l.item) == target
    decreases Height(e.crush, cur)
  {
    hide GraphOk, IsHeight, Straw2Index;
    var b := e.crush.buckets[cur];
    if b.items == [] {
    } else {
      var item := b.items[Straw2Index(e, b, seed, r)];
      ItemsAreOk(e.crush, cur, item);
      if TypeOf(e.crush, item) != target && item < 0 {
        HeightDrops(e.crush, cur, item);
        LandingIsOfType(e, target, seed, item, r);
      }
    }
  }

  /** No retry stays in the bucket where a draw failed. */
  predicate StartsOver(p: Params) {
    p.localRetries == 0 && p.fallback == 0
  }

  /** What draw number `base + t` gives the replica, told by its landing. */
  ghost function Trial(e: Env, p: Params, seed: U32, taken: seq<I32>, leaves: seq<I32>, base: nat, cur: I32,
                       t: nat): (v: Verdict)
    requires SearchReady(e, p, taken, base) && cur in e.crush.buckets && t <= p.tries
  {
    hide GraphOk, LeafOf, IsOut, Lands;
    LandingIsOfType(e, p.target, seed, cur, base + t);
    match Lands(e, p.target, seed, cur, base + t)
    case Nowhere => Failed(false)
    case TooLow => Barred
    case At(x) =>
      if x in taken then Failed(true)
      else if p.target == 0 && IsOut(e, x, seed) then Failed(false)
      else if p.leaf.NoLeaf? || x >= 0 then Accepted(x, x)
      else
        var leaf := LeafOf(e, p, seed, |taken|, leaves, base + t, x);
        if leaf.None? then Failed(false) else Accepted(x, leaf.value)
  }

  /** The search from any bucket on the way down: the landing of this draw decides, or the next draw
      starts from the root. */
  lemma {:induction false} SearchFollowsTrial(e: Env, p: Params, seed: U32, root: I32, taken: seq<I32>,
                                              leaves: seq<I32>, base: nat, cur: I32, t: nat)
    requires SearchReady(e, p, taken, base) && StartsOver(p) && t <= p.tries
    requires root in e.crush.buckets && cur in e.crush.buckets
    ensures Search(e, p, seed, root, taken, leaves, base, cur, t, 0) ==
            match Trial(e, p, seed, taken, leaves, base, cur, t)
            case Accepted(x, leaf) => Found(x, leaf)
            case Failed(_) => if t + 1 < p.tries then Search(e, p, seed, root, taken, leaves, base, root, t + 1, 0)
                              else Skip
            case _ => Skip
    decreases Height(e.crush, cur)
  {
    hide GraphOk, IsHeight, LeafOf, IsOut, Straw2Index;
    var b := e.crush.buckets[cur];
    if b.items == [] {
    } else {
      var item := b.items[Straw2Index(e, b, seed, base + t)];
      ItemsAreOk(e.crush, cur, item);
      if TypeOf(e.crush, item) != p.target && item < 0 {
        HeightDrops(e.crush, cur, item);
        SearchFollowsTrial(e, p, seed, root, taken, leaves, base, item, t);
      }
    }
  }

  /** Draw `t` settles the replica: every draw from `from` up to it has failed. */
  ghost predicate Settles(e: Env, p: Params, seed: U32, root: I32, taken: seq<I32>, leaves: seq<I32>, base: nat,
                          from: nat, t: nat, v: Verdict)
    requires SearchReady(e, p, taken, base) && root in e.crush.buckets
  {
    && from <= t <= p.tries && (t == from || t < p.tries)
    && Trial(e, p, seed, taken, leaves, base, root, t) == v
    && (forall u :: from <= u < t ==> Trial(e, p, seed, taken, leaves, base, root, u).Failed?)
  }

  /** Past a failed draw the same draw settles the replica. */
  lemma SettlesLater(e: Env, p: Params, seed: U32, root: I32, taken: seq<I32>, leaves: seq<I32>, base: nat,
                     from: nat, next: nat, v: Verdict)
    requires SearchReady(e, p, taken, base) && root in e.crush.buckets
    requires next == from + 1 < p.tries && !v.Failed?
    requires Trial(e, p, seed, taken, leaves, base, root, from).Failed?
    ensures (exists t: nat :: Settles(e, p, seed, root, taken, leaves, base, from, t, v)) <==>
            (exists t: nat :: Settles(e, p, seed, root, taken, leaves, base, next, t, v))
  {
    hide GraphOk, Trial, Moderate;
    forall t: nat ensures Settles(e, p, seed, root, taken, leaves, base, from, t, v) <==>
                          Settles(e, p, seed, root, taken, leaves, base, next, t, v)
    {
    }
  }

  /** The search of a replica finds what the first draw that does not fail accepts, and nothing else. */
  lemma {:induction false} SearchIsFirstTrial(e: Env, p: Params, seed: U32, root: I32, taken: seq<I32>,
                                              leaves: seq<I32>, base: nat, from: nat, x: I32, leaf: I32)
    requires SearchReady(e, p, taken, base) && StartsOver(p) && root in e.crush.buckets && from <= p.tries
    ensures Search(e, p, seed, root, taken, leaves, base, root, from, 0) == Found(x, leaf) <==>
            exists t: nat :: Settles(e, p, seed, root, taken, leaves, base, from, t, Accepted(x, leaf))
    decreases p.tries - from
  {
    hide GraphOk, Trial, Search, Moderate;
    SearchFollowsTrial(e, p, seed, root, taken, leaves, base, root, from);
    var v := Trial(e, p, seed, taken, leaves, base, root, from);
    if v.Failed? && from + 1 < p.tries {
      SearchIsFirstTrial(e, p, seed, root, taken, leaves, base, from + 1, x, leaf);
      SettlesLater(e, p, seed, root, taken, leaves, base, from, from + 1, Accepted(x, leaf));
    } else if v == Accepted(x, leaf) {
      assert Settles(e, p, seed, root, taken, leaves, base, from, from, Accepted(x, leaf));
    } else {
      forall t: nat ensures !Settles(e, p, seed, root, taken, leaves, base, from, t, Accepted(x, leaf)) {
        assert t > from && Settles(e, p, seed, root, taken, leaves, base, from, t, Accepted(x, leaf)) ==> v.Failed?;
      }
    }
  }

  /** The device draw `r` below `cur` gives, where it is free and not out. */
  ghost predicate Gives(e: Env, seed: U32, cur: I32, r: U32, taken: seq<I32>, x: I32)
    requires Descends(e, cur)
  {
    Descent(e, seed, cur, r) == Some(x) && x !in taken && !IsOut(e, x, seed)
  }

  /** Under the certified tunables a chosen bucket is represented by what one descent, numbered like
      the draw that chose the bucket, gives. */
  lemma LeafIsOneDescent(e: Env, p: Params, seed: U32, slot: nat, leaves: seq<I32>, r: nat, item: I32, x: I32)
    requires Descends(e, item) && Moderate(p) && StartsOver(p) && slot + r <= 0x7000_0000
    requires p.leaf == Leaf(1, 1, true)
    ensures LeafOf(e, p, seed, slot, leaves, r, item) == Some(x) <==> Gives(e, seed, item, r, leaves, x)
  {
    hide GraphOk, Lands, Descent, IsOut, Search;
    SearchFollowsTrial(e, LeafParams(p), seed, item, leaves, [], r, item, 0);
    LandsOnDevice(e, seed, item, r);
  }

  ghost predicate NoneGiven(e: Env, seed: U32, root: I32, r: U32, taken: seq<I32>)
    requires Descends(e, root)
  {
    forall y: I32 :: !Gives(e, seed, root, r, taken, y)
  }

  /** The 51 draws replica `n` may make: numbers `n` to `n + 50`. */
  predicate DrawOf(n: nat, r: int) {
    n <= r <= n + 50
  }

  /** Of the draws of replica `n`, number `r` is the first that gives a device, and it gives `x`. */
  ghost predicate FirstToGive(e: Env, seed: U32, root: I32, taken: seq<I32>, n: nat, r: int, x: I32)
    requires Descends(e, root) && n <= MAX_CERTIFIED_REPLICAS
  {
    && DrawOf(n, r) && Gives(e, seed, root, r, taken, x)
    && (forall u: U32 :: n <= u < r ==> NoneGiven(e, seed, root, u, taken))
  }

  ghost predicate DeviceReady(e: Env, p: Params, taken: seq<I32>, root: I32, n: nat) {
    && SearchReady(e, p, taken, n) && Descends(e, root) && n <= MAX_CERTIFIED_REPLICAS
    && p.target == 0 && p.leaf.NoLeaf? && p.tries == 51
  }

  lemma DeviceTrial(e: Env, p: Params, seed: U32, taken: seq<I32>, root: I32, n: nat, r: nat)
    requires DeviceReady(e, p, taken, root, n) && DrawOf(n, r)
    ensures var v := Trial(e, p, seed, taken, [], n, root, r - n);
            && (v.Failed? <==> NoneGiven(e, seed, root, r, taken))
            && forall x: I32 :: Gives(e, seed, root, r, taken, x) <==> v == Accepted(x, x)
  {
    hide GraphOk, Lands, Descent, IsOut;
    LandsOnDevice(e, seed, root, r);
    var v := Trial(e, p, seed, taken, [], n, root, r - n);
    assert v.Accepted? ==> Gives(e, seed, root, r, taken, v.item);
  }

  lemma DeviceSettles(e: Env, p: Params, seed: U32, taken: seq<I32>, root: I32, n: nat, r: nat, x: I32)
    requires DeviceReady(e, p, taken, root, n) && DrawOf(n, r)
    ensures Settles(e, p, seed, root, taken, [], n, 0, r - n, Accepted(x, x)) <==>
            FirstToGive(e, seed, root, taken, n, r, x)
  {
    hide GraphOk, Trial, Gives, NoneGiven, Moderate;
    DeviceTrial(e, p, seed, taken, root, n, r);
    forall u: U32 | n <= u < r
      ensures Trial(e, p, seed, taken, [], n, root, u - n).Failed? <==> NoneGiven(e, seed, root, u, taken)
    {
      DeviceTrial(e, p, seed, taken, root, n, u);
    }
    forall t: nat | t < r - n
      ensures Trial(e, p, seed, taken, [], n, root, t).Failed? <==> NoneGiven(e, seed, root, n + t, taken)
    {
      DeviceTrial(e, p, seed, taken, root, n, n + t);
    }
  }

  /** The search of a replica for a device finds what the first of its draws to give one gives. */
  lemma DeviceSearch(e: Env, p: Params, seed: U32, taken: seq<I32>, root: I32, n: nat, x: I32)
    requires DeviceReady(e, p, taken, root, n) && StartsOver(p)
    ensures Search(e, p, seed, root, taken, [], n, root, 0, 0) == Found(x, x) <==>
            exists r :: FirstToGive(e, seed, root, taken, n, r, x)
  {
    hide GraphOk, Search, Moderate, Settles, Gives;
    SearchIsFirstTrial(e, p, seed, root, taken, [], n, 0, x, x);
    if t: nat :| Settles(e, p, seed, root, taken, [], n, 0, t, Accepted(x, x)) {
      SettlesInTime(e, p, seed, root, taken, [], n, t, Accepted(x, x));
      DeviceSettles(e, p, seed, taken, root, n, n + t, x);
      assert FirstToGive(e, seed, root, taken, n, n + t, x);
    }
    if r :| FirstToGive(e, seed, root, taken, n, r, x) {
      DeviceSettles(e, p, seed, taken, root, n, r, x);
    }
  }

  lemma SettlesInTime(e: Env, p: Params, seed: U32, root: I32, taken: seq<I32>, leaves: seq<I32>, base: nat,
                      t: nat, v: Verdict)
    requires SearchReady(e, p, taken, base) && root in e.crush.buckets && p.tries > 0
    requires Settles(e, p, seed, root, taken, leaves, base, 0, t, v)
    ensures t < p.tries
  {
  }

  /** One more replica is one more search, from the number of the replica on. */
  lemma SelectionGrows(e: Env, rule: Rule, seed: U32, n: nat)
    requires PlaceReady(e, rule, n + 1) && rule.ruleType == RULE_TYPE_REPLICATED
    ensures var p, s := RuleParams(e.crush, rule), ReplicatedSelection(e, rule, seed, n);
            && SearchReady(e, p, s.items, n) && |s.items| == |s.leaves|
            && ReplicatedSelection(e, rule, seed, n + 1) ==
               Extended(s, Search(e, p, seed, Root(rule), s.items, Watched(p, s), n, Root(rule), 0, 0))
  {
    hide GraphOk, HasBucketType, Search;
    SizeIrrelevant(e, RuleParams(e.crush, rule), seed, Root(rule), n, n + 1, n);
  }

  ghost predicate Chooses(e: Env, rule: Rule, n: nat) {
    PlaceReady(e, rule, n) && rule.ruleType == RULE_TYPE_REPLICATED && rule.steps[1].operation == RULE_CHOOSE_FIRST_N
  }

  /** One more replica of a choose rule is the device of the first draw, from the replica's own
      number on, that is free and not out; none when 51 draws give none. */
  lemma NextReplica(e: Env, rule: Rule, seed: U32, n: nat, x: I32)
    requires Chooses(e, rule, n + 1)
    ensures var before, after := Placed(e, rule, seed, n), Placed(e, rule, seed, n + 1);
            && (after == before + [x] <==> exists r :: FirstToGive(e, seed, Root(rule), before, n, r, x))
            && (after == before || (|after| == |before| + 1 && before < after))
  {
    hide GraphOk, HasBucketType, Search, FirstToGive, Reaches, Selected;
    var p, root := RuleParams(e.crush, rule), Root(rule);
    var s := ReplicatedSelection(e, rule, seed, n);
    SelectionGrows(e, rule, seed, n);
    ReachesSelf(e.crush, root);
    SearchIsGood(e, p, seed, root, s.items, [], n, root, 0, 0);
    DeviceSearch(e, p, seed, s.items, root, n, x);
    var o := Search(e, p, seed, root, s.items, [], n, root, 0, 0);
    assert o.Found? ==> (s.items + [o.item])[|s.items|] == o.item;
  }

  /** Draw `r` gives a bucket of the target type that no replica has, and the same draw below that
      bucket gives the device `x`. */
  ghost predicate GivesBelow(e: Env, target: int, seed: U32, root: I32, r: U32, s: Selection, bucket: I32, x: I32)
    requires Descends(e, root)
  {
    && Lands(e, target, seed, root, r) == At(bucket) && bucket !in s.items
    && bucket in e.crush.buckets && Gives(e, seed, bucket, r, s.leaves, x)
  }

  /** Draw `r` ends the search of the replica: it meets a device above the target type. */
  ghost predicate MeetsDevice(e: Env, target: int, seed: U32, root: I32, r: U32)
    requires Descends(e, root)
  {
    Lands(e, target, seed, root, r).TooLow?
  }

  ghost predicate FirstToGiveBelow(e: Env, target: int, seed: U32, root: I32, s: Selection, n: nat, r: int,
                                   bucket: I32, x: I32)
    requires Descends(e, root) && n <= MAX_CERTIFIED_REPLICAS
  {
    && DrawOf(n, r) && GivesBelow(e, target, seed, root, r, s, bucket, x)
    && (forall u: U32 :: n <= u < r ==> NoneBelow(e, target, seed, root, u, s))
  }

  /** Draw `r` meets no device above the target type and gives no bucket. */
  ghost predicate NoneBelow(e: Env, target: int, seed: U32, root: I32, r: U32, s: Selection)
    requires Descends(e, root)
  {
    && !MeetsDevice(e, target, seed, root, r)
    && forall b: I32, x: I32 :: !GivesBelow(e, target, seed, root, r, s, b, x)
  }

  ghost predicate BucketReady(e: Env, p: Params, s: Selection, root: I32, n: nat) {
    && SearchReady(e, p, s.items, n) && Descends(e, root) && n <= MAX_CERTIFIED_REPLICAS
    && p.target > 0 && p.leaf == Leaf(1, 1, true) && p.tries == 51 && StartsOver(p)
  }

  lemma BucketTrial(e: Env, p: Params, seed: U32, s: Selection, root: I32, n: nat, r: nat)
    requires BucketReady(e, p, s, root, n) && DrawOf(n, r)
    ensures var v := Trial(e, p, seed, s.items, s.leaves, n, root, r - n);
            && (v.Failed? <==> NoneBelow(e, p.target, seed, root, r, s))
            && (forall b: I32, x: I32 :: GivesBelow(e, p.target, seed, root, r, s, b, x) <==> v == Accepted(b, x))
  {
    hide GraphOk, Lands, Gives, IsOut, LeafOf, Moderate;
    LandingIsOfType(e, p.target, seed, root, r);
    var l := Lands(e, p.target, seed, root, r);
    if l.At? {
      forall x: I32 ensures LeafOf(e, p, seed, |s.items|, s.leaves, r, l.item) == Some(x) <==>
                       Gives(e, seed, l.item, r, s.leaves, x)
      {
        LeafIsOneDescent(e, p, seed, |s.items|, s.leaves, r, l.item, x);
      }
    }
    var v := Trial(e, p, seed, s.items, s.leaves, n, root, r - n);
    assert v.Accepted? ==> GivesBelow(e, p.target, seed, root, r, s, v.item, v.leaf);
  }

  lemma BucketSettles(e: Env, p: Params, seed: U32, s: Selection, root: I32, n: nat, r: nat, b: I32, x: I32)
    requires BucketReady(e, p, s, root, n) && DrawOf(n, r)
    ensures Settles(e, p, seed, root, s.items, s.leaves, n, 0, r - n, Accepted(b, x)) <==>
            FirstToGiveBelow(e, p.target, seed, root, s, n, r, b, x)
  {
    hide GraphOk, Trial, GivesBelow, NoneBelow, Moderate;
    BucketTrial(e, p, seed, s, root, n, r);
    forall u: U32 | n <= u < r
      ensures Trial(e, p, seed, s.items, s.leaves, n, root, u - n).Failed? <==>
              NoneBelow(e, p.target, seed, root, u, s)
    {
      BucketTrial(e, p, seed, s, root, n, u);
    }
    forall t: nat | t < r - n
      ensures Trial(e, p, seed, s.items, s.leaves, n, root, t).Failed? <==>
              NoneBelow(e, p.target, seed, root, n + t, s)
    {
      BucketTrial(e, p, seed, s, root, n, n + t);
    }
  }

  /** The search of a replica for a bucket finds what the first of its draws to give one gives,
      unless a draw before it meets a device. */
  lemma BucketSearch(e: Env, p: Params, seed: U32, s: Selection, root: I32, n: nat, b: I32, x: I32)
    requires BucketReady(e, p, s, root, n)
    ensures Search(e, p, seed, root, s.items, s.leaves, n, root, 0, 0) == Found(b, x) <==>
            exists r :: FirstToGiveBelow(e, p.target, seed, root, s, n, r, b, x)
  {
    hide GraphOk, Search, Moderate, Settles, GivesBelow;
    SearchIsFirstTrial(e, p, seed, root, s.items, s.leaves, n, 0, b, x);
    if t: nat :| Settles(e, p, seed, root, s.items, s.leaves, n, 0, t, Accepted(b, x)) {
      SettlesInTime(e, p, seed, root, s.items, s.leaves, n, t, Accepted(b, x));
      BucketSettles(e, p, seed, s, root, n, n + t, b, x);
      assert FirstToGiveBelow(e, p.target, seed, root, s, n, n + t, b, x);
    }
    if r :| FirstToGiveBelow(e, p.target, seed, root, s, n, r, b, x) {
      BucketSettles(e, p, seed, s, root, n, r, b, x);
    }
  }

  /** One more replica of a chooseleaf rule is a bucket of the type and a device below it, both of
      the first draw, from the replica's own number on, that gives both. */
  lemma NextLeaf(e: Env, rule: Rule, seed: U32, n: nat, b: I32, x: I32)
    requires PlaceReady(e, rule, n + 1) && rule.ruleType == RULE_TYPE_REPLICATED
    requires rule.steps[1].operation == RULE_CHOOSELEAF_FIRST_N
    ensures var before, after := ReplicatedSelection(e, rule, seed, n), ReplicatedSelection(e, rule, seed, n + 1);
            && (after == Selection(before.items + [b], before.leaves + [x]) <==>
                exists r :: FirstToGiveBelow(e, rule.steps[1].argument2, seed, Root(rule), before, n, r, b, x))
            && (after == before || (|after.items| == |before.items| + 1
                                    && before.items < after.items && before.leaves < after.leaves))
    ensures Placed(e, rule, seed, n) == ReplicatedSelection(e, rule, seed, n).leaves
  {
    hide GraphOk, HasBucketType, Search, FirstToGiveBelow, Selected;
    var p, root := RuleParams(e.crush, rule), Root(rule);
    var s := ReplicatedSelection(e, rule, seed, n);
    SelectionGrows(e, rule, seed, n);
    BucketSearch(e, p, seed, s, root, n, b, x);
    var o := Search(e, p, seed, root, s.items, s.leaves, n, root, 0, 0);
    assert o.Found? ==> (s.items + [o.item])[|s.items|] == o.item && (s.leaves + [o.leaf])[|s.items|] == o.leaf;
  }

  /** Which device pass `f` puts into slot `k`: the one that draw number `position + k + replicas * f`
      gives, unless a slot holds it; a slot filled before stays as it is. */
  lemma {:induction false} PassDraws(e: Env, q: Query, slots: seq<I32>, f: nat, k: nat, i: nat, r: U32, x: I32)
    requires QueryReady(e, q, |slots|) && f <= MAX_CERTIFIED_RETRIES && i < |slots| && k <= |slots|
    requires r == q.position + i + q.replicas * f && x != ITEM_NONE
    ensures var done := Pass(e, q, slots, f, k);
            if i >= k || slots[i] != ITEM_NONE then done[i] == slots[i]
            else done[i] == x <==> Gives(e, q.seed, q.root, r, done[..i] + slots[i..], x)
  {
    hide GraphOk, IsOut, Descent;
    if k == 0 {
    } else {
      PassDraws(e, q, slots, f, k - 1, i, r, x);
      var before, done := Pass(e, q, slots, f, k - 1), Pass(e, q, slots, f, k);
      if i + 1 == k {
        PassTail(e, q, slots, f, i);
        assert before == before[..i] + before[i..];
        assert done[..i] == before[..i];
      } else if i + 1 < k {
        assert done[..i] == before[..i];
      }
    }
  }

  /** A pass has not touched the slots it has not reached. */
  lemma {:induction false} PassTail(e: Env, q: Query, slots: seq<I32>, f: nat, k: nat)
    requires QueryReady(e, q, |slots|) && f <= MAX_CERTIFIED_RETRIES && k <= |slots|
    ensures Pass(e, q, slots, f, k)[k..] == slots[k..]
  {
    hide GraphOk, Filling;
    if k == 0 {
    } else {
      PassTail(e, q, slots, f, k - 1);
      var before := Pass(e, q, slots, f, k - 1);
      assert before[k..] == before[k - 1..][1..];
    }
  }

  lemma DrawNumberFits(q: Query, i: nat, f: nat)
    requires q.position <= MAX_SLOTS && q.replicas <= MAX_SLOTS && i <= MAX_SLOTS && f < MAX_CERTIFIED_RETRIES
    ensures 0 <= q.position + i + q.replicas * f < 0x1_0000_0000
  {
    MulMonotone(q.replicas, MAX_SLOTS, f);
  }

  /** Pass `f` finds slot `i` of `n` empty and fills it with what its draw number gives, which no slot
      holds at that moment. */
  ghost predicate Fills(e: Env, q: Query, n: nat, f: nat, i: nat, x: I32)
    requires QueryReady(e, q, n) && f < MAX_CERTIFIED_RETRIES && i < n
  {
    hide GraphOk, WellShaped, Passes, Gives;
    DrawNumberFits(q, i, f);
    && Passes(e, q, n, f)[i] == ITEM_NONE
    && Gives(e, q.seed, q.root, q.position + i + q.replicas * f,
             Passes(e, q, n, f + 1)[..i] + Passes(e, q, n, f)[i..], x)
  }

  /** A slot holds a device exactly when some pass has filled it with that device. */
  lemma {:induction false} SlotFilledBy(e: Env, q: Query, n: nat, g: nat, i: nat, x: I32)
    requires QueryReady(e, q, n) && g <= MAX_CERTIFIED_RETRIES && i < n && x != ITEM_NONE
    ensures Passes(e, q, n, g)[i] == x <==> exists f: nat | f < g :: Fills(e, q, n, f, i, x)
  {
    hide GraphOk, Pass, Gives;
    if g == 0 {
    } else {
      SlotFilledBy(e, q, n, g - 1, i, x);
      DrawNumberFits(q, i, g - 1);
      var r := q.position + i + q.replicas * (g - 1);
      PassDraws(e, q, Passes(e, q, n, g - 1), g - 1, n, i, r, x);
      if Passes(e, q, n, g - 1)[i] == ITEM_NONE {
        assert Passes(e, q, n, g)[i] == x ==> Fills(e, q, n, g - 1, i, x);
      }
    }
  }

  /** Shard `i` of an erasure rule over `n` shards is the device of draw number `i + n * f`, for the
      one of the first 100 passes that fills it. */
  lemma ShardFilledBy(e: Env, rule: Rule, seed: U32, n: nat, i: nat, x: I32)
    requires PlaceReady(e, rule, n) && rule.ruleType == RULE_TYPE_ERASURE && i < n && x != ITEM_NONE
    ensures Placed(e, rule, seed, n)[i] == x <==>
            exists f: nat | f < 100 :: Fills(e, Query(seed, Root(rule), n, 0), n, f, i, x)
  {
    hide GraphOk, HasBucketType, Fills, Passes;
    SlotFilledBy(e, Query(seed, Root(rule), n, 0), n, 100, i, x);
  }
}
