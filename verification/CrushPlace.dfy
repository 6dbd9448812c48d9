/** The retrying descent itself (src/crush/place.rs): the loops that fill the output slots, proved
    to compute what FirstN and Indep specify. */
module CrushPlace {
  import opened Wrappers
  import opened CrushMap
  import opened Straw2
  import opened Shuffle
  import opened FirstN
  import opened Indep

  /** The chosen devices kept beside the first `n` output slots, when they are kept. */
  ghost function Prefix(a: array?<I32>, n: nat): (s: seq<I32>)
    requires a != null ==> n <= a.Length
    reads a
  {
    if a == null then [] else a[..n]
  }

  class Placement {
    const e: Env
    var permutations: map<I32, Permutation>

    constructor (e: Env)
      ensures this.e == e && Valid()
    {
      this.e := e;
      permutations := map[];
    }

    /** Every cached shuffle is one the eager shuffle would reach. */
    ghost predicate Valid()
      reads this
    {
      forall x :: x in permutations ==>
        && x in e.crush.buckets && 0 < |e.crush.buckets[x].items| < TWO_32
        && PermutationOk(e, e.crush.buckets[x], permutations[x])
    }

    method PermutationChoose(bucket: I32, seed: U32, r: nat) returns (item: I32)
      requires Valid() && WellShaped(e.crush)
      requires bucket in e.crush.buckets && e.crush.buckets[bucket].items != []
      modifies this
      ensures Valid()
      ensures item == e.crush.buckets[bucket].items[ShuffledSlot(e, e.crush.buckets[bucket], seed, r)]
    {
      hide ShuffledSlot;
      var b := e.crush.buckets[bucket];
      var state := if b.id in permutations then permutations[b.id]
                   else Permutation(0, 0, seq(|b.items|, _ => 0));
      item, state := ChooseFrom(e, b, seed, r, state);
      permutations := permutations[b.id := state];
    }

    /** One draw in bucket `cur`, with the leaf search it may need. */
    method DrawOnce(p: Params, seed: U32, output: array<I32>, position: nat, count: nat,
                    leaves: array?<I32>, base: nat, cur: I32, total: nat, local: nat)
      returns (v: Verdict)
      requires Valid() && position < position + count <= output.Length
      requires StepReady(e, p, output[..position], base, cur, total, local)
      requires if p.leaf.Leaf? then leaves != null && leaves != output
          && leaves.Length == output.Length else leaves == null
      modifies this, leaves
      ensures Valid()
      ensures v == old(DrawVerdict(e, p, seed, output[..position], Prefix(leaves, position), base, cur, total, local))
      ensures Prefix(leaves, position) == old(Prefix(leaves, position))
      ensures leaves != null && v.Accepted? ==> leaves[position] == v.leaf
      decreases if p.leaf.Leaf? then 2 else 0, 0
    {
      hide GraphOk, LeafOf, IsOut, ShuffledSlot, Straw2Index;
      var b := e.crush.buckets[cur];
      if b.items == [] {
        return Failed(false);
      }
      var item;
      if p.fallback > 0 && local >= |b.items| / 2 && local > p.fallback {
        item := PermutationChoose(cur, seed, base + total);
      } else {
        item := Straw2Choose(e, b, seed, base + total);
      }
      if !ItemOk(e.crush, item) {
        return Barred;
      }
      if TypeOf(e.crush, item) != p.target {
        return if item >= 0 then Barred else Deeper(item);
      }
      var collide := item in output[..position];
      if collide {
        return Failed(true);
      }
      var leaf := item;
      if p.leaf.Leaf? {
        if item < 0 {
          var found := FindLeaf(p, seed, leaves, position, count, base + total, item);
          if !found {
            return Failed(false);
          }
          leaf := leaves[position];
        } else {
          leaves[position] := item;
        }
      }
      if TypeOf(e.crush, item) == 0 && IsOut(e, item, seed) {
        return Failed(false);
      }
      return Accepted(item, leaf);
    }

    /** Follows bucket `item` down to a device, which goes into the leaf slot. */
    method FindLeaf(p: Params, seed: U32, leaves: array<I32>, position: nat, count: nat, r: nat, item: I32)
      returns (found: bool)
      requires Valid() && position < position + count <= leaves.Length
      requires GraphOk(e.crush) && WellShaped(e.crush) && Moderate(p) && item in e.crush.buckets
      requires p.leaf.Leaf? && position + r < 0x7000_0000
      modifies this, leaves
      ensures Valid() && leaves[..position] == old(leaves[..position])
      ensures var leaf := old(LeafOf(e, p, seed, position, leaves[..position], r, item));
              found == leaf.Some? && (found ==> leaves[position] == leaf.value)
      decreases 1
    {
      hide GraphOk, Search;
      ghost var kept := leaves[..position];
      ghost var o := Search(e, LeafParams(p), seed, item, kept, [], LeafBase(p, position, r), item, 0, 0);
      var first := (if p.leaf.stable then 0 else position) + SubR(r, p.leaf.varyR);
      var chosen := ChooseFirstN(LeafParams(p), seed, item, leaves, position, count, null, first, 1);
      assert leaves[..chosen] == Extended(Selection(kept, []), o).items;
      assert leaves[..position] == leaves[..chosen][..position];
      found := chosen > position;
    }

    /** The two nested retry loops for one replica. */
    method PlaceReplica(p: Params, seed: U32, root: I32, output: array<I32>, position: nat, count: nat,
                        leaves: array?<I32>, base: nat)
      returns (item: I32, skip: bool)
      requires Valid() && position < position + count <= output.Length
      requires SearchReady(e, p, output[..position], base) && root in e.crush.buckets
      requires if p.leaf.Leaf? then leaves != null && leaves != output
          && leaves.Length == output.Length else leaves == null
      modifies this, leaves
      ensures Valid()
      ensures var o := old(Search(e, p, seed, root, output[..position], Prefix(leaves, position), base, root, 0, 0));
              skip == o.Skip? && (o.Found? ==> item == o.item && (leaves != null ==> leaves[position] == o.leaf))
      ensures Prefix(leaves, position) == old(Prefix(leaves, position))
      decreases if p.leaf.Leaf? then 2 else 0, 1
    {
      hide GraphOk, DrawVerdict, IsHeight;
      ghost var taken := output[..position];
      ghost var kept := Prefix(leaves, position);
      ghost var goal := Search(e, p, seed, root, taken, kept, base, root, 0, 0);
      var total := 0;
      skip := false;
      item := ITEM_NONE;
      var retryDescent := true;
      while retryDescent
        invariant Valid() && Prefix(leaves, position) == kept && output[..position] == taken
        invariant retryDescent ==>
            !skip && total <= p.tries && Search(e, p, seed, root, taken, kept, base, root, total, 0) == goal
        invariant !retryDescent ==> skip == goal.Skip?
        invariant !retryDescent && !skip ==> item == goal.item && (leaves != null ==> leaves[position] == goal.leaf)
        decreases retryDescent, p.tries - total
      {
        retryDescent := false;
        var current := root;
        var local := 0;
        var retryBucket := true;
        ghost var before := total;
        while retryBucket
          invariant Valid() && Prefix(leaves, position) == kept && output[..position] == taken
          invariant before <= total && (retryDescent ==> before < total < p.tries)
          invariant retryBucket ==> !skip && !retryDescent && StepReady(e, p, taken, base, current, total, local)
          invariant retryBucket ==> Search(e, p, seed, root, taken, kept, base, current, total, local) == goal
          invariant retryDescent ==> !skip && Search(e, p, seed, root, taken, kept, base, root, total, 0) == goal
          invariant !retryBucket && !retryDescent ==> skip == goal.Skip?
          invariant !retryBucket && !retryDescent && !skip ==>
                      item == goal.item && (leaves != null ==> leaves[position] == goal.leaf)
          decreases retryBucket, MAX_LOCAL - local, if current in e.crush.buckets then Height(e.crush, current) else 0
        {
          retryBucket := false;
          var v := DrawOnce(p, seed, output, position, count, leaves, base, current, total, local);
          match v
          case Barred =>
            skip := true;
          case Deeper(child) =>
            HeightDrops(e.crush, current, child);
            current := child;
            retryBucket := true;
          case Failed(collide) =>
            total := total + 1;
            local := local + 1;
            if (collide && local <= p.localRetries)
               || (p.fallback > 0 && local <= |e.crush.buckets[current].items| + p.fallback) {
              retryBucket := true;
            } else if total < p.tries {
              retryDescent := true;
            } else {
              skip := true;
            }
          case Accepted(chosen, _) =>
            item := chosen;
        }
      }
    }

    /** `choose_first_n`: replicas from number `replica` on are placed from `position` on; returns
        the position after the last one placed. */
    method ChooseFirstN(p: Params, seed: U32, root: I32, output: array<I32>, outputPosition: nat, outputSize: nat,
                        leaves: array?<I32>, first: nat, n: nat)
      returns (position: nat)
      requires Valid() && outputPosition + outputSize <= output.Length
      requires if p.leaf.Leaf? then leaves != null && leaves != output
          && leaves.Length == output.Length else leaves == null
      requires SelectionReady(e, p, Selection(output[..outputPosition], Prefix(leaves, outputPosition)), first, n)
      requires root in e.crush.buckets
      modifies this, output, leaves
      ensures Valid() && outputPosition <= position <= output.Length
      ensures var start := old(Selection(output[..outputPosition], Prefix(leaves, outputPosition)));
              var s := Selected(e, p, seed, root, start, first, outputSize, n);
              output[..position] == s.items && (leaves != null ==> leaves[..position] == s.leaves)
      decreases if p.leaf.Leaf? then 2 else 0, 2
    {
      hide GraphOk, Search, IsHeight;
      ghost var start := Selection(output[..outputPosition], Prefix(leaves, outputPosition));
      position := outputPosition;
      var count := outputSize;
      for replica := 0 to n
        invariant Valid() && leaves != output && position + count == outputPosition + outputSize
            && outputPosition <= position
        invariant output[..position] == Selected(e, p, seed, root, start, first, outputSize, replica).items
        invariant leaves != null ==>
            leaves[..position] == Selected(e, p, seed, root, start, first, outputSize, replica).leaves
      {
        if count == 0 {
          FullStays(e, p, seed, root, start, first, outputSize, replica, n);
          break;
        }
        ghost var before := Selected(e, p, seed, root, start, first, outputSize, replica);
        var item, skip := PlaceReplica(p, seed, root, output, position, count, leaves, first + replica);
        if skip {
          continue;
        }
        output[position] := item;
        assert output[..position + 1] == before.items + [item];
        assert leaves != null ==> leaves[..position + 1] == before.leaves + [leaves[position]];
        position := position + 1;
        count := count - 1;
      }
    }

    /** The descent of one empty slot, to a device that is free and in. */
    method FillSlot(seed: U32, root: I32, output: array<I32>, from: nat, end: nat, r: U32) returns (item: I32)
      requires GraphOk(e.crush) && WellShaped(e.crush) && root in e.crush.buckets
      requires from <= end <= output.Length
      ensures item == Filling(e, seed, root, r, output[from..end])
    {
      hide GraphOk, IsHeight, IsOut, Straw2Index;
      var current := root;
      while true
        invariant current in e.crush.buckets
        invariant Descent(e, seed, current, r) == Descent(e, seed, root, r)
        decreases Height(e.crush, current)
      {
        var b := e.crush.buckets[current];
        if b.items == [] {
          return ITEM_NONE;
        }
        item := Straw2Choose(e, b, seed, r);
        ItemsAreOk(e.crush, current, item);
        if TypeOf(e.crush, item) != 0 {
          HeightDrops(e.crush, current, item);
          current := item;
          continue;
        }
        if item in output[from..end] || IsOut(e, item, seed) {
          return ITEM_NONE;
        }
        return item;
      }
    }

    /** `choose_indep` for devices: `left` always counts the empty slots, so it never underflows. */
    method ChooseIndep(q: Query, output: array<I32>, count: nat, tries: nat)
      requires QueryReady(e, q, count) && q.position + count <= output.Length && tries <= MAX_CERTIFIED_RETRIES
      modifies output
      ensures output[q.position..q.position + count] == Passes(e, q, count, tries)
      ensures forall i :: 0 <= i < output.Length && !(q.position <= i < q.position + count) ==>
          output[i] == old(output[i])
    {
      hide QueryReady, Filling, GoodSlots;
      var from, end := q.position, q.position + count;
      var left := count;
      for position := from to end
        invariant forall i :: from <= i < position ==> output[i] == ITEM_NONE
        invariant forall i :: 0 <= i < output.Length && !(from <= i < end) ==> output[i] == old(output[i])
      {
        output[position] := ITEM_NONE;
      }
      assert output[from..end] == Passes(e, q, count, 0);
      AllEmpty(count);
      var failure := 0;
      while left > 0 && failure < tries
        invariant failure <= tries
        invariant output[from..end] == Passes(e, q, count, failure)
        invariant left == Empty(output[from..end])
        invariant forall i :: 0 <= i < output.Length && !(from <= i < end) ==> output[i] == old(output[i])
        decreases tries - failure
      {
        left := OnePass(q, output, count, failure, left);
        failure := failure + 1;
      }
      NoneEmpty(output[from..end]);
      if left == 0 {
        FullIsFinal(e, q, count, failure, tries);
      }
    }

    method OnePass(q: Query, output: array<I32>, count: nat, failure: nat, left: nat) returns (remaining: nat)
      requires QueryReady(e, q, count) && q.position + count <= output.Length && failure <= MAX_CERTIFIED_RETRIES
      requires left == Empty(output[q.position..q.position + count])
      modifies output
      ensures output[q.position..q.position + count]
          == Pass(e, q, old(output[q.position..q.position + count]), failure, count)
      ensures remaining == Empty(output[q.position..q.position + count])
      ensures forall i :: 0 <= i < output.Length && !(q.position <= i < q.position + count) ==>
          output[i] == old(output[i])
    {
      hide GraphOk, Filling, WellShaped, DrawNumber, Empty;
      var from, end := q.position, q.position + count;
      ghost var slots := output[from..end];
      remaining := left;
      for k := 0 to count
        invariant output[from..end] == Pass(e, q, slots, failure, k)
        invariant remaining == Empty(output[from..end])
        invariant forall i :: 0 <= i < output.Length && !(from <= i < end) ==> output[i] == old(output[i])
      {
        ghost var before := output[from..end];
        assert before[k] == output[from + k];
        if output[from + k] != ITEM_NONE {
          continue;
        }
        var item := FillSlot(q.seed, q.root, output, from, end, DrawNumber(q.position, k, q.replicas, failure));
        if item != ITEM_NONE {
          FillOne(before, k, item);
          output[from + k] := item;
          assert output[from..end] == before[k := item];
          remaining := remaining - 1;
        }
        assert output[from..end] == before[k := item];
      }
    }
  }
}
