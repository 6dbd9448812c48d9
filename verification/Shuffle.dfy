/** The bucket permutation that fallback retries walk through (src/crush/place.rs): an eager
    Fisher-Yates shuffle, and the cached state from which the placement computes it lazily. */
module Shuffle {
  import opened Wrappers
  import opened CrushMap
  import opened Arithmetic
  import opened Straw2

  /** The count that marks a state in which only the first slot has been drawn. */
  const ONE_ITEM: nat := 0xffff

  function Identity(n: nat): (s: seq<nat>) {
    seq(n, i => i)
  }

  function Swapped(s: seq<nat>, i: nat, j: nat): (t: seq<nat>)
    requires i < |s| && j < |s|
  {
    s[i := s[j]][j := s[i]]
  }

  /** How far ahead of slot `k` the shuffle reaches for its occupant. */
  function Offset(e: Env, b: Bucket, seed: U32, k: nat): (o: nat)
    requires k < |b.items| < TWO_32
    ensures k + o < |b.items|
  {
    e.hashTriple(seed, CastUnsigned(b.id), k) % (|b.items| - k)
  }

  /** The first `k` slots of a Fisher-Yates shuffle settled, from scratch. */
  function Shuffled(e: Env, b: Bucket, seed: U32, k: nat): (s: seq<nat>)
    requires k <= |b.items| < TWO_32
    ensures |s| == |b.items|
  {
    if k == 0 then Identity(|b.items|)
    else Swapped(Shuffled(e, b, seed, k - 1), k - 1, k - 1 + Offset(e, b, seed, k - 1))
  }

  /** The slot the eager shuffle assigns to replica `r`. */
  function ShuffledSlot(e: Env, b: Bucket, seed: U32, r: nat): (slot: nat)
    requires 0 < |b.items| < TWO_32
    ensures slot < |b.items|
  {
    ShuffledIsPermutation(e, b, seed, r % |b.items| + 1);
    Shuffled(e, b, seed, r % |b.items| + 1)[r % |b.items|]
  }

  ghost predicate IsPermutation(s: seq<nat>) {
    && (forall i :: 0 <= i < |s| ==> s[i] < |s|)
    && (forall i, j :: 0 <= i < j < |s| ==> s[i] != s[j])
  }

  lemma {:induction false} ShuffledIsPermutation(e: Env, b: Bucket, seed: U32, k: nat)
    requires k <= |b.items| < TWO_32
    ensures IsPermutation(Shuffled(e, b, seed, k))
  {
    if k == 0 {
    } else {
      ShuffledIsPermutation(e, b, seed, k - 1);
    }
  }

  /** Settling slot `p` exchanges it with the slot that the hash of its number picks among those from
      `p` on. */
  lemma SlotDrawn(e: Env, b: Bucket, seed: U32, p: nat, i: nat)
    requires p < |b.items| < TWO_32 && i < |b.items|
    ensures var before, after := Shuffled(e, b, seed, p), Shuffled(e, b, seed, p + 1);
            var id := if b.id < 0 then b.id + 0x1_0000_0000 else b.id;
            var k := p + e.hashTriple(seed, id, p) % (|b.items| - p);
            && Shuffled(e, b, seed, 0)[i] == i
            && after[i] == if i == p then before[k] else if i == k then before[p] else before[i]
  {
  }

  /** A settled slot stays settled. */
  lemma {:induction false} SlotSettled(e: Env, b: Bucket, seed: U32, p: nat, k: nat)
    requires p < k <= |b.items| < TWO_32
    ensures Shuffled(e, b, seed, k)[p] == Shuffled(e, b, seed, p + 1)[p]
  {
    if p + 1 == k {
    } else {
      SlotSettled(e, b, seed, p, k - 1);
    }
  }

  function Slots(n: nat): (all: set<nat>)
    ensures |all| == n && forall x: nat :: x in all <==> x < n
  {
    if n == 0 then {} else Slots(n - 1) + {n - 1}
  }

  function Elements(s: seq<nat>): (held: set<nat>)
    ensures forall x :: x in held <==> x in s
  {
    if s == [] then {} else {s[0]} + Elements(s[1..])
  }

  lemma {:induction false} DistinctSize(s: seq<nat>)
    requires forall i, j :: 0 <= i < j < |s| ==> s[i] != s[j]
    ensures |Elements(s)| == |s|
  {
    if s == [] {
    } else {
      DistinctSize(s[1..]);
      assert s[0] !in s[1..];
    }
  }

  /** A permutation of the slots holds every slot. */
  lemma PermutationCovers(s: seq<nat>, slot: nat)
    requires IsPermutation(s) && slot < |s|
    ensures slot in s
  {
    hide Elements, Slots;
    var held, all := Elements(s), Slots(|s|);
    DistinctSize(s);
    assert held <= all;
    assert |all| == |held| + |all - held| by { assert all == held + (all - held); }
    assert all - held == {};
    assert slot in all;
  }

  /** Consecutive replicas, as many as the bucket has items, visit every slot ... */
  lemma ConsecutiveReplicasCover(e: Env, b: Bucket, seed: U32, r: nat, slot: nat) returns (i: nat)
    requires slot < |b.items| < TWO_32
    ensures i < |b.items| && ShuffledSlot(e, b, seed, r + i) == slot
  {
    hide Shuffled, IsPermutation;
    var n := |b.items|;
    var s := Shuffled(e, b, seed, n);
    ShuffledIsPermutation(e, b, seed, n);
    PermutationCovers(s, slot);
    var p :| 0 <= p < n && s[p] == slot;
    i := StepsTo(r, n, p);
    SlotSettled(e, b, seed, p, n);
  }

  /** How far after `r` the next number with remainder `p` lies. */
  lemma StepsTo(r: nat, n: nat, p: nat) returns (i: nat)
    requires p < n
    ensures i < n && (r + i) % n == p
  {
    var q, k := r / n, r % n;
    assert r == q * n + k;
    i := if k <= p then p - k else p + n - k;
    if k <= p {
      RemainderUnique(r + i, n, q, p);
    } else {
      assert (q + 1) * n == q * n + n;
      RemainderUnique(r + i, n, q + 1, p);
    }
  }

  /** ... and no slot twice: each exactly once. */
  lemma ConsecutiveReplicasDiffer(e: Env, b: Bucket, seed: U32, r: nat, i: nat, j: nat)
    requires 0 < |b.items| < TWO_32 && i < j < |b.items|
    ensures ShuffledSlot(e, b, seed, r + i) != ShuffledSlot(e, b, seed, r + j)
  {
    var n := |b.items|;
    var p, q := (r + i) % n, (r + j) % n;
    ModDiffers(r + i, j - i, n);
    SlotSettled(e, b, seed, p, n);
    SlotSettled(e, b, seed, q, n);
    ShuffledIsPermutation(e, b, seed, n);
  }

  lemma FirstSlot(e: Env, b: Bucket, seed: U32, k: nat)
    requires 0 < k <= |b.items| < TWO_32
    ensures Shuffled(e, b, seed, k)[0] == Offset(e, b, seed, 0)
    ensures Shuffled(e, b, seed, 0) == Identity(|b.items|)
  {
    SlotSettled(e, b, seed, 0, k);
    assert Shuffled(e, b, seed, 1) == Swapped(Identity(|b.items|), 0, Offset(e, b, seed, 0));
  }

  /** The cached state of one bucket's shuffle. */
  datatype Permutation = Permutation(seed: U32, count: nat, items: seq<nat>)

  ghost predicate PermutationOk(e: Env, b: Bucket, p: Permutation)
    requires 0 < |b.items| < TWO_32
  {
    && |p.items| == |b.items|
    && (p.count == ONE_ITEM ==> p.items[0] == Offset(e, b, p.seed, 0))
    && (p.count != 0 && p.count != ONE_ITEM ==>
          p.count <= |b.items| && p.items == Shuffled(e, b, p.seed, p.count))
  }

  /** Rebuilds the full state behind a state that holds only its first slot. */
  method ExpandFirst(e: Env, b: Bucket, p: Permutation) returns (q: Permutation)
    requires 0 < |b.items| < TWO_32 && |p.items| == |b.items|
    requires p.items[0] == Offset(e, b, p.seed, 0)
    ensures q.seed == p.seed && q.count == 1 && q.items == Shuffled(e, b, p.seed, 1)
  {
    var items := p.items;
    for index := 1 to |items|
      invariant |items| == |b.items| && items[0] == p.items[0]
      invariant forall i :: 1 <= i < index ==> items[i] == i
    {
      items := items[index := index];
    }
    var first := items[0];
    items := items[first := 0];
    assert Shuffled(e, b, p.seed, 1) == Swapped(Identity(|b.items|), 0, first);
    q := Permutation(p.seed, 1, items);
  }

  /** Settles slots until `position` is among them. */
  method Advance(e: Env, b: Bucket, p: Permutation, position: nat) returns (q: Permutation)
    requires position < |b.items| < TWO_32
    requires p.count <= |b.items| && p.items == Shuffled(e, b, p.seed, p.count)
    ensures q.seed == p.seed && position < q.count <= |b.items|
    ensures q.items == Shuffled(e, b, q.seed, q.count)
  {
    hide Offset, Identity;
    q := p;
    while q.count <= position
      invariant q.seed == p.seed && q.count <= |b.items|
      invariant q.items == Shuffled(e, b, q.seed, q.count)
    {
      var current := q.count;
      var items := q.items;
      if current < |b.items| - 1 {
        var offset := Offset(e, b, q.seed, current);
        if offset != 0 {
          items := Swapped(items, current, current + offset);
        }
      }
      assert items == Swapped(q.items, current, current + Offset(e, b, q.seed, current));
      q := Permutation(q.seed, current + 1, items);
    }
  }

  /** `permutation_choose` on one bucket's state. */
  method ChooseFrom(e: Env, b: Bucket, seed: U32, r: nat, p: Permutation) returns (item: I32, q: Permutation)
    requires 0 < |b.items| < TWO_32 && PermutationOk(e, b, p)
    ensures item == b.items[ShuffledSlot(e, b, seed, r)]
    ensures PermutationOk(e, b, q)
  {
    hide Offset, Identity, Shuffled;
    var position := r % |b.items|;
    q := p;
    if q.seed != seed || q.count == 0 {
      if position == 0 {
        var selected := Offset(e, b, seed, 0);
        FirstSlot(e, b, seed, 1);
        q := Permutation(seed, ONE_ITEM, q.items[0 := selected]);
        return b.items[selected], q;
      }
      FirstSlot(e, b, seed, 1);
      q := Permutation(seed, 0, Identity(|b.items|));
    } else if q.count == ONE_ITEM {
      q := ExpandFirst(e, b, q);
    }
    q := Advance(e, b, q, position);
    SlotSettled(e, b, seed, position, q.count);
    FirstSlot(e, b, seed, q.count);
    ShuffledIsPermutation(e, b, seed, q.count);
    item := b.items[q.items[position]];
  }
}
