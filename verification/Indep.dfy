/** What independent selection chooses (the specification behind `choose_indep` in
    src/crush/place.rs) when it looks for devices, and what is true of every slot. */
module Indep {
  import opened Wrappers
  import opened Arithmetic
  import opened CrushMap
  import opened Straw2
  import opened FirstN

  const ITEM_NONE: I32 := 0x7fff_ffff
  const MAX_SLOTS: nat := 0x1_0000

  /** The draw number of slot `k` in pass `f`. */
  function DrawNumber(position: nat, k: nat, replicas: nat, f: nat): (r: U32)
    requires position <= MAX_SLOTS && k <= MAX_SLOTS && replicas <= MAX_SLOTS && f <= MAX_CERTIFIED_RETRIES
  {
    MulMonotone(replicas, MAX_SLOTS, f);
    position + k + replicas * f
  }

  /** Draws from bucket to bucket until something of type zero comes up. */
  ghost function Descent(e: Env, seed: U32, cur: I32, r: U32): (item: Option<I32>)
    requires GraphOk(e.crush) && WellShaped(e.crush) && cur in e.crush.buckets
    decreases Height(e.crush, cur)
  {
    hide GraphOk, IsHeight;
    var b := e.crush.buckets[cur];
    if b.items == [] then None
    else
      var item := b.items[Straw2Index(e, b, seed, r)];
      ItemsAreOk(e.crush, cur, item);
      if TypeOf(e.crush, item) == 0 then Some(item)
      else
        HeightDrops(e.crush, cur, item);
        Descent(e, seed, item, r)
  }

  lemma ItemsAreOk(m: Map, cur: I32, item: I32)
    requires GraphOk(m) && cur in m.buckets && item in m.buckets[cur].items
    ensures ItemOk(m, item)
  {
    assert ItemsOk(m, m.buckets[cur]);
    var i :| 0 <= i < |m.buckets[cur].items| && m.buckets[cur].items[i] == item;
  }

  /** What one draw puts into an empty slot: a device that is neither out nor in another slot. */
  ghost function Filling(e: Env, seed: U32, root: I32, r: U32, slots: seq<I32>): (item: I32)
    requires GraphOk(e.crush) && WellShaped(e.crush) && root in e.crush.buckets
  {
    var item := Descent(e, seed, root, r);
    if item.None? || item.value in slots || IsOut(e, item.value, seed) then ITEM_NONE else item.value
  }

  datatype Query = Query(seed: U32, root: I32, replicas: nat, position: nat)

  ghost predicate QueryReady(e: Env, q: Query, n: nat) {
    && GraphOk(e.crush) && WellShaped(e.crush) && q.root in e.crush.buckets
    && q.position <= MAX_SLOTS && q.replicas <= MAX_SLOTS && n <= MAX_SLOTS
  }

  /** The slots after pass `f` has visited the first `k` of them. */
  ghost function Pass(e: Env, q: Query, slots: seq<I32>, f: nat, k: nat): (s: seq<I32>)
    requires QueryReady(e, q, |slots|) && f <= MAX_CERTIFIED_RETRIES && k <= |slots|
    ensures |s| == |slots|
  {
    hide GraphOk;
    if k == 0 then slots
    else
      var before := Pass(e, q, slots, f, k - 1);
      if before[k - 1] != ITEM_NONE then before
      else before[k - 1 := Filling(e, q.seed, q.root, DrawNumber(q.position, k - 1, q.replicas, f), before)]
  }

  /** The slots after `f` passes over `n` of them, all empty at first. */
  ghost function Passes(e: Env, q: Query, n: nat, f: nat): (s: seq<I32>)
    requires QueryReady(e, q, n) && f <= MAX_CERTIFIED_RETRIES
    ensures |s| == n
  {
    hide GraphOk;
    if f == 0 then seq(n, _ => ITEM_NONE) else Pass(e, q, Passes(e, q, n, f - 1), f - 1, n)
  }

  /** How many slots are still empty. */
  function Empty(slots: seq<I32>): (n: nat) {
    if slots == [] then 0 else (if slots[|slots| - 1] == ITEM_NONE then 1 else 0) + Empty(slots[..|slots| - 1])
  }

  ghost predicate GoodSlots(e: Env, root: I32, slots: seq<I32>) {
    && (forall i, j :: 0 <= i < j < |slots| && slots[i] == slots[j] ==> slots[i] == ITEM_NONE)
    && (forall i :: 0 <= i < |slots| && slots[i] != ITEM_NONE ==>
          Usable(e, slots[i]) && Below(e.crush, root, slots[i]))
  }

  lemma {:induction false} DescentIsBelow(e: Env, seed: U32, root: I32, cur: I32, r: U32)
    requires GraphOk(e.crush) && WellShaped(e.crush) && cur in e.crush.buckets && Reaches(e.crush, root, cur)
    ensures var item := Descent(e, seed, cur, r);
            item.Some? ==> ItemOk(e.crush, item.value) && Below(e.crush, root, item.value)
    decreases Height(e.crush, cur)
  {
    hide GraphOk, IsHeight, Reaches;
    var b := e.crush.buckets[cur];
    if b.items == [] {
    } else {
      var item := b.items[Straw2Index(e, b, seed, r)];
      ItemsAreOk(e.crush, cur, item);
      if TypeOf(e.crush, item) != 0 {
        HeightDrops(e.crush, cur, item);
        ReachesChild(e.crush, root, cur, item);
        DescentIsBelow(e, seed, root, item, r);
      }
    }
  }

  lemma {:induction false} PassKeepsGood(e: Env, q: Query, slots: seq<I32>, f: nat, k: nat)
    requires QueryReady(e, q, |slots|) && f <= MAX_CERTIFIED_RETRIES && k <= |slots|
    requires GoodSlots(e, q.root, slots)
    ensures GoodSlots(e, q.root, Pass(e, q, slots, f, k))
    ensures forall i :: 0 <= i < |slots| && slots[i] != ITEM_NONE ==> Pass(e, q, slots, f, k)[i] == slots[i]
  {
    hide GraphOk, Below, Descent, IsOut, DrawNumber;
    if k == 0 {
    } else {
      PassKeepsGood(e, q, slots, f, k - 1);
      var before := Pass(e, q, slots, f, k - 1);
      var r := DrawNumber(q.position, k - 1, q.replicas, f);
      ReachesSelf(e.crush, q.root);
      DescentIsBelow(e, q.seed, q.root, q.root, r);
      var item := Descent(e, q.seed, q.root, r);
      if item.Some? {
        OutOrUsable(e, item.value, q.seed);
      }
    }
  }

  /** After any number of passes the filled slots hold different usable devices. */
  lemma {:induction false} PassesAreGood(e: Env, q: Query, n: nat, f: nat)
    requires QueryReady(e, q, n) && f <= MAX_CERTIFIED_RETRIES
    ensures GoodSlots(e, q.root, Passes(e, q, n, f))
  {
    hide GraphOk, Below, Pass;
    if f == 0 {
    } else {
      PassesAreGood(e, q, n, f - 1);
      PassKeepsGood(e, q, Passes(e, q, n, f - 1), f - 1, n);
    }
  }

  /** A slot once filled keeps its device through every later pass. */
  lemma {:induction false} FilledSlotStays(e: Env, q: Query, n: nat, f: nat, g: nat, i: nat)
    requires QueryReady(e, q, n) && f <= g <= MAX_CERTIFIED_RETRIES && i < n
    requires Passes(e, q, n, f)[i] != ITEM_NONE
    ensures Passes(e, q, n, g)[i] == Passes(e, q, n, f)[i]
  {
    hide GraphOk, GoodSlots, Pass;
    if f == g {
    } else {
      FilledSlotStays(e, q, n, f, g - 1, i);
      PassesAreGood(e, q, n, g - 1);
      PassKeepsGood(e, q, Passes(e, q, n, g - 1), g - 1, n);
    }
  }

  /** Filling one slot leaves one fewer empty. */
  lemma {:induction false} FillOne(slots: seq<I32>, k: nat, item: I32)
    requires k < |slots| && slots[k] == ITEM_NONE && item != ITEM_NONE
    ensures Empty(slots[k := item]) == Empty(slots) - 1
  {
    var last := |slots| - 1;
    if k == last {
      assert slots[k := item][..last] == slots[..last];
    } else {
      assert slots[k := item][..last] == slots[..last][k := item];
      FillOne(slots[..last], k, item);
    }
  }

  lemma {:induction false} NoneEmpty(slots: seq<I32>)
    ensures Empty(slots) == 0 <==> ITEM_NONE !in slots
  {
    if slots == [] {
    } else {
      NoneEmpty(slots[..|slots| - 1]);
      assert slots == slots[..|slots| - 1] + [slots[|slots| - 1]];
    }
  }

  lemma {:induction false} AllEmpty(n: nat)
    ensures Empty(seq(n, _ => ITEM_NONE)) == n
  {
    if n == 0 {
    } else {
      var s: seq<I32> := seq(n, _ => ITEM_NONE);
      assert s[..n - 1] == seq(n - 1, _ => ITEM_NONE);
      AllEmpty(n - 1);
    }
  }

  /** Passes over full slots change nothing, so stopping early loses nothing. */
  lemma {:induction false} FullIsFinal(e: Env, q: Query, n: nat, f: nat, g: nat)
    requires QueryReady(e, q, n) && f <= g <= MAX_CERTIFIED_RETRIES
    requires ITEM_NONE !in Passes(e, q, n, f)
    ensures Passes(e, q, n, g) == Passes(e, q, n, f)
  {
    hide QueryReady, Pass;
    forall i | 0 <= i < n ensures Passes(e, q, n, g)[i] == Passes(e, q, n, f)[i] {
      assert Passes(e, q, n, f)[i] in Passes(e, q, n, f);
      FilledSlotStays(e, q, n, f, g, i);
    }
  }
}
