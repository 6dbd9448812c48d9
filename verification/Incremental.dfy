/** Applying an incremental to the cluster map (src/maps/incremental.rs). The pool and OSD tables of
    an incremental are hash maps, so every loop over one takes its entries in an arbitrary order. */
module Incremental {
  import opened Wrappers
  import opened OsdMap

  datatype Incremental = Incremental(
    fsid: Bytes,
    epoch: U32,
    modified: UTime,
    newPoolMax: I64,
    newFlags: I32,
    fullMap: Bytes,
    crushData: Bytes,
    newMaxOsd: I32,
    newPools: map<I64, Pool>,
    newPoolNames: map<I64, string>,
    oldPools: seq<I64>,
    newUpClient: map<I32, Addresses>,
    newState: map<I32, bv32>,
    newWeight: map<I32, U32>,
    newPgTemp: map<PG, seq<I32>>,
    newPrimaryTemp: map<PG, I32>,
    newPrimaryAffinity: map<I32, U32>,
    newErasureProfiles: map<string, map<string, string>>,
    oldErasureProfiles: seq<string>,
    newPgUpmap: map<PG, seq<I32>>,
    oldPgUpmap: seq<PG>,
    newPgUpmapItems: map<PG, seq<OSDRemap>>,
    oldPgUpmapItems: seq<PG>,
    newRemovedSnapshots: map<I64, seq<Interval>>,
    newPurgedSnapshots: map<I64, seq<Interval>>,
    newLastUpChange: UTime,
    newLastInChange: UTime,
    newPgUpmapPrimaries: map<PG, I32>,
    oldPgUpmapPrimaries: seq<PG>,
    fullCrc: U32)

  // --- plain tables

  /** The entries already taken from a table. */
  function Taken<K, C>(changes: map<K, C>, pending: set<K>): (t: map<K, C>) {
    map k | k in changes && k !in pending :: changes[k]
  }

  lemma TakeOne<K, C>(changes: map<K, C>, pending: set<K>, k: K)
    requires k in pending && k in changes
    ensures k !in Taken(changes, pending)
    ensures Taken(changes, pending - {k}) == Taken(changes, pending)[k := changes[k]]
  {
  }

  lemma TakenEnds<K, C>(changes: map<K, C>)
    ensures Taken(changes, {}) == changes && Taken(changes, changes.Keys) == map[]
  {
  }

  method InsertAll<K, V>(target: map<K, V>, changes: map<K, V>) returns (result: map<K, V>)
    ensures result == target + changes
  {
    hide Taken;
    result := target;
    var pending := changes.Keys;
    TakenEnds(changes);
    while pending != {}
      invariant pending <= changes.Keys
      invariant result == target + Taken(changes, pending)
      decreases |pending|
    {
      var k :| k in pending;
      TakeOne(changes, pending, k);
      result := result[k := changes[k]];
      pending := pending - {k};
    }
  }

  method RemoveAll<K, V>(target: map<K, V>, keys: seq<K>) returns (result: map<K, V>)
    ensures result == target - (set k | k in keys)
  {
    result := target;
    for i := 0 to |keys|
      invariant result == target - (set k | k in keys[..i])
    {
      result := result - {keys[i]};
      assert keys[..i + 1] == keys[..i] + [keys[i]];
    }
    assert keys[..|keys|] == keys;
  }

  /** Entries replaced or added, and deleted where the change says so. */
  function Merged<K, V>(target: map<K, V>, changes: map<K, V>, deletes: V -> bool): (result: map<K, V>) {
    map k | k in target.Keys + changes.Keys && !(k in changes && deletes(changes[k])) ::
      if k in changes then changes[k] else target[k]
  }

  /** `apply_pg_vectors` and `apply_pg_ints`. */
  method ApplyChanges<K, V>(target: map<K, V>, changes: map<K, V>, deletes: V -> bool) returns (result: map<K, V>)
    ensures result == Merged(target, changes, deletes)
  {
    result := target;
    var pending := changes.Keys;
    while pending != {}
      invariant pending <= changes.Keys
      invariant forall k :: k in pending ==> (k in result <==> k in target) && (k in target ==> result[k] == target[k])
      invariant forall k :: k !in pending ==>
                  (k in result <==> k in Merged(target, changes, deletes))
                  && (k in result ==> result[k] == Merged(target, changes, deletes)[k])
      decreases |pending|
    {
      var k :| k in pending;
      result := if deletes(changes[k]) then result - {k} else result[k := changes[k]];
      pending := pending - {k};
    }
  }

  // --- OSD vectors

  /** The four vectors indexed by OSD. */
  datatype Osds = Osds(state: seq<bv32>, weight: seq<U32>, addresses: seq<Addresses>, affinity: seq<U32>)

  /** All of one length, except that the affinities may be absent. */
  predicate Even(v: Osds) {
    |v.weight| == |v.addresses| == |v.state| && (v.affinity == [] || |v.affinity| == |v.state|)
  }

  function Resized<T>(s: seq<T>, n: nat, fill: T): (t: seq<T>)
    ensures |t| == n
    ensures forall i :: 0 <= i < n ==> t[i] == if i < |s| then s[i] else fill
  {
    if n <= |s| then s[..n] else s + seq(n - |s|, _ => fill)
  }

  /** `resize_osds`. */
  function ResizeOsds(v: Osds, size: nat): (r: Osds)
    ensures Even(r) && |r.state| == size
    ensures Even(v) ==> forall i :: 0 <= i < size ==>
              && r.state[i] == (if i < |v.state| then v.state[i] else 0)
              && r.weight[i] == (if i < |v.state| then v.weight[i] else 0)
              && r.addresses[i] == (if i < |v.state| then v.addresses[i] else [])
              && EnsuredAffinity(r)[i] == (if i < |v.state| then EnsuredAffinity(v)[i] else DEFAULT_PRIMARY_AFFINITY)
  {
    Osds(Resized(v.state, size, 0), Resized(v.weight, size, 0), Resized(v.addresses, size, []),
         if v.affinity == [] then [] else Resized(v.affinity, size, DEFAULT_PRIMARY_AFFINITY))
  }

  /** `ensure_primary_affinity`. */
  function EnsuredAffinity(v: Osds): (a: seq<U32>)
    ensures Even(v) ==> |a| == |v.state|
  {
    if v.affinity == [] then seq(|v.state|, _ => DEFAULT_PRIMARY_AFFINITY) else v.affinity
  }

  predicate ValidOsds<V>(v: Osds, changes: map<I32, V>) {
    forall osd :: osd in changes ==> 0 <= osd < |v.state|
  }

  /** The sequence with each changed entry passed through `f`. */
  function Patched<T, C>(s: seq<T>, changes: map<I32, C>, f: (T, C) -> T): (t: seq<T>)
    ensures |t| == |s|
  {
    seq(|s|, i requires 0 <= i < |s| => if i in changes then f(s[i], changes[i]) else s[i])
  }

  /** Patching may proceed entry by entry, in any order. */
  lemma PatchOne<T, C>(s: seq<T>, done: map<I32, C>, osd: I32, c: C, f: (T, C) -> T)
    requires 0 <= osd < |s| && osd !in done
    ensures Patched(s, done, f)[osd] == s[osd]
    ensures Patched(s, done[osd := c], f) == Patched(s, done, f)[osd := f(s[osd], c)]
  {
  }

  lemma PatchNothing<T, C>(s: seq<T>, f: (T, C) -> T)
    ensures Patched(s, map[], f) == s
  {
  }

  /** A reweighted OSD is no longer marked auto-out or new. */
  function Unmark(state: bv32, weight: U32): (r: bv32) {
    if weight != 0 then state & 0xffff_fff3 else state
  }

  function SetValue(before: U32, value: U32): (r: U32) {
    value
  }

  function Reweighted(v: Osds, w: map<I32, U32>): (r: Osds)
    ensures Even(v) ==> Even(r) && |r.state| == |v.state|
  {
    v.(weight := Patched(v.weight, w, SetValue), state := Patched(v.state, w, Unmark))
  }

  method ApplyWeights(v: Osds, w: map<I32, U32>) returns (r: Result<Osds, MapError>)
    requires Even(v)
    ensures if ValidOsds(v, w) then r == Ok(Reweighted(v, w)) else r == Err(Malformed)
  {
    hide Patched, Taken, Unmark;
    var next := v;
    var pending := w.Keys;
    TakenEnds<I32, U32>(w);
    PatchNothing(v.weight, SetValue);
    PatchNothing(v.state, Unmark);
    while pending != {}
      invariant pending <= w.Keys
      invariant next == Reweighted(v, Taken<I32, U32>(w, pending))
      invariant forall osd :: osd in w && osd !in pending ==> 0 <= osd < |v.state|
      decreases |pending|
    {
      var osd :| osd in pending;
      if !(0 <= osd < |next.state|) {
        return Err(Malformed);
      }
      TakeOne<I32, U32>(w, pending, osd);
      PatchOne(v.weight, Taken<I32, U32>(w, pending), osd, w[osd], SetValue);
      PatchOne(v.state, Taken<I32, U32>(w, pending), osd, w[osd], Unmark);
      next := next.(weight := next.weight[osd := w[osd]], state := next.state[osd := Unmark(next.state[osd], w[osd])]);
      pending := pending - {osd};
    }
    return Ok(next);
  }

  function Affined(v: Osds, a: map<I32, U32>): (r: Osds)
    ensures Even(v) ==> Even(r)
    ensures r == v.(affinity := r.affinity)
  {
    if a == map[] then v else v.(affinity := Patched(EnsuredAffinity(v), a, SetValue))
  }

  /** Setting one more affinity, creating the vector if there is none yet. */
  lemma AffineOne(v: Osds, done: map<I32, U32>, osd: I32, value: U32)
    requires Even(v) && 0 <= osd < |v.state| && osd !in done
    ensures |EnsuredAffinity(Affined(v, done))| == |v.state|
    ensures Affined(v, done[osd := value]).affinity == EnsuredAffinity(Affined(v, done))[osd := value]
  {
    hide Patched;
    PatchNothing(EnsuredAffinity(v), SetValue);
    PatchOne(EnsuredAffinity(v), done, osd, value, SetValue);
    assert osd in done[osd := value];
  }

  method ApplyAffinities(v: Osds, a: map<I32, U32>) returns (r: Result<Osds, MapError>)
    requires Even(v)
    ensures if ValidOsds(v, a) then r == Ok(Affined(v, a)) else r == Err(Malformed)
  {
    hide Affined, Taken, EnsuredAffinity;
    var next := v;
    var pending := a.Keys;
    TakenEnds<I32, U32>(a);
    AffineNothing(v);
    while pending != {}
      invariant pending <= a.Keys
      invariant next == Affined(v, Taken<I32, U32>(a, pending))
      invariant forall osd :: osd in a && osd !in pending ==> 0 <= osd < |v.state|
      decreases |pending|
    {
      var osd :| osd in pending;
      if !(0 <= osd < |next.state|) {
        return Err(Malformed);
      }
      TakeOne<I32, U32>(a, pending, osd);
      AffineOne(v, Taken<I32, U32>(a, pending), osd, a[osd]);
      next := next.(affinity := EnsuredAffinity(next)[osd := a[osd]]);
      pending := pending - {osd};
    }
    return Ok(next);
  }

  lemma AffineNothing(v: Osds)
    ensures Affined(v, map[]) == v
  {
  }

  /** The bits a state change toggles; zero stands for the up bit. */
  function Toggle(change: bv32): (t: bv32) {
    if change == 0 then 2 else change
  }

  /** Toggling the exists bit of an OSD that exists destroys it. */
  predicate Destroys(state: bv32, change: bv32) {
    state & 1 != 0 && Toggle(change) & 1 != 0
  }

  function ToggleState(state: bv32, change: bv32): (r: bv32) {
    if Destroys(state, change) then 0 else state ^ Toggle(change)
  }

  function SetAddresses(before: Addresses, addresses: Addresses): (r: Addresses) {
    addresses
  }

  function ClearAddresses(before: Addresses, affinity: U32): (r: Addresses) {
    []
  }

  /** The OSDs a table of state changes destroys, each with the affinity it falls back to. */
  function Destroyed(state: seq<bv32>, changes: map<I32, bv32>): (d: map<I32, U32>) {
    map k | k in changes && 0 <= k < |state| && Destroys(state[k], changes[k]) :: DEFAULT_PRIMARY_AFFINITY
  }

  function Toggled(v: Osds, changes: map<I32, bv32>): (r: Osds)
    ensures Even(v) ==> Even(r) && |r.state| == |v.state|
  {
    var d := Destroyed(v.state, changes);
    Affined(v, d).(state := Patched(v.state, changes, ToggleState),
      addresses := Patched(v.addresses, d, ClearAddresses))
  }

  lemma DestroyOne(state: seq<bv32>, done: map<I32, bv32>, osd: I32, change: bv32)
    requires 0 <= osd < |state| && osd !in done
    ensures osd !in Destroyed(state, done)
    ensures Destroyed(state, done[osd := change]) ==
            if Destroys(state[osd], change)
            then Destroyed(state, done)[osd := DEFAULT_PRIMARY_AFFINITY]
            else Destroyed(state, done)
  {
    hide Destroys;
  }

  lemma ToggleNothing(v: Osds)
    ensures Toggled(v, map[]) == v
  {
    assert Destroyed(v.state, map[]) == map[];
    PatchNothing(v.state, ToggleState);
    PatchNothing(v.addresses, ClearAddresses);
  }

  method ApplyStates(v: Osds, changes: map<I32, bv32>) returns (r: Result<Osds, MapError>)
    requires Even(v)
    ensures if ValidOsds(v, changes) then r == Ok(Toggled(v, changes)) else r == Err(Malformed)
  {
    hide Affined, Taken, EnsuredAffinity, Patched, Destroyed, Destroys, Toggle;
    var next := v;
    var pending := changes.Keys;
    TakenEnds<I32, bv32>(changes);
    ToggleNothing(v);
    while pending != {}
      invariant pending <= changes.Keys
      invariant next == Toggled(v, Taken<I32, bv32>(changes, pending))
      invariant forall osd :: osd in changes && osd !in pending ==> 0 <= osd < |v.state|
      decreases |pending|
    {
      var osd :| osd in pending;
      if !(0 <= osd < |next.state|) {
        return Err(Malformed);
      }
      ghost var done := Taken<I32, bv32>(changes, pending);
      TakeOne<I32, bv32>(changes, pending, osd);
      PatchOne(v.state, done, osd, changes[osd], ToggleState);
      DestroyOne(v.state, done, osd, changes[osd]);
      if Destroys(next.state[osd], changes[osd]) {
        ghost var d := Destroyed(v.state, done);
        AffineOne(v, d, osd, DEFAULT_PRIMARY_AFFINITY);
        PatchOne(v.addresses, d, osd, DEFAULT_PRIMARY_AFFINITY, ClearAddresses);
        assert EnsuredAffinity(next) == EnsuredAffinity(Affined(v, d)) by { AffinityOnly(next, Affined(v, d)); }
        next := next.(state := next.state[osd := 0],
                      affinity := EnsuredAffinity(next)[osd := DEFAULT_PRIMARY_AFFINITY],
                      addresses := next.addresses[osd := []]);
      } else {
        next := next.(state := next.state[osd := next.state[osd] ^ Toggle(changes[osd])]);
      }
      pending := pending - {osd};
    }
    return Ok(next);
  }

  lemma AffinityOnly(v: Osds, w: Osds)
    requires v.affinity == w.affinity && |v.state| == |w.state|
    ensures EnsuredAffinity(v) == EnsuredAffinity(w)
  {
  }

  /** An OSD that came up exists, is up and is no longer marked as stopped. */
  function BringUp(state: bv32, addresses: Addresses): (r: bv32) {
    (state | 3) & 0xffff_efff
  }

  function BroughtUp(v: Osds, up: map<I32, Addresses>): (r: Osds)
    ensures Even(v) ==> Even(r) && |r.state| == |v.state|
  {
    v.(state := Patched(v.state, up, BringUp), addresses := Patched(v.addresses, up, SetAddresses))
  }

  method ApplyUp(v: Osds, up: map<I32, Addresses>) returns (r: Result<Osds, MapError>)
    requires Even(v)
    ensures if ValidOsds(v, up) then r == Ok(BroughtUp(v, up)) else r == Err(Malformed)
  {
    hide Patched, Taken, BringUp;
    var next := v;
    var pending := up.Keys;
    TakenEnds<I32, Addresses>(up);
    PatchNothing(v.state, BringUp);
    PatchNothing(v.addresses, SetAddresses);
    while pending != {}
      invariant pending <= up.Keys
      invariant next == BroughtUp(v, Taken<I32, Addresses>(up, pending))
      invariant forall osd :: osd in up && osd !in pending ==> 0 <= osd < |v.state|
      decreases |pending|
    {
      var osd :| osd in pending;
      if !(0 <= osd < |next.state|) {
        return Err(Malformed);
      }
      TakeOne<I32, Addresses>(up, pending, osd);
      PatchOne(v.state, Taken<I32, Addresses>(up, pending), osd, up[osd], BringUp);
      PatchOne(v.addresses, Taken<I32, Addresses>(up, pending), osd, up[osd], SetAddresses);
      next := next.(state := next.state[osd := BringUp(next.state[osd], up[osd])],
        addresses := next.addresses[osd := up[osd]]);
      pending := pending - {osd};
    }
    return Ok(next);
  }

  // --- pools and their names

  /** The two pool indexes. */
  datatype Names = Names(pools: map<I64, Pool>, index: map<string, I64>)

  /** The index between the steps of an update: it names no pool wrongly and misses none that has
      a name, but pools may still be nameless. */
  ghost predicate Nearly(n: Names) {
    && (forall id :: id in n.pools && n.pools[id].name != "" ==>
          n.pools[id].name in n.index && n.index[n.pools[id].name] == id)
    && (forall name :: name in n.index ==> n.index[name] in n.pools && n.pools[n.index[name]].name == name)
  }

  /** A pool that is replaced keeps its name. */
  function KeepNames(pools: map<I64, Pool>, added: map<I64, Pool>): (r: map<I64, Pool>) {
    map id | id in added :: if id in pools then added[id].(name := pools[id].name) else added[id]
  }

  method AddPools(pools: map<I64, Pool>, added: map<I64, Pool>) returns (r: map<I64, Pool>)
    ensures r == pools + KeepNames(pools, added)
  {
    hide Taken;
    ghost var kept := KeepNames(pools, added);
    assert kept.Keys == added.Keys;
    r := pools;
    var pending := added.Keys;
    TakenEnds(kept);
    while pending != {}
      invariant pending <= added.Keys
      invariant r == pools + Taken(kept, pending)
      decreases |pending|
    {
      var id: I64 :| id in pending;
      TakeOne(kept, pending, id);
      var pool := added[id];
      if id in r {
        pool := pool.(name := r[id].name);
      }
      assert pool == kept[id];
      r := r[id := pool];
      pending := pending - {id};
    }
  }

  function RenameOne(n: Names, id: I64, name: string): (r: Option<Names>) {
    if id !in n.pools || (name in n.index && n.index[name] != id) then None
    else Some(Names(n.pools[id := n.pools[id].(name := name)], (n.index - {n.pools[id].name})[name := id]))
  }

  /** The renames taken in the given order; none as soon as one is refused. */
  function RenameAll(n: Names, names: map<I64, string>, order: seq<I64>): (r: Option<Names>)
    requires forall id :: id in order ==> id in names
  {
    if order == [] then Some(n)
    else
      var last := order[|order| - 1];
      match RenameAll(n, names, order[..|order| - 1])
      case None => None
      case Some(before) => RenameOne(before, last, names[last])
  }

  /** An order in which a table may be iterated. */
  ghost predicate IsOrder(order: seq<I64>, keys: set<I64>) {
    && (forall id :: id in order <==> id in keys)
    && (forall i, j :: 0 <= i < j < |order| ==> order[i] != order[j])
  }

  lemma SameSet<T>(s: seq<T>, keys: set<T>)
    requires forall x :: x in s <==> x in keys
    ensures (set x | x in s) == keys
  {
  }

  method ApplyRenames(n: Names, names: map<I64, string>, order: seq<I64>) returns (r: Result<Names, MapError>)
    requires IsOrder(order, names.Keys)
    ensures match RenameAll(n, names, order) case None => r == Err(Malformed) case Some(done) => r == Ok(done)
  {
    hide RenameAll;
    var next := n;
    RenameNothing(n, names);
    for i := 0 to |order|
      invariant RenameAll(n, names, order[..i]) == Some(next)
    {
      var id, name := order[i], names[order[i]];
      RenameNext(n, names, order[..i], id);
      assert order[..i + 1] == order[..i] + [id];
      if id !in next.pools || (name in next.index && next.index[name] != id) {
        RefusalIsFinal(n, names, order, i + 1);
        return Err(Malformed);
      }
      var pool := next.pools[id];
      next := Names(next.pools[id := pool.(name := name)], (next.index - {pool.name})[name := id]);
    }
    assert order[..|order|] == order;
    return Ok(next);
  }

  lemma RenameNothing(n: Names, names: map<I64, string>)
    ensures RenameAll(n, names, []) == Some(n)
  {
  }

  lemma RenameNext(n: Names, names: map<I64, string>, order: seq<I64>, id: I64)
    requires (forall x :: x in order ==> x in names) && id in names && RenameAll(n, names, order).Some?
    ensures RenameAll(n, names, order + [id]) == RenameOne(RenameAll(n, names, order).value, id, names[id])
  {
    hide RenameOne;
    assert (order + [id])[..|order|] == order;
  }

  lemma {:induction false} RefusalIsFinal(n: Names, names: map<I64, string>, order: seq<I64>, i: nat)
    requires forall id :: id in order ==> id in names
    requires i <= |order| && RenameAll(n, names, order[..i]).None?
    ensures RenameAll(n, names, order).None?
    decreases |order|
  {
    if i < |order| {
      var init := order[..|order| - 1];
      assert init[..i] == order[..i];
      RefusalIsFinal(n, names, init, i);
    } else {
      assert order[..i] == order;
    }
  }

  function Renamed(pools: map<I64, Pool>, names: map<I64, string>, ids: set<I64>): (r: map<I64, Pool>) {
    map id | id in pools :: if id in ids && id in names then pools[id].(name := names[id]) else pools[id]
  }

  lemma RenameOneKeeps(n: Names, id: I64, name: string)
    requires Nearly(n) && RenameOne(n, id, name).Some?
    ensures Nearly(RenameOne(n, id, name).value)
  {
  }

  /** Whatever the order, the pools end up the same and the index stays right. */
  lemma {:induction false} RenamesKeep(n: Names, names: map<I64, string>, order: seq<I64>)
    requires forall id :: id in order ==> id in names
    requires Nearly(n) && RenameAll(n, names, order).Some?
    ensures var r := RenameAll(n, names, order).value;
            Nearly(r) && r.pools == Renamed(n.pools, names, set id | id in order)
  {
    if order == [] {
    } else {
      hide Nearly, Renamed;
      var init, last := order[..|order| - 1], order[|order| - 1];
      RenamesKeep(n, names, init);
      var before := RenameAll(n, names, init).value;
      RenameOneKeeps(before, last, names[last]);
      assert order == init + [last];
      RenamedNext(n.pools, names, init, last);
    }
  }

  lemma RenamedNext(pools: map<I64, Pool>, names: map<I64, string>, init: seq<I64>, last: I64)
    requires last in pools && last in names
    ensures var before := Renamed(pools, names, set id | id in init);
            && last in before
            && Renamed(pools, names, set id | id in init + [last]) == before[last := before[last].(name := names[last])]
  {
  }

  method RemovePools(n: Names, old_: seq<I64>) returns (r: Names)
    requires Nearly(n)
    ensures Nearly(r) && r.pools == n.pools - (set id | id in old_)
  {
    r := n;
    for i := 0 to |old_|
      invariant Nearly(r) && r.pools == n.pools - (set id | id in old_[..i])
    {
      var id := old_[i];
      if id in r.pools {
        r := Names(r.pools - {id}, r.index - {r.pools[id].name});
      }
      assert old_[..i + 1] == old_[..i] + [id];
    }
    assert old_[..|old_|] == old_;
  }

  // --- the whole update

  function OsdsOf(m: OSDMap): (v: Osds) {
    Osds(m.osdState, m.osdWeight, m.clientAddresses, m.primaryAffinity)
  }

  function Sized(m: OSDMap, inc: Incremental): (v: Osds)
    ensures VectorsAgree(m) ==> Even(v)
  {
    if inc.newMaxOsd >= 0 then ResizeOsds(OsdsOf(m), inc.newMaxOsd) else OsdsOf(m)
  }

  /** The vectors before OSDs are brought up. */
  function Changed(m: OSDMap, inc: Incremental): (v: Osds)
    ensures VectorsAgree(m) ==> Even(v) && |v.state| == |Sized(m, inc).state|
  {
    hide Patched;
    Toggled(Affined(Reweighted(Sized(m, inc), inc.newWeight), inc.newPrimaryAffinity), inc.newState)
  }

  function AppliedOsds(m: OSDMap, inc: Incremental): (v: Osds)
    ensures VectorsAgree(m) ==> Even(v) && |v.state| == if inc.newMaxOsd >= 0 then inc.newMaxOsd else m.maxOsd
  {
    BroughtUp(Changed(m, inc), inc.newUpClient)
  }

  predicate OsdsValid(m: OSDMap, inc: Incremental) {
    var v := Sized(m, inc);
    ValidOsds(v, inc.newWeight) && ValidOsds(v, inc.newPrimaryAffinity) && ValidOsds(v, inc.newState)
      && ValidOsds(v, inc.newUpClient)
  }

  function PoolsBefore(m: OSDMap, inc: Incremental): (n: Names) {
    Names(m.pools + KeepNames(m.pools, inc.newPools), m.nameToId)
  }

  function AppliedPools(m: OSDMap, inc: Incremental): (p: map<I64, Pool>) {
    Renamed(PoolsBefore(m, inc).pools, inc.newPoolNames, inc.newPoolNames.Keys) - (set id | id in inc.oldPools)
  }

  predicate NoOsds(osds: seq<I32>) {
    osds == []
  }

  predicate Unset(osd: I32) {
    osd == -1
  }

  /** Temporary mappings, overrides and profiles updated. */
  function Mapped(m: OSDMap, inc: Incremental): (next: OSDMap) {
    m.(pgTemp := Merged(m.pgTemp, inc.newPgTemp, NoOsds),
       primaryTemp := Merged(m.primaryTemp, inc.newPrimaryTemp, Unset),
       erasureCodeProfiles := (m.erasureCodeProfiles - (set k | k in inc.oldErasureProfiles)) + inc.newErasureProfiles,
       pgUpmap := (m.pgUpmap + inc.newPgUpmap) - (set k | k in inc.oldPgUpmap),
       pgUpmapItems := (m.pgUpmapItems + inc.newPgUpmapItems) - (set k | k in inc.oldPgUpmapItems),
       pgUpmapPrimaries := (m.pgUpmapPrimaries + inc.newPgUpmapPrimaries) - (set k | k in inc.oldPgUpmapPrimaries))
  }

  /** Everything but the tables updated: identity, flags, CRUSH map, snapshots and times. */
  function Stamped(m: OSDMap, inc: Incremental): (next: OSDMap) {
    m.(epoch := inc.epoch, modified := inc.modified, crc := inc.fullCrc, crcVerified := false,
      appliedIncremental := true,
       poolMax := if inc.newPoolMax != -1 then inc.newPoolMax else m.poolMax,
       flags := if inc.newFlags >= 0 then inc.newFlags else m.flags,
       maxOsd := if inc.newMaxOsd >= 0 then inc.newMaxOsd else m.maxOsd,
       crushData := if inc.crushData != [] then inc.crushData else m.crushData,
       crushVersion := if inc.crushData != [] then (m.crushVersion + 1) % TWO_32 else m.crushVersion,
       newRemovedSnapshots := inc.newRemovedSnapshots, newPurgedSnapshots := inc.newPurgedSnapshots,
       lastUpChange := if inc.newLastUpChange != UTime(0, 0) then inc.newLastUpChange else m.lastUpChange,
       lastInChange := if inc.newLastInChange != UTime(0, 0) then inc.newLastInChange else m.lastInChange)
  }

  /** The next map in closed form, for a given name index. */
  function Applied(m: OSDMap, inc: Incremental, index: map<string, I64>): (next: OSDMap) {
    var v := AppliedOsds(m, inc);
    Mapped(Stamped(m, inc), inc).(
      pools := AppliedPools(m, inc), nameToId := index,
      osdState := v.state, osdWeight := v.weight, clientAddresses := v.addresses, primaryAffinity := v.affinity)
  }

  /** `next` is what the incremental makes of `m`, with its invariants intact. */
  ghost predicate IsApplied(m: OSDMap, inc: Incremental, next: OSDMap) {
    next == Applied(m, inc, next.nameToId) && NamesExact(next) && VectorsAgree(next)
  }

  /** Incrementals carry new pools without names, as the pool decoder builds them. */
  predicate Nameless(inc: Incremental) {
    forall id :: id in inc.newPools ==> inc.newPools[id].name == ""
  }

  ghost predicate Succeeds(m: OSDMap, inc: Incremental, order: seq<I64>)
    requires forall id :: id in order ==> id in inc.newPoolNames
  {
    && (inc.crushData != [] ==> m.crushVersion + 1 < TWO_32)
    && RenameAll(PoolsBefore(m, inc), inc.newPoolNames, order).Some?
    && OsdsValid(m, inc)
    && (forall id :: id in AppliedPools(m, inc) ==> AppliedPools(m, inc)[id].name != "")
  }

  lemma PoolsBeforeNearly(m: OSDMap, inc: Incremental)
    requires NamesExact(m) && Nameless(inc)
    ensures Nearly(PoolsBefore(m, inc))
  {
  }

  method UpdatePools(m: OSDMap, inc: Incremental, order: seq<I64>) returns (r: Result<Names, MapError>)
    requires NamesExact(m) && Nameless(inc) && IsOrder(order, inc.newPoolNames.Keys)
    ensures r.Ok? <==> RenameAll(PoolsBefore(m, inc), inc.newPoolNames, order).Some?
    ensures r.Ok? ==> Nearly(r.value) && r.value.pools == AppliedPools(m, inc)
  {
    hide Nearly, RenameAll, NamesExact;
    var pools := AddPools(m.pools, inc.newPools);
    PoolsBeforeNearly(m, inc);
    r := ApplyRenames(Names(pools, m.nameToId), inc.newPoolNames, order);
    if r.Err? {
      return;
    }
    RenamesKeep(PoolsBefore(m, inc), inc.newPoolNames, order);
    SameSet(order, inc.newPoolNames.Keys);
    var n := RemovePools(r.value, inc.oldPools);
    return Ok(n);
  }

  method UpdateOsds(m: OSDMap, inc: Incremental) returns (r: Result<Osds, MapError>)
    requires VectorsAgree(m)
    ensures if OsdsValid(m, inc) then r == Ok(AppliedOsds(m, inc)) else r.Err?
  {
    hide Reweighted, Affined, Toggled, BroughtUp, ResizeOsds;
    r := ApplyWeights(Sized(m, inc), inc.newWeight);
    if r.Err? {
      return;
    }
    r := ApplyAffinities(r.value, inc.newPrimaryAffinity);
    if r.Err? {
      return;
    }
    r := ApplyStates(r.value, inc.newState);
    if r.Err? {
      return;
    }
    r := ApplyUp(r.value, inc.newUpClient);
  }

  /** The fields outside the tables; the CRUSH version must not overflow. */
  method StampMap(m: OSDMap, inc: Incremental) returns (r: Result<OSDMap, MapError>)
    ensures if inc.crushData != [] && m.crushVersion + 1 == TWO_32 then r == Err(InvalidSequence)
            else r == Ok(Stamped(m, inc))
  {
    var poolMax, flags, maxOsd := m.poolMax, m.flags, m.maxOsd;
    if inc.newPoolMax != -1 {
      poolMax := inc.newPoolMax;
    }
    if inc.newFlags >= 0 {
      flags := inc.newFlags;
    }
    if inc.newMaxOsd >= 0 {
      maxOsd := inc.newMaxOsd;
    }
    var crushData := m.crushData;
    var crushVersion: int := m.crushVersion;
    if inc.crushData != [] {
      crushData := inc.crushData;
      if crushVersion + 1 == TWO_32 {
        return Err(InvalidSequence);
      }
      crushVersion := crushVersion + 1;
    }
    var lastUpChange, lastInChange := m.lastUpChange, m.lastInChange;
    if inc.newLastUpChange != UTime(0, 0) {
      lastUpChange := inc.newLastUpChange;
    }
    if inc.newLastInChange != UTime(0, 0) {
      lastInChange := inc.newLastInChange;
    }
    return Ok(m.(epoch := inc.epoch, modified := inc.modified, crc := inc.fullCrc,
                 crcVerified := false, appliedIncremental := true,
                 poolMax := poolMax, flags := flags, maxOsd := maxOsd,
                 crushData := crushData, crushVersion := crushVersion,
                 newRemovedSnapshots := inc.newRemovedSnapshots, newPurgedSnapshots := inc.newPurgedSnapshots,
                 lastUpChange := lastUpChange, lastInChange := lastInChange));
  }

  /** The update proper, on an incremental that follows the map and carries no full map. */
  method ApplyDelta(m: OSDMap, inc: Incremental, order: seq<I64>) returns (r: Result<OSDMap, MapError>)
    requires VectorsAgree(m) && NamesExact(m) && Nameless(inc) && IsOrder(order, inc.newPoolNames.Keys)
    ensures r.Ok? <==> Succeeds(m, inc, order)
    ensures r.Ok? ==> IsApplied(m, inc, r.value) && r.value.fsid == m.fsid && r.value.epoch == inc.epoch
  {
    hide AppliedOsds, OsdsValid, AppliedPools, Nearly, RenameAll, Mapped, Merged, NamesExact;
    var stamped := StampMap(m, inc);
    if stamped.Err? {
      return stamped;
    }
    var n := UpdatePools(m, inc, order);
    if n.Err? {
      return Err(n.error);
    }
    var v := UpdateOsds(m, inc);
    if v.Err? {
      return Err(v.error);
    }
    var next := UpdateMappings(stamped.value, inc);
    next := next.(pools := n.value.pools, nameToId := n.value.index,
                  osdState := v.value.state, osdWeight := v.value.weight,
                  clientAddresses := v.value.addresses, primaryAffinity := v.value.affinity);
    if exists id :: id in next.pools && next.pools[id].name == "" {
      return Err(Malformed);
    }
    NamedIsExact(next, n.value);
    MappedKeepsSize(Stamped(m, inc), inc);
    return Ok(next);
  }

  lemma MappedKeepsSize(m: OSDMap, inc: Incremental)
    ensures var next := Mapped(m, inc); next.maxOsd == m.maxOsd && next.fsid == m.fsid && next.epoch == m.epoch
  {
  }

  /** `apply_osdmap_incremental` for one iteration order of the renames: exactly when it succeeds, and
      that it then yields the closed form with both invariants kept. `replacement` is the decoded
      full map, when the incremental carries one. */
  method ApplyIncremental(m: OSDMap, inc: Incremental, order: seq<I64>, replacement: Result<OSDMap, MapError>)
    returns (r: Result<OSDMap, MapError>)
    requires VectorsAgree(m) && NamesExact(m) && Nameless(inc)
    requires IsOrder(order, inc.newPoolNames.Keys)
    ensures inc.fsid != m.fsid ==> r == Err(FsidMismatch)
    ensures inc.fsid == m.fsid && inc.epoch != m.epoch + 1 ==> r == Err(InvalidSequence)
    ensures inc.fsid == m.fsid && inc.epoch == m.epoch + 1 && inc.fullMap == [] ==>
              && (r.Ok? <==> Succeeds(m, inc, order))
              && (r.Ok? ==> IsApplied(m, inc, r.value))
    ensures inc.fsid == m.fsid && inc.epoch == m.epoch + 1 && inc.fullMap != [] ==>
              && (r.Ok? <==> replacement.Ok? && replacement.value.fsid == m.fsid && replacement.value.epoch == inc.epoch
                             && replacement.value.crc == inc.fullCrc)
              && (r.Ok? ==> r == replacement)
    ensures r.Ok? ==> r.value.fsid == m.fsid == inc.fsid && r.value.epoch == inc.epoch == m.epoch + 1
  {
    hide IsApplied, Succeeds;
    if inc.fsid != m.fsid {
      return Err(FsidMismatch);
    }
    if inc.epoch != m.epoch + 1 {
      return Err(InvalidSequence);
    }
    if inc.fullMap != [] {
      if replacement.Ok? && (replacement.value.fsid != m.fsid || replacement.value.epoch != inc.epoch
                             || replacement.value.crc != inc.fullCrc) {
        return Err(Malformed);
      }
      return replacement;
    }
    r := ApplyDelta(m, inc, order);
  }

  method UpdateMappings(m: OSDMap, inc: Incremental) returns (next: OSDMap)
    ensures next == Mapped(m, inc)
  {
    hide Merged;
    var pgTemp := ApplyChanges(m.pgTemp, inc.newPgTemp, NoOsds);
    var primaryTemp := ApplyChanges(m.primaryTemp, inc.newPrimaryTemp, Unset);
    var profiles := RemoveAll(m.erasureCodeProfiles, inc.oldErasureProfiles);
    profiles := InsertAll(profiles, inc.newErasureProfiles);
    var upmap := InsertAll(m.pgUpmap, inc.newPgUpmap);
    upmap := RemoveAll(upmap, inc.oldPgUpmap);
    var items := InsertAll(m.pgUpmapItems, inc.newPgUpmapItems);
    items := RemoveAll(items, inc.oldPgUpmapItems);
    var primaries := InsertAll(m.pgUpmapPrimaries, inc.newPgUpmapPrimaries);
    primaries := RemoveAll(primaries, inc.oldPgUpmapPrimaries);
    next := m.(pgTemp := pgTemp, primaryTemp := primaryTemp, erasureCodeProfiles := profiles,
               pgUpmap := upmap, pgUpmapItems := items, pgUpmapPrimaries := primaries);
  }

  lemma NamedIsExact(m: OSDMap, n: Names)
    requires Nearly(n) && m.pools == n.pools && m.nameToId == n.index
    requires forall id :: id in m.pools ==> m.pools[id].name != ""
    ensures NamesExact(m)
  {
  }

  /** Any two orders that both succeed give the same map. */
  lemma OrdersAgree(m: OSDMap, inc: Incremental, a: OSDMap, b: OSDMap)
    requires IsApplied(m, inc, a) && IsApplied(m, inc, b)
    ensures a == b
  {
    hide AppliedOsds, AppliedPools;
    InverseUnique(a.pools, a.nameToId, b.nameToId);
  }

  /** The pools determine an exact index. */
  lemma InverseUnique(pools: map<I64, Pool>, i: map<string, I64>, j: map<string, I64>)
    requires forall id :: id in pools ==> pools[id].name in i && i[pools[id].name] == id
    requires forall id :: id in pools ==> pools[id].name in j && j[pools[id].name] == id
    requires forall name :: name in i ==> i[name] in pools && pools[i[name]].name == name
    requires forall name :: name in j ==> j[name] in pools && pools[j[name]].name == name
    ensures i == j
  {
  }

  // --- what becomes of one OSD

  /** The affinity of an OSD, which an absent vector leaves at the default. */
  function AffinityOf(m: OSDMap, osd: I32): (a: U32)
    requires VectorsAgree(m) && 0 <= osd < m.maxOsd
  {
    if m.primaryAffinity == [] then DEFAULT_PRIMARY_AFFINITY else m.primaryAffinity[osd]
  }

  predicate Kept(m: OSDMap, next: OSDMap, osd: I32) {
    VectorsAgree(m) && VectorsAgree(next) && 0 <= osd < m.maxOsd && osd < next.maxOsd
  }

  lemma PatchedAt<T, C>(s: seq<T>, changes: map<I32, C>, f: (T, C) -> T, i: I32)
    requires 0 <= i < |s|
    ensures Patched(s, changes, f)[i] == if i in changes then f(s[i], changes[i]) else s[i]
  {
  }

  lemma AffinedAt(v: Osds, a: map<I32, U32>, osd: I32)
    requires Even(v) && 0 <= osd < |v.state|
    ensures EnsuredAffinity(Affined(v, a))[osd] == if osd in a then a[osd] else EnsuredAffinity(v)[osd]
  {
    hide Patched;
    PatchedAt(EnsuredAffinity(v), a, SetValue, osd);
  }

  lemma ToggledAt(v: Osds, changes: map<I32, bv32>, osd: I32)
    requires Even(v) && 0 <= osd < |v.state|
    ensures var r := Toggled(v, changes);
            var gone := osd in changes && Destroys(v.state[osd], changes[osd]);
            && r.state[osd] == (if osd in changes then ToggleState(v.state[osd], changes[osd]) else v.state[osd])
            && r.weight == v.weight
            && r.addresses[osd] == (if gone then [] else v.addresses[osd])
            && EnsuredAffinity(r)[osd] == (if gone then DEFAULT_PRIMARY_AFFINITY else EnsuredAffinity(v)[osd])
  {
    hide Patched, Destroys, Affined, ToggleState;
    var d := Destroyed(v.state, changes);
    PatchedAt(v.state, changes, ToggleState, osd);
    PatchedAt(v.addresses, d, ClearAddresses, osd);
    AffinedAt(v, d, osd);
    AffinityOnly(Toggled(v, changes), Affined(v, d));
  }

  lemma SizedAt(m: OSDMap, inc: Incremental, osd: I32)
    requires VectorsAgree(m) && 0 <= osd < m.maxOsd && osd < |Sized(m, inc).state|
    ensures var v := Sized(m, inc);
            && v.state[osd] == m.osdState[osd] && v.weight[osd] == m.osdWeight[osd]
              && v.addresses[osd] == m.clientAddresses[osd]
            && EnsuredAffinity(v)[osd] == AffinityOf(m, osd)
  {
  }

  lemma ChangedAt(m: OSDMap, inc: Incremental, osd: I32)
    requires VectorsAgree(m) && 0 <= osd < |Sized(m, inc).state|
    ensures var s, v := Sized(m, inc), Changed(m, inc);
            var state := if osd in inc.newWeight then Unmark(s.state[osd], inc.newWeight[osd]) else s.state[osd];
            var gone := osd in inc.newState && Destroys(state, inc.newState[osd]);
            && v.state[osd] == (if osd in inc.newState then ToggleState(state, inc.newState[osd]) else state)
            && v.weight[osd] == (if osd in inc.newWeight then inc.newWeight[osd] else s.weight[osd])
            && v.addresses[osd] == (if gone then [] else s.addresses[osd])
            && EnsuredAffinity(v)[osd] == (if gone then DEFAULT_PRIMARY_AFFINITY
                                           else if osd in inc.newPrimaryAffinity then inc.newPrimaryAffinity[osd]
                                           else EnsuredAffinity(s)[osd])
  {
    hide Patched, Destroys, Toggled, Affined, Unmark, ToggleState, Sized;
    var s := Sized(m, inc);
    var w := Reweighted(s, inc.newWeight);
    var a := Affined(w, inc.newPrimaryAffinity);
    PatchedAt(s.weight, inc.newWeight, SetValue, osd);
    PatchedAt(s.state, inc.newWeight, Unmark, osd);
    AffinedAt(w, inc.newPrimaryAffinity, osd);
    AffinityOnly(w, s);
    ToggledAt(a, inc.newState, osd);
  }

  lemma BroughtUpAt(v: Osds, up: map<I32, Addresses>, osd: I32)
    requires Even(v) && 0 <= osd < |v.state|
    ensures var r := BroughtUp(v, up);
            && r.weight == v.weight && EnsuredAffinity(r) == EnsuredAffinity(v)
            && (if osd in up then r.state[osd] == BringUp(v.state[osd], up[osd]) && r.addresses[osd] == up[osd]
                else r.state[osd] == v.state[osd] && r.addresses[osd] == v.addresses[osd])
  {
    hide Patched, BringUp;
    PatchedAt(v.state, up, BringUp, osd);
    PatchedAt(v.addresses, up, SetAddresses, osd);
  }

  /** An OSD the incremental does not mention keeps its state, weight, addresses and affinity,
      even where the vectors are resized or the affinities first appear. */
  lemma UntouchedOsdStays(m: OSDMap, inc: Incremental, next: OSDMap, osd: I32)
    requires VectorsAgree(m) && IsApplied(m, inc, next) && Kept(m, next, osd)
    requires osd !in inc.newWeight && osd !in inc.newPrimaryAffinity && osd !in inc.newState && osd !in inc.newUpClient
    ensures next.osdState[osd] == m.osdState[osd] && next.osdWeight[osd] == m.osdWeight[osd]
    ensures next.clientAddresses[osd] == m.clientAddresses[osd] && AffinityOf(next, osd) == AffinityOf(m, osd)
  {
    hide Sized, Changed, BroughtUp, NamesExact, AppliedPools;
    SizedAt(m, inc, osd);
    ChangedAt(m, inc, osd);
    BroughtUpAt(Changed(m, inc), inc.newUpClient, osd);
  }

  /** An OSD the incremental brings up exists and is up at its new addresses, whatever else changes. */
  lemma RaisedOsdIsUp(m: OSDMap, inc: Incremental, next: OSDMap, osd: I32)
    requires VectorsAgree(m) && IsApplied(m, inc, next) && OsdsValid(m, inc) && osd in inc.newUpClient
    ensures Exists(next, osd) && IsUp(next, osd) && next.clientAddresses[osd] == inc.newUpClient[osd]
  {
    hide Sized, Changed, BroughtUp, NamesExact, AppliedPools;
    BroughtUpAt(Changed(m, inc), inc.newUpClient, osd);
  }

  /** An OSD whose exists bit is toggled off is gone, with no address and the default affinity, unless
      the same incremental brings it up again. */
  lemma DestroyedOsdIsGone(m: OSDMap, inc: Incremental, next: OSDMap, osd: I32)
    requires VectorsAgree(m) && IsApplied(m, inc, next) && Kept(m, next, osd)
    requires Exists(m, osd) && osd in inc.newState && inc.newState[osd] & 1 != 0 && osd !in inc.newUpClient
    ensures !Exists(next, osd) && next.osdState[osd] == 0 && next.clientAddresses[osd] == []
    ensures AffinityOf(next, osd) == DEFAULT_PRIMARY_AFFINITY
  {
    hide Sized, Changed, BroughtUp, NamesExact, AppliedPools;
    SizedAt(m, inc, osd);
    ChangedAt(m, inc, osd);
    BroughtUpAt(Changed(m, inc), inc.newUpClient, osd);
  }

  /** A pool the incremental does not mention keeps its properties, its name and its place in the index. */
  lemma UntouchedPoolStays(m: OSDMap, inc: Incremental, next: OSDMap, id: I64)
    requires NamesExact(m) && IsApplied(m, inc, next) && id in m.pools
    requires id !in inc.newPools && id !in inc.newPoolNames && id !in inc.oldPools
    ensures id in next.pools && next.pools[id] == m.pools[id]
    ensures m.pools[id].name in next.nameToId && next.nameToId[m.pools[id].name] == id
  {
    assert id in AppliedPools(m, inc) && AppliedPools(m, inc)[id] == m.pools[id] by { hide NamesExact, IsApplied; }
    hide AppliedOsds, AppliedPools, Merged;
  }

  /** A table after entries were set and then others removed: removal wins, and the rest stays. */
  predicate SetThenRemoved<K(==), V(==)>(before: map<K, V>, added: map<K, V>, removed: seq<K>, after: map<K, V>, k: K) {
    && (k in after <==> k !in removed && (k in added || k in before))
    && (k in after ==> after[k] == if k in added then added[k] else before[k])
  }

  /** A table after entries were removed and then others set: setting wins, and the rest stays. */
  predicate RemovedThenSet<K(==), V(==)>(before: map<K, V>, removed: seq<K>, added: map<K, V>, after: map<K, V>, k: K) {
    && (k in after <==> k in added || (k in before && k !in removed))
    && (k in after ==> after[k] == if k in added then added[k] else before[k])
  }

  /** A table after changes of which some delete. */
  predicate ChangedBy<K(==), V(==)>(before: map<K, V>, changes: map<K, V>, deletes: V -> bool, after: map<K, V>, k: K) {
    && (k in after <==> if k in changes then !deletes(changes[k]) else k in before)
    && (k in after ==> after[k] == if k in changes then changes[k] else before[k])
  }

  lemma TablesSettle<K, V>(before: map<K, V>, added: map<K, V>, removed: seq<K>, deletes: V -> bool, k: K)
    ensures SetThenRemoved(before, added, removed, (before + added) - (set x | x in removed), k)
    ensures RemovedThenSet(before, removed, added, (before - (set x | x in removed)) + added, k)
    ensures ChangedBy(before, added, deletes, Merged(before, added, deletes), k)
  {
  }

  /** What becomes of each entry of the mapping tables. */
  lemma MappingsSettle(m: OSDMap, inc: Incremental, next: OSDMap, pg: PG, profile: string)
    requires IsApplied(m, inc, next)
    ensures && SetThenRemoved(m.pgUpmap, inc.newPgUpmap, inc.oldPgUpmap, next.pgUpmap, pg)
            && SetThenRemoved(m.pgUpmapItems, inc.newPgUpmapItems, inc.oldPgUpmapItems, next.pgUpmapItems, pg)
            && SetThenRemoved(m.pgUpmapPrimaries, inc.newPgUpmapPrimaries, inc.oldPgUpmapPrimaries,
              next.pgUpmapPrimaries, pg)
            && ChangedBy(m.pgTemp, inc.newPgTemp, (osds: seq<I32>) => osds == [], next.pgTemp, pg)
            && ChangedBy(m.primaryTemp, inc.newPrimaryTemp, (osd: I32) => osd == -1, next.primaryTemp, pg)
            && RemovedThenSet(m.erasureCodeProfiles, inc.oldErasureProfiles, inc.newErasureProfiles,
              next.erasureCodeProfiles, profile)
  {
    hide SetThenRemoved, RemovedThenSet, Merged, NamesExact, AppliedOsds, AppliedPools;
    TablesSettle(m.pgUpmap, inc.newPgUpmap, inc.oldPgUpmap, NoOsds, pg);
    TablesSettle(m.pgUpmapItems, inc.newPgUpmapItems, inc.oldPgUpmapItems, (remaps: seq<OSDRemap>) => false, pg);
    TablesSettle(m.pgUpmapPrimaries, inc.newPgUpmapPrimaries, inc.oldPgUpmapPrimaries, Unset, pg);
    TablesSettle(m.pgTemp, inc.newPgTemp, [], NoOsds, pg);
    TablesSettle(m.primaryTemp, inc.newPrimaryTemp, [], Unset, pg);
    TablesSettle(m.erasureCodeProfiles, inc.newErasureProfiles, inc.oldErasureProfiles,
      (p: map<string, string>) => false, profile);
  }
}
