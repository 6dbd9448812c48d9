/** What an incremental makes of each field, each OSD and each pool (src/maps/incremental.rs), and
    of the CRUSH map that later lookups decode. */
module IncrementalDetail {
  import opened Wrappers
  import opened OsdMap
  import opened Incremental
  import CrushCache

  /** The fields outside the tables, each from the incremental where it brings a value. */
  lemma FieldsSettle(m: OSDMap, inc: Incremental, next: OSDMap)
    requires IsApplied(m, inc, next)
    ensures next.fsid == m.fsid && next.epoch == inc.epoch && next.modified == inc.modified
    ensures next.poolMax == if inc.newPoolMax != -1 then inc.newPoolMax else m.poolMax
    ensures next.flags == if inc.newFlags >= 0 then inc.newFlags else m.flags
    ensures next.maxOsd == if inc.newMaxOsd >= 0 then inc.newMaxOsd else m.maxOsd
    ensures if inc.crushData == [] then next.crushData == m.crushData && next.crushVersion == m.crushVersion
            else
              && next.crushData == inc.crushData
              && (m.crushVersion < 0xffff_ffff ==> next.crushVersion == m.crushVersion + 1)
    ensures next.newRemovedSnapshots == inc.newRemovedSnapshots && next.newPurgedSnapshots == inc.newPurgedSnapshots
    ensures next.lastUpChange == if inc.newLastUpChange != UTime(0, 0) then inc.newLastUpChange else m.lastUpChange
    ensures next.lastInChange == if inc.newLastInChange != UTime(0, 0) then inc.newLastInChange else m.lastInChange
    ensures next.crc == inc.fullCrc && !next.crcVerified && next.appliedIncremental
  {
    hide AppliedOsds, AppliedPools, Merged, NamesExact;
  }

  /** The steps a client takes for the next map: a clone of the handle, new bytes where there are any. */
  function NextHandle(handle: nat, clone: nat, crushData: Bytes): (ops: seq<CrushCache.Operation>) {
    [CrushCache.Clone(handle)] + if crushData == [] then [] else [CrushCache.Replace(clone, crushData)]
  }

  function LookUpBoth(i: nat, j: nat): (ops: seq<CrushCache.Operation>) {
    [CrushCache.Lookup(i), CrushCache.Lookup(j)]
  }

  lemma CloneFirst<V, E>(decode: Bytes -> Result<V, E>, held: seq<Bytes>, handle: nat,
                         rest: seq<CrushCache.Operation>)
    requires handle < |held| && CrushCache.Runnable(rest, |held| + 1)
    ensures var ops := [CrushCache.Clone(handle)] + rest;
            && CrushCache.Runnable(ops, |held|)
            && CrushCache.Answers(decode, held, ops) == CrushCache.Answers(decode, held + [held[handle]], rest)
  {
    assert ([CrushCache.Clone(handle)] + rest)[1..] == rest;
  }

  lemma ReplaceFirst<V, E>(decode: Bytes -> Result<V, E>, held: seq<Bytes>, handle: nat, bytes: Bytes,
                           rest: seq<CrushCache.Operation>)
    requires handle < |held| && CrushCache.Runnable(rest, |held|)
    ensures var ops := [CrushCache.Replace(handle, bytes)] + rest;
            && CrushCache.Runnable(ops, |held|)
            && CrushCache.Answers(decode, held, ops) == CrushCache.Answers(decode, held[handle := bytes], rest)
  {
    assert ([CrushCache.Replace(handle, bytes)] + rest)[1..] == rest;
  }

  lemma LookupFirst<V, E>(decode: Bytes -> Result<V, E>, held: seq<Bytes>, handle: nat,
                          rest: seq<CrushCache.Operation>)
    requires handle < |held| && CrushCache.Runnable(rest, |held|)
    ensures var ops := [CrushCache.Lookup(handle)] + rest;
            && CrushCache.Runnable(ops, |held|)
            && CrushCache.Answers(decode, held, ops) == [decode(held[handle])] + CrushCache.Answers(decode, held, rest)
  {
    assert ([CrushCache.Lookup(handle)] + rest)[1..] == rest;
  }

  lemma TwoLookups<V, E>(decode: Bytes -> Result<V, E>, held: seq<Bytes>, i: nat, j: nat)
    requires i < |held| && j < |held|
    ensures var ops := LookUpBoth(i, j);
            && CrushCache.Runnable(ops, |held|)
            && CrushCache.Answers(decode, held, ops) == [decode(held[i]), decode(held[j])]
  {
    LookupFirst(decode, held, j, []);
    hide CrushCache.Answers, CrushCache.Runnable;
    var last := [CrushCache.Lookup(j)];
    assert [CrushCache.Lookup(j)] + [] == last;
    LookupFirst(decode, held, i, last);
    assert [CrushCache.Lookup(i)] + last == LookUpBoth(i, j);
  }

  lemma UpdateLast(held: seq<Bytes>, a: Bytes, b: Bytes)
    ensures (held + [a])[|held| := b] == held + [b]
  {
  }

  lemma BothEntries<V, E>(decode: Bytes -> Result<V, E>, held: seq<Bytes>, handle: nat, last: Bytes)
    requires handle < |held|
    ensures var ops := LookUpBoth(|held|, handle);
            && CrushCache.Runnable(ops, |held| + 1)
            && CrushCache.Answers(decode, held + [last], ops) == [decode(last), decode(held[handle])]
  {
    hide CrushCache.Answers, CrushCache.Runnable, LookUpBoth;
    TwoLookups(decode, held + [last], |held|, handle);
  }

  lemma CloneDecodes<V, E>(decode: Bytes -> Result<V, E>, held: seq<Bytes>, handle: nat)
    requires handle < |held|
    ensures var ops := [CrushCache.Clone(handle)] + LookUpBoth(|held|, handle);
            && CrushCache.Runnable(ops, |held|)
            && CrushCache.Answers(decode, held, ops) == [decode(held[handle]), decode(held[handle])]
  {
    hide CrushCache.Answers, CrushCache.Runnable, LookUpBoth;
    BothEntries(decode, held, handle, held[handle]);
    CloneFirst(decode, held, handle, LookUpBoth(|held|, handle));
  }

  lemma ReplaceThenLookup<V, E>(decode: Bytes -> Result<V, E>, held: seq<Bytes>, handle: nat, bytes: Bytes)
    requires handle < |held|
    ensures var ops := [CrushCache.Replace(|held|, bytes)] + LookUpBoth(|held|, handle);
            && CrushCache.Runnable(ops, |held| + 1)
            && CrushCache.Answers(decode, held + [held[handle]], ops) == [decode(bytes), decode(held[handle])]
  {
    hide CrushCache.Answers, CrushCache.Runnable, LookUpBoth;
    BothEntries(decode, held, handle, bytes);
    UpdateLast(held, held[handle], bytes);
    ReplaceFirst(decode, held + [held[handle]], |held|, bytes, LookUpBoth(|held|, handle));
  }

  lemma ReplacedDecodes<V, E>(decode: Bytes -> Result<V, E>, held: seq<Bytes>, handle: nat, bytes: Bytes)
    requires handle < |held|
    ensures var ops := [CrushCache.Clone(handle)] + ([CrushCache.Replace(|held|, bytes)] + LookUpBoth(|held|, handle));
            && CrushCache.Runnable(ops, |held|)
            && CrushCache.Answers(decode, held, ops) == [decode(bytes), decode(held[handle])]
  {
    hide CrushCache.Answers, CrushCache.Runnable, LookUpBoth;
    var rest := [CrushCache.Replace(|held|, bytes)] + LookUpBoth(|held|, handle);
    ReplaceThenLookup(decode, held, handle, bytes);
    CloneFirst(decode, held, handle, rest);
  }

  lemma SuccessorDecodes<V, E>(decode: Bytes -> Result<V, E>, held: seq<Bytes>, handle: nat, bytes: Bytes)
    requires handle < |held|
    ensures var ops := NextHandle(handle, |held|, bytes) + LookUpBoth(|held|, handle);
            && CrushCache.Runnable(ops, |held|)
            && CrushCache.Answers(decode, held, ops) ==
               [decode(if bytes == [] then held[handle] else bytes), decode(held[handle])]
  {
    hide CrushCache.Answers, CrushCache.Runnable, LookUpBoth;
    if bytes == [] {
      CloneDecodes(decode, held, handle);
      assert NextHandle(handle, |held|, bytes) == [CrushCache.Clone(handle)];
    } else {
      ReplacedDecodes(decode, held, handle, bytes);
      assert NextHandle(handle, |held|, bytes) + LookUpBoth(|held|, handle) ==
             [CrushCache.Clone(handle)] + ([CrushCache.Replace(|held|, bytes)] + LookUpBoth(|held|, handle));
    }
  }

  /** A lookup on the next map decodes the CRUSH map of the incremental where it brings one; the map
      before it goes on decoding its own. */
  lemma NextMapDecodes<V, E>(decode: Bytes -> Result<V, E>, held: seq<Bytes>, handle: nat, m: OSDMap,
                             inc: Incremental, next: OSDMap)
    requires handle < |held| && held[handle] == m.crushData && IsApplied(m, inc, next)
    ensures var ops := NextHandle(handle, |held|, inc.crushData) + LookUpBoth(|held|, handle);
            && CrushCache.Runnable(ops, |held|)
            && CrushCache.Answers(decode, held, ops) ==
               [decode(next.crushData), decode(m.crushData)]
    ensures next.crushData == if inc.crushData == [] then m.crushData else inc.crushData
  {
    FieldsSettle(m, inc, next);
    SuccessorDecodes(decode, held, handle, inc.crushData);
    hide *;
  }

  /** Each OSD starts from what the map knows of it, or from nothing. */
  lemma StartsAt(m: OSDMap, inc: Incremental, osd: I32)
    requires VectorsAgree(m) && 0 <= osd < |Sized(m, inc).state|
    ensures var v, known := Sized(m, inc), osd < m.maxOsd;
            && Even(v)
            && v.state[osd] == (if known then m.osdState[osd] else 0)
            && v.weight[osd] == (if known then m.osdWeight[osd] else 0)
            && v.addresses[osd] == (if known then m.clientAddresses[osd] else [])
            && EnsuredAffinity(v)[osd] == (if known then AffinityOf(m, osd) else 0x1_0000)
  {
  }

  /** The state of an OSD after its new weight: one that is not zero clears auto-out and new. */
  function Weighed(m: OSDMap, inc: Incremental, osd: I32): (state: bv32)
    requires VectorsAgree(m) && 0 <= osd
  {
    var before: bv32 := if osd < m.maxOsd then m.osdState[osd] else 0;
    if osd in inc.newWeight && inc.newWeight[osd] != 0 then before & 0xffff_fff3 else before
  }

  /** The bits the incremental toggles: none, the up bit where it says zero, or those it names. */
  function Toggles(inc: Incremental, osd: I32): (bits: bv32) {
    if osd !in inc.newState then 0 else if inc.newState[osd] == 0 then 2 else inc.newState[osd]
  }

  /** A toggle that meets a set exists bit wipes the OSD. */
  predicate Wiped(m: OSDMap, inc: Incremental, osd: I32)
    requires VectorsAgree(m) && 0 <= osd
  {
    Weighed(m, inc, osd) & 1 != 0 && Toggles(inc, osd) & 1 != 0
  }

  lemma WeighedIs(m: OSDMap, inc: Incremental, osd: I32)
    requires VectorsAgree(m) && 0 <= osd
    ensures var before := if osd < m.maxOsd then m.osdState[osd] else 0;
            Weighed(m, inc, osd) == if osd in inc.newWeight then Unmark(before, inc.newWeight[osd]) else before
  {
  }

  lemma WipedIs(m: OSDMap, inc: Incremental, osd: I32)
    requires VectorsAgree(m) && 0 <= osd
    ensures Wiped(m, inc, osd) <==> osd in inc.newState && Destroys(Weighed(m, inc, osd), inc.newState[osd])
  {
    hide Weighed;
  }

  lemma FlipBits(state: bv32, bits: bv32, present: bool, change: bv32)
    requires bits == if !present then 0 else if change == 0 then 2 else change
    ensures (if present then ToggleState(state, change) else state) ==
            if present && Destroys(state, change) then 0 else state ^ bits
  {
    hide Destroys;
  }

  lemma ToggledIs(m: OSDMap, inc: Incremental, osd: I32)
    requires VectorsAgree(m) && 0 <= osd
    ensures var state := Weighed(m, inc, osd);
            (if osd in inc.newState then ToggleState(state, inc.newState[osd]) else state)
            == if Wiped(m, inc, osd) then 0 else state ^ Toggles(inc, osd)
  {
    hide Weighed, Destroys, Wiped, ToggleState, Toggles;
    WipedIs(m, inc, osd);
    TogglesIs(inc, osd);
    var present := osd in inc.newState;
    var change := if present then inc.newState[osd] else 0;
    FlipBits(Weighed(m, inc, osd), Toggles(inc, osd), present, change);
  }

  lemma TogglesIs(inc: Incremental, osd: I32)
    ensures Toggles(inc, osd) == if osd !in inc.newState then 0
                                 else if inc.newState[osd] == 0 then 2
                                 else inc.newState[osd]
  {
  }

  /** An OSD before what comes up. */
  lemma ChangeSettles(m: OSDMap, inc: Incremental, osd: I32)
    requires VectorsAgree(m) && 0 <= osd < |Sized(m, inc).state|
    ensures var v, known, wiped := Changed(m, inc), osd < m.maxOsd, Wiped(m, inc, osd);
            && v.state[osd] == (if wiped then 0 else Weighed(m, inc, osd) ^ Toggles(inc, osd))
            && v.weight[osd] == (if osd in inc.newWeight then inc.newWeight[osd]
                                 else if known then m.osdWeight[osd] else 0)
            && v.addresses[osd] == (if wiped || !known then [] else m.clientAddresses[osd])
            && EnsuredAffinity(v)[osd] == (if wiped then 0x1_0000
                                           else if osd in inc.newPrimaryAffinity then inc.newPrimaryAffinity[osd]
                                           else if known then AffinityOf(m, osd) else 0x1_0000)
  {
    hide Sized, Changed, ToggleState, Destroys, EnsuredAffinity, AffinityOf, Weighed, Wiped, Toggles, Unmark;
    StartsAt(m, inc, osd);
    ChangedAt(m, inc, osd);
    WeighedIs(m, inc, osd);
    WipedIs(m, inc, osd);
    ToggledIs(m, inc, osd);
  }

  /** The state, weight, addresses and affinity of each OSD: weights count first, then toggles, then
      what comes up, which exists, is up and is not stopped. */
  lemma OsdSettles(m: OSDMap, inc: Incremental, next: OSDMap, osd: I32)
    requires VectorsAgree(m) && IsApplied(m, inc, next) && 0 <= osd < next.maxOsd
    ensures var known, wiped := osd < m.maxOsd, Wiped(m, inc, osd);
            var toggled := if wiped then 0 else Weighed(m, inc, osd) ^ Toggles(inc, osd);
            && next.osdState[osd] == (if osd in inc.newUpClient then (toggled | 3) & 0xffff_efff else toggled)
            && next.osdWeight[osd] == (if osd in inc.newWeight then inc.newWeight[osd]
                                       else if known then m.osdWeight[osd] else 0)
            && next.clientAddresses[osd] == (if osd in inc.newUpClient then inc.newUpClient[osd]
                                             else if wiped || !known then [] else m.clientAddresses[osd])
            && AffinityOf(next, osd) == (if wiped then 0x1_0000
                                         else if osd in inc.newPrimaryAffinity then inc.newPrimaryAffinity[osd]
                                         else if known then AffinityOf(m, osd) else 0x1_0000)
  {
    hide Sized, Changed, BroughtUp, NamesExact, AppliedPools, Wiped, Weighed, Toggles;
    ChangeSettles(m, inc, osd);
    BroughtUpAt(Changed(m, inc), inc.newUpClient, osd);
  }

  /** The pools: those of the map and of the incremental without what it removes. A replaced pool has
      the new properties under its old name; a rename decides the name of any pool. */
  lemma PoolSettles(m: OSDMap, inc: Incremental, next: OSDMap, id: I64)
    requires IsApplied(m, inc, next)
    ensures id in next.pools <==> (id in m.pools || id in inc.newPools) && id !in inc.oldPools
    ensures id in next.pools ==>
              var pool := if id in inc.newPools then inc.newPools[id] else m.pools[id];
              next.pools[id] == pool.(name := if id in inc.newPoolNames then inc.newPoolNames[id]
                                              else if id in m.pools then m.pools[id].name else pool.name)
  {
    hide AppliedOsds, Merged, NamesExact;
  }
}
