/** From an object hash to the OSDs that serve it (src/maps/placement.rs). */
module ObjectPlacement {
  import opened Wrappers
  import opened CrushMap
  import opened Straw2
  import opened FirstN
  import opened Indep
  import opened CrushRule
  import opened OsdMap
  import StableMod

  const OBJECT_HASH_RJENKINS: nat := 2
  const POOL_TYPE_REPLICATED: nat := 1
  const POOL_TYPE_ERASURE: nat := 3
  const POOL_FLAG_HASHPSPOOL: bv64 := 1
  const POOL_FLAG_EC_OPTIMIZATIONS: bv64 := 0x8_0000
  const MAX_SHARD: nat := 127

  /** The integer hashes and the logarithm, which stay arbitrary. */
  datatype Hashes = Hashes(triple: (U32, U32, U32) -> U32, pair: (U32, U32) -> U32, ln: U16 -> Logarithm)

  datatype Mapping = Mapping(rawPg: PG, pg: PG, placementSeed: U32)

  datatype Placement = Placement(
    up: seq<I32>, upPrimary: I32, acting: seq<I32>, actingPrimary: I32, primaryShard: nat, sharded: bool)

  /** No OSD twice; empty slots may repeat. */
  predicate DistinctOsds(s: seq<I32>) {
    forall i, j :: 0 <= i < j < |s| && s[i] == s[j] ==> s[i] == ITEM_NONE
  }

  // --- the placement group of a hash

  predicate Mappable(m: OSDMap, poolId: I64) {
    && poolId >= 0 && poolId in m.pools
    && m.pools[poolId].objectHash == OBJECT_HASH_RJENKINS
    && m.pools[poolId].flags & POOL_FLAG_HASHPSPOOL != 0
    && 0 < m.pools[poolId].placementPgCount <= m.pools[poolId].pgCount
  }

  /** `map_raw_hash`: both reductions start from the raw hash. */
  function MapRawHash(m: OSDMap, h: Hashes, poolId: I64, hash: U32): (r: Result<Mapping, MapError>)
  {
    if !Mappable(m, poolId) then Err(UnsupportedPlacement)
    else
      var pool := m.pools[poolId];
      StableMod.ModuloInRange(hash, pool.pgCount);
      StableMod.ModuloInRange(hash, pool.placementPgCount);
      Ok(Mapping(PG(poolId, hash, -1),
                 PG(poolId, StableMod.Modulo(hash, pool.pgCount), -1),
                 h.pair(StableMod.Modulo(hash, pool.placementPgCount), poolId % TWO_32)))
  }

  /** Hashes of one placement group share the placement seed, though it is computed from the hash. */
  lemma SameGroupSameSeed(m: OSDMap, h: Hashes, poolId: I64, hash: U32, hash': U32)
    requires Mappable(m, poolId)
    requires MapRawHash(m, h, poolId, hash).value.pg == MapRawHash(m, h, poolId, hash').value.pg
    ensures MapRawHash(m, h, poolId, hash).value.placementSeed == MapRawHash(m, h, poolId, hash').value.placementSeed
  {
    var pool := m.pools[poolId];
    StableMod.ModuloNested(hash, pool.placementPgCount, pool.pgCount);
    StableMod.ModuloNested(hash', pool.placementPgCount, pool.pgCount);
  }

  // --- upmap overrides

  function IndexOf(s: seq<I32>, x: I32): (k: nat)
    requires x in s
    ensures k < |s| && s[k] == x && x !in s[..k]
  {
    if s[0] == x then 0 else 1 + IndexOf(s[1..], x)
  }

  /** The OSD is known to carry no weight. */
  predicate WeightedOut(m: OSDMap, osd: I32) {
    0 <= osd < |m.osdWeight| && osd != ITEM_NONE && m.osdWeight[osd] == 0
  }

  function RemapOne(m: OSDMap, s: seq<I32>, remap: OSDRemap): (t: seq<I32>)
    ensures |t| == |s|
  {
    if remap.to in s || remap.from !in s || WeightedOut(m, remap.to) then s
    else s[IndexOf(s, remap.from) := remap.to]
  }

  function RemapAll(m: OSDMap, s: seq<I32>, remaps: seq<OSDRemap>): (t: seq<I32>)
    ensures |t| == |s|
  {
    if remaps == [] then s
    else RemapOne(m, RemapAll(m, s, remaps[..|remaps| - 1]), remaps[|remaps| - 1])
  }

  /** Moves a weighted OSD to the front by exchanging it with what is there. */
  function Promoted(m: OSDMap, s: seq<I32>, primary: I32): (t: seq<I32>)
    ensures |t| == |s|
  {
    if 0 <= primary < |m.osdWeight| && primary != ITEM_NONE && m.osdWeight[primary] != 0
       && s != [] && primary in s[1..]
    then
      var k := 1 + IndexOf(s[1..], primary);
      s[0 := s[k]][k := s[0]]
    else s
  }

  function Upmapped(m: OSDMap, pg: PG, source: seq<I32>): (t: seq<I32>) {
    if pg in m.pgUpmap && (exists i :: 0 <= i < |m.pgUpmap[pg]| && WeightedOut(m, m.pgUpmap[pg][i])) then source
    else
      var replaced := if pg in m.pgUpmap then m.pgUpmap[pg] else source;
      var remapped := if pg in m.pgUpmapItems then RemapAll(m, replaced, m.pgUpmapItems[pg]) else replaced;
      if pg in m.pgUpmapPrimaries then Promoted(m, remapped, m.pgUpmapPrimaries[pg]) else remapped
  }

  method ApplyUpmap(m: OSDMap, pg: PG, source: seq<I32>) returns (result: seq<I32>)
    ensures result == Upmapped(m, pg, source)
  {
    result := source;
    if pg in m.pgUpmap {
      var replacement := m.pgUpmap[pg];
      if exists i :: 0 <= i < |replacement| && WeightedOut(m, replacement[i]) {
        return;
      }
      result := replacement;
    }
    ghost var replaced := result;
    if pg in m.pgUpmapItems {
      var remaps := m.pgUpmapItems[pg];
      for k := 0 to |remaps|
        invariant result == RemapAll(m, replaced, remaps[..k])
      {
        assert remaps[..k + 1][..k] == remaps[..k];
        result := ApplyRemap(m, result, remaps[k]);
      }
      assert remaps[..|remaps|] == remaps;
    }
    if pg in m.pgUpmapPrimaries {
      result := PromotePrimary(m, result, m.pgUpmapPrimaries[pg]);
    }
  }

  method ApplyRemap(m: OSDMap, s: seq<I32>, remap: OSDRemap) returns (t: seq<I32>)
    ensures t == RemapOne(m, s, remap)
  {
    var targetExists := false;
    var position: Option<nat> := None;
    var targetOut := WeightedOut(m, remap.to);
    for index := 0 to |s|
      invariant !targetExists ==> remap.to !in s[..index]
      invariant position.None? ==> targetOut || remap.from !in s[..index]
      invariant position.Some? ==>
          !targetOut && position.value < index && s[position.value] == remap.from && remap.from !in s[..position.value]
    {
      if s[index] == remap.to {
        targetExists := true;
        break;
      }
      if s[index] == remap.from && position.None? && !targetOut {
        position := Some(index);
      }
    }
    t := s;
    assert s[..|s|] == s;
    if !targetExists && position.Some? {
      FirstIndexUnique(s, remap.from, position.value);
      t := t[position.value := remap.to];
    }
  }

  lemma FirstIndexUnique(s: seq<I32>, x: I32, k: nat)
    requires k < |s| && s[k] == x && x !in s[..k]
    ensures x in s && IndexOf(s, x) == k
  {
    assert forall i :: 0 <= i < k ==> s[..k][i] != x;
    assert forall i :: 0 <= i < IndexOf(s, x) ==> s[..IndexOf(s, x)][i] != x;
  }

  method PromotePrimary(m: OSDMap, s: seq<I32>, primary: I32) returns (t: seq<I32>)
    ensures t == Promoted(m, s, primary)
  {
    t := s;
    if 0 <= primary < |m.osdWeight| && primary != ITEM_NONE && m.osdWeight[primary] != 0 {
      var index := 1;
      while index < |s|
        invariant t == s && 1 <= index
        invariant index <= |s| ==> primary !in s[1..index]
        invariant index > |s| ==> s == []
      {
        if s[index] == primary {
          assert s[1..][..index - 1] == s[1..index];
          FirstIndexUnique(s[1..], primary, index - 1);
          t := s[0 := s[index]][index := s[0]];
          return;
        }
        index := index + 1;
      }
      assert s != [] ==> s[1..] == s[1..|s|];
    }
  }

  /** Overrides introduce no repetition. */
  lemma UpmapKeepsDistinct(m: OSDMap, pg: PG, source: seq<I32>)
    requires DistinctOsds(source)
    requires pg in m.pgUpmap ==> DistinctOsds(m.pgUpmap[pg])
    ensures DistinctOsds(Upmapped(m, pg, source))
  {
    hide DistinctOsds, Promoted;
    var replaced := if pg in m.pgUpmap then m.pgUpmap[pg] else source;
    if pg in m.pgUpmapItems {
      RemapKeepsDistinct(m, replaced, m.pgUpmapItems[pg]);
    }
    var remapped := if pg in m.pgUpmapItems then RemapAll(m, replaced, m.pgUpmapItems[pg]) else replaced;
    if pg in m.pgUpmapPrimaries {
      PromotionKeepsDistinct(m, remapped, m.pgUpmapPrimaries[pg]);
    }
  }

  lemma PromotionKeepsDistinct(m: OSDMap, s: seq<I32>, primary: I32)
    requires DistinctOsds(s)
    ensures DistinctOsds(Promoted(m, s, primary))
  {
  }

  lemma {:induction false} RemapKeepsDistinct(m: OSDMap, s: seq<I32>, remaps: seq<OSDRemap>)
    requires DistinctOsds(s)
    ensures DistinctOsds(RemapAll(m, s, remaps))
  {
    if remaps == [] {
    } else {
      RemapKeepsDistinct(m, s, remaps[..|remaps| - 1]);
    }
  }

  // --- filtering by state

  function OnlyUp(m: OSDMap, source: seq<I32>, preserveSlots: bool): (t: seq<I32>)
    ensures preserveSlots ==> |t| == |source|
  {
    if source == [] then []
    else
      var front := OnlyUp(m, source[..|source| - 1], preserveSlots);
      var last := source[|source| - 1];
      if IsUp(m, last) then front + [last] else if preserveSlots then front + [ITEM_NONE] else front
  }

  /** Only OSDs that are up remain, and an empty slot where one must be kept. */
  ghost predicate AllUp(m: OSDMap, s: seq<I32>, slots: bool) {
    forall i :: 0 <= i < |s| ==> IsUp(m, s[i]) || (slots && s[i] == ITEM_NONE)
  }

  lemma {:induction false} OnlyUpIsUp(m: OSDMap, source: seq<I32>, slots: bool)
    ensures AllUp(m, OnlyUp(m, source, slots), slots)
    ensures forall x :: x in OnlyUp(m, source, slots) && x != ITEM_NONE ==> x in source
    ensures DistinctOsds(source) ==> DistinctOsds(OnlyUp(m, source, slots))
  {
    if source == [] {
    } else {
      var init, last := source[..|source| - 1], source[|source| - 1];
      OnlyUpIsUp(m, init, slots);
      assert source == init + [last];
      if DistinctOsds(source) && last != ITEM_NONE {
        assert last !in init;
      }
    }
  }

  /** Nothing that is up is lost, and every kept slot keeps its place. */
  lemma {:induction false} OnlyUpKeepsUp(m: OSDMap, source: seq<I32>, slots: bool)
    ensures forall x :: x in source && IsUp(m, x) ==> x in OnlyUp(m, source, slots)
    ensures slots ==> forall i :: 0 <= i < |source| ==>
              OnlyUp(m, source, slots)[i] == if IsUp(m, source[i]) then source[i] else ITEM_NONE
  {
    if source == [] {
    } else {
      hide IsUp;
      var init, last := source[..|source| - 1], source[|source| - 1];
      OnlyUpKeepsUp(m, init, slots);
      assert source == init + [last];
    }
  }

  function FirstOsd(s: seq<I32>): (osd: I32)
    ensures if NoOsd(s) then osd == -1 else exists i :: 0 <= i < |s| && s[i] == osd != ITEM_NONE && NoOsd(s[..i])
  {
    if s == [] then -1
    else if s[0] != ITEM_NONE then
      assert NoOsd(s[..0]);
      s[0]
    else
      var osd := FirstOsd(s[1..]);
      FirstShifts(s, osd);
      osd
  }

  predicate NoOsd(s: seq<I32>) {
    forall i :: 0 <= i < |s| ==> s[i] == ITEM_NONE
  }

  lemma FirstShifts(s: seq<I32>, osd: I32)
    requires s != [] && s[0] == ITEM_NONE
    ensures NoOsd(s[1..]) <==> NoOsd(s)
    ensures (exists i :: 0 <= i < |s[1..]| && s[1..][i] == osd != ITEM_NONE && NoOsd(s[1..][..i])) ==>
            exists i :: 0 <= i < |s| && s[i] == osd != ITEM_NONE && NoOsd(s[..i])
  {
    assert forall i :: 1 <= i < |s| ==> s[i] == s[1..][i - 1];
    if i :| 0 <= i < |s[1..]| && s[1..][i] == osd != ITEM_NONE && NoOsd(s[1..][..i]) {
      assert s[i + 1] == osd && NoOsd(s[..i + 1]);
    }
  }

  // --- primary affinity

  predicate Eligible(m: OSDMap, osd: I32) {
    osd != ITEM_NONE && 0 <= osd < |m.primaryAffinity|
  }

  /** An eligible OSD whose affinity draw accepts the primary role. */
  predicate Accepts(m: OSDMap, h: Hashes, seed: U32, osd: I32) {
    && Eligible(m, osd)
    && (m.primaryAffinity[osd] >= DEFAULT_PRIMARY_AFFINITY || h.pair(seed, osd) / 0x1_0000 < m.primaryAffinity[osd])
  }

  function FirstWhere(s: seq<I32>, p: I32 -> bool): (k: Option<nat>)
    ensures k.Some? ==> k.value < |s| && p(s[k.value]) && forall i :: 0 <= i < k.value ==> !p(s[i])
    ensures k.None? ==> forall i :: 0 <= i < |s| ==> !p(s[i])
  {
    if s == [] then None
    else if p(s[0]) then Some(0)
    else
      var k := FirstWhere(s[1..], p);
      assert forall i :: 1 <= i < |s| ==> s[i] == s[1..][i - 1];
      if k.None? then None else Some(k.value + 1)
  }

  /** The new primary: the first OSD that accepts, or else the first eligible one. */
  function AffinityChoice(m: OSDMap, h: Hashes, seed: U32, osds: seq<I32>): (k: Option<nat>)
    ensures k.None? <==> forall i :: 0 <= i < |osds| ==> !Eligible(m, osds[i])
    ensures k.Some? ==> k.value < |osds| && Eligible(m, osds[k.value])
    ensures k.Some? && Accepts(m, h, seed, osds[k.value]) ==> forall i :: 0 <= i < k.value ==>
        !Accepts(m, h, seed, osds[i])
    ensures k.Some? && !Accepts(m, h, seed, osds[k.value]) ==>
              && (forall i :: 0 <= i < |osds| ==> !Accepts(m, h, seed, osds[i]))
              && (forall i :: 0 <= i < k.value ==> !Eligible(m, osds[i]))
  {
    var accepting := FirstWhere(osds, (osd: I32) => Accepts(m, h, seed, osd));
    if accepting.Some? then accepting else FirstWhere(osds, (osd: I32) => Eligible(m, osd))
  }

  /** Primary affinity applied: the set, rotated when the primary must come first, and the primary. */
  function Affined(m: OSDMap, h: Hashes, seed: U32, osds: seq<I32>, primary: I32,
                   shiftPrimary: bool): (r: (seq<I32>, I32))
  {
    match AffinityChoice(m, h, seed, osds)
    case None => (osds, primary)
    case Some(k) => (if shiftPrimary then Fronted(osds, k) else osds, osds[k])
  }

  method ApplyPrimaryAffinity(m: OSDMap, h: Hashes, seed: U32, osds: seq<I32>, primary: I32, shiftPrimary: bool)
    returns (osds': seq<I32>, primary': I32)
    ensures (osds', primary') == Affined(m, h, seed, osds, primary, shiftPrimary)
  {
    if m.primaryAffinity == [] {
      return osds, primary;
    }
    var position: Option<nat> := None;
    for index := 0 to |osds|
      invariant position.Some? ==> position.value < index && Eligible(m, osds[position.value])
      invariant position.Some? ==> forall i :: 0 <= i < position.value ==> !Eligible(m, osds[i])
      invariant position.None? ==> forall i :: 0 <= i < index ==> !Eligible(m, osds[i])
      invariant forall i :: 0 <= i < index ==> !Accepts(m, h, seed, osds[i])
    {
      var osd := osds[index];
      if !Eligible(m, osd) {
        continue;
      }
      if !Accepts(m, h, seed, osd) {
        if position.None? {
          position := Some(index);
        }
        continue;
      }
      position := Some(index);
      assert AffinityChoice(m, h, seed, osds) == position;
      osds', primary' := if shiftPrimary && index > 0 then Fronted(osds, index) else osds, osd;
      return;
    }
    assert AffinityChoice(m, h, seed, osds) == position;
    if position.None? {
      return osds, primary;
    }
    osds' := if shiftPrimary && position.value > 0 then Fronted(osds, position.value) else osds;
    primary' := osds[position.value];
  }

  /** `copy_within(0..k, 1)` and the chosen element in front. */
  function Fronted(s: seq<I32>, k: nat): (t: seq<I32>)
    requires k < |s|
    ensures |t| == |s| && (k == 0 ==> t == s)
  {
    [s[k]] + s[..k] + s[k + 1..]
  }

  lemma FrontedPermutes(s: seq<I32>, k: nat)
    requires k < |s|
    ensures multiset(Fronted(s, k)) == multiset(s)
    ensures DistinctOsds(s) ==> DistinctOsds(Fronted(s, k))
  {
    assert s == s[..k] + [s[k]] + s[k + 1..];
  }

  // --- validation and temporary mappings

  predicate SetOk(m: OSDMap, osds: seq<I32>, allowDuplicates: bool) {
    && (forall i :: 0 <= i < |osds| ==> osds[i] == ITEM_NONE || Exists(m, osds[i]))
    && (allowDuplicates || DistinctOsds(osds))
  }

  method ValidatePlacementSet(m: OSDMap, osds: seq<I32>, allowDuplicates: bool) returns (ok: bool)
    ensures ok == SetOk(m, osds, allowDuplicates)
  {
    var seen: set<I32> := {};
    for index := 0 to |osds|
      invariant forall i :: 0 <= i < index ==> osds[i] == ITEM_NONE || Exists(m, osds[i])
      invariant !allowDuplicates ==> forall x :: x in seen <==> x != ITEM_NONE && x in osds[..index]
      invariant !allowDuplicates ==> DistinctOsds(osds[..index])
    {
      var osd := osds[index];
      if osd == ITEM_NONE {
        continue;
      }
      if !Exists(m, osd) {
        return false;
      }
      if !allowDuplicates {
        if osd in seen {
          assert osd in osds[..index];
          return false;
        }
        seen := seen + {osd};
      }
    }
    assert osds[..|osds|] == osds;
    return true;
  }

  predicate UpmapOk(m: OSDMap, pg: PG) {
    && (pg in m.pgUpmap ==> SetOk(m, m.pgUpmap[pg], false))
    && (pg in m.pgUpmapItems ==>
          forall i :: 0 <= i < |m.pgUpmapItems[pg]| ==>
            m.pgUpmapItems[pg][i].to == ITEM_NONE || Exists(m, m.pgUpmapItems[pg][i].to))
  }

  predicate TempOk(m: OSDMap, pg: PG, sharded: bool) {
    pg in m.pgTemp ==> SetOk(m, m.pgTemp[pg], sharded)
  }

  /** The temporary acting set and primary, empty and -1 where there is none. */
  function Temporary(m: OSDMap, pg: PG, sharded: bool): (t: (seq<I32>, I32)) {
    var primary := if pg in m.primaryTemp then m.primaryTemp[pg] else -1;
    if pg !in m.pgTemp then ([], primary)
    else
      var set_ := OnlyUp(m, m.pgTemp[pg], sharded);
      (set_, if primary == -1 then FirstOsd(set_) else primary)
  }

  function ActingOf(m: OSDMap, pg: PG, sharded: bool, up: seq<I32>, upPrimary: I32): (a: (seq<I32>, I32)) {
    var (acting, primary) := Temporary(m, pg, sharded);
    if acting == [] then (up, if primary == -1 then upPrimary else primary) else (acting, primary)
  }

  // --- the whole pipeline

  predicate PoolSupported(pool: Pool) {
    && (pool.poolType == POOL_TYPE_REPLICATED || pool.poolType == POOL_TYPE_ERASURE)
    && !(pool.poolType == POOL_TYPE_ERASURE && pool.flags & POOL_FLAG_EC_OPTIMIZATIONS != 0)
    && pool.size != 0
  }

  function EnvOf(m: OSDMap, h: Hashes, crush: Map): (e: Env) {
    Env(crush, m.osdWeight, h.triple, h.pair, h.ln)
  }

  /** The up set and its primary, from what CRUSH chose. */
  function UpOf(m: OSDMap, h: Hashes, pg: PG, seed: U32, raw: seq<I32>, sharded: bool): (u: (seq<I32>, I32)) {
    var up := OnlyUp(m, Upmapped(m, pg, raw), sharded);
    Affined(m, h, seed, up, FirstOsd(up), !sharded)
  }

  predicate Admitted(m: OSDMap, crush: Map, poolId: I64, pg: PG) {
    && poolId in m.pools && PoolSupported(m.pools[poolId])
    && Placeable(crush, m.pools[poolId].crushRule, m.pools[poolId].size)
    && UpmapOk(m, pg) && TempOk(m, pg, m.pools[poolId].poolType == POOL_TYPE_ERASURE)
  }

  /** The placement of a mapped object; none where the client refuses to place it. */
  ghost function PlacementOf(m: OSDMap, h: Hashes, crush: Map, poolId: I64, pg: PG, seed: U32): (p: Option<Placement>)
    requires GraphOk(crush) && WellShaped(crush)
  {
    hide GraphOk, WellShaped;
    if !Admitted(m, crush, poolId, pg) then None
    else
      var pool := m.pools[poolId];
      var sharded := pool.poolType == POOL_TYPE_ERASURE;
      var raw := Placed(EnvOf(m, h, crush), crush.rules[pool.crushRule], seed, pool.size);
      var (up, upPrimary) := UpOf(m, h, pg, seed, raw, sharded);
      var (acting, primary) := ActingOf(m, pg, sharded, up, upPrimary);
      if primary !in acting then
        if primary == -1 then Some(Placement(up, upPrimary, acting, -1, 0, false)) else None
      else if !sharded then Some(Placement(up, upPrimary, acting, primary, 0, false))
      else if IndexOf(acting, primary) > MAX_SHARD then None
      else Some(Placement(up, upPrimary, acting, primary, IndexOf(acting, primary), true))
  }

  method PlaceMapped(m: OSDMap, h: Hashes, crush: Map, poolId: I64, mapping: Mapping)
    returns (r: Result<Placement, MapError>)
    requires GraphOk(crush) && WellShaped(crush)
    ensures r.Ok? <==> PlacementOf(m, h, crush, poolId, mapping.pg, mapping.placementSeed).Some?
    ensures r.Ok? ==> r.value == PlacementOf(m, h, crush, poolId, mapping.pg, mapping.placementSeed).value
  {
    hide GraphOk, WellShaped, Placed, SetOk, Upmapped, OnlyUp, Affined, Placeable;
    if poolId !in m.pools {
      return Err(UnsupportedPlacement);
    }
    var pool := m.pools[poolId];
    if pool.poolType != POOL_TYPE_REPLICATED && pool.poolType != POOL_TYPE_ERASURE {
      return Err(UnsupportedPlacement);
    }
    if pool.poolType == POOL_TYPE_ERASURE && pool.flags & POOL_FLAG_EC_OPTIMIZATIONS != 0 {
      return Err(UnsupportedPlacement);
    }
    if pool.size == 0 {
      return Err(UnsupportedPlacement);
    }
    var pg := mapping.pg;
    var raw := PlaceValidated(EnvOf(m, h, crush), pool.crushRule, mapping.placementSeed, pool.size);
    if raw.Err? {
      return Err(UnsupportedPlacement);
    }
    var upmapOk := ValidateUpmap(m, pg);
    if !upmapOk {
      return Err(UnsupportedPlacement);
    }
    var sharded := pool.poolType == POOL_TYPE_ERASURE;
    var mapped := ApplyUpmap(m, pg, raw.value);
    var up := OnlyUp(m, mapped, sharded);
    var upPrimary := FirstOsd(up);
    up, upPrimary := ApplyPrimaryAffinity(m, h, mapping.placementSeed, up, upPrimary, !sharded);
    if pg in m.pgTemp {
      var tempOk := ValidatePlacementSet(m, m.pgTemp[pg], sharded);
      if !tempOk {
        return Err(UnsupportedPlacement);
      }
    }
    var (acting, primary) := ActingOf(m, pg, sharded, up, upPrimary);
    if primary != -1 && primary !in acting {
      return Err(UnsupportedPlacement);
    }
    r := FindShard(Placement(up, upPrimary, acting, primary, 0, false), sharded);
  }

  method FindShard(p: Placement, sharded: bool) returns (r: Result<Placement, MapError>)
    ensures if !sharded || p.actingPrimary !in p.acting then r == Ok(p)
            else if IndexOf(p.acting, p.actingPrimary) > MAX_SHARD then r.Err?
            else r == Ok(p.(primaryShard := IndexOf(p.acting, p.actingPrimary), sharded := true))
  {
    if sharded {
      for index := 0 to |p.acting|
        invariant p.actingPrimary !in p.acting[..index]
      {
        if p.acting[index] == p.actingPrimary {
          FirstIndexUnique(p.acting, p.actingPrimary, index);
          if index > 127 {
            return Err(UnsupportedPlacement);
          }
          return Ok(p.(primaryShard := index, sharded := true));
        }
      }
      assert p.acting[..|p.acting|] == p.acting;
    }
    return Ok(p);
  }

  method ValidateUpmap(m: OSDMap, pg: PG) returns (ok: bool)
    ensures ok == UpmapOk(m, pg)
  {
    if pg in m.pgUpmap {
      ok := ValidatePlacementSet(m, m.pgUpmap[pg], false);
      if !ok {
        return;
      }
    }
    if pg in m.pgUpmapItems {
      var remaps := m.pgUpmapItems[pg];
      for index := 0 to |remaps|
        invariant forall i :: 0 <= i < index ==> remaps[i].to == ITEM_NONE || Exists(m, remaps[i].to)
      {
        if remaps[index].to != ITEM_NONE && !Exists(m, remaps[index].to) {
          return false;
        }
      }
    }
    return true;
  }

  // --- what every placement satisfies

  /** Up and acting sets name OSDs that are up, once each except that a temporary erasure set may
      repeat one; each primary belongs to its set, and an erasure primary is found at its shard. */
  ghost predicate GoodPlacement(m: OSDMap, sharded: bool, p: Placement) {
    && AllUp(m, p.up, sharded) && DistinctOsds(p.up)
    && (if NoOsd(p.up) then p.upPrimary == -1 else p.upPrimary in p.up && p.upPrimary != ITEM_NONE)
    && AllUp(m, p.acting, sharded) && (!sharded ==> DistinctOsds(p.acting))
    && (p.actingPrimary == -1 || p.actingPrimary in p.acting)
    && (p.sharded <==> sharded && p.actingPrimary != -1)
    && (p.sharded ==>
      p.primaryShard < |p.acting| && p.primaryShard <= MAX_SHARD && p.acting[p.primaryShard] == p.actingPrimary)
  }

  lemma RawIsDistinct(e: Env, ruleId: U32, seed: U32, replicas: nat)
    requires GraphOk(e.crush) && WellShaped(e.crush) && Placeable(e.crush, ruleId, replicas)
    ensures DistinctOsds(Placed(e, e.crush.rules[ruleId], seed, replicas))
  {
    hide GraphOk, WellShaped, GoodSelection, Usable, Below, CertifiedRule, Placed;
    var rule := e.crush.rules[ruleId];
    if rule.ruleType == RULE_TYPE_REPLICATED {
      ReplicatedPlacement(e, rule, seed, replicas);
    } else {
      ErasurePlacement(e, rule, seed, replicas);
    }
  }

  /** Primary affinity reorders a replicated set and leaves every erasure slot where it was. */
  lemma AffinityPermutes(m: OSDMap, h: Hashes, seed: U32, osds: seq<I32>, primary: I32, shiftPrimary: bool)
    ensures var (osds', primary') := Affined(m, h, seed, osds, primary, shiftPrimary);
            && multiset(osds') == multiset(osds) && |osds'| == |osds|
            && (!shiftPrimary ==> osds' == osds)
            && (primary' == primary || (primary' in osds && primary' != ITEM_NONE))
            && (DistinctOsds(osds) ==> DistinctOsds(osds'))
            && (shiftPrimary && primary' != primary ==> osds'[0] == primary')
  {
    hide DistinctOsds;
    var k := AffinityChoice(m, h, seed, osds);
    if k.Some? {
      FrontedPermutes(osds, k.value);
    }
  }

  lemma SameMembers(s: seq<I32>, t: seq<I32>)
    requires multiset(s) == multiset(t)
    ensures forall x :: x in s <==> x in t
  {
    forall x ensures x in s <==> x in t {
      assert x in s <==> x in multiset(s);
    }
  }

  lemma UpIsGood(m: OSDMap, h: Hashes, pg: PG, seed: U32, raw: seq<I32>, sharded: bool)
    requires VectorsAgree(m) && DistinctOsds(raw) && UpmapOk(m, pg)
    ensures var (up, upPrimary) := UpOf(m, h, pg, seed, raw, sharded);
            && AllUp(m, up, sharded) && DistinctOsds(up)
            && (if NoOsd(up) then upPrimary == -1 else upPrimary in up && upPrimary != ITEM_NONE)
  {
    assert pg in m.pgUpmap ==> DistinctOsds(m.pgUpmap[pg]);
    hide VectorsAgree, DistinctOsds, UpmapOk, OnlyUp, Upmapped, Affined, AllUp, NoOsd, FirstOsd, IsUp;
    var mapped := Upmapped(m, pg, raw);
    UpmapKeepsDistinct(m, pg, raw);
    var before := OnlyUp(m, mapped, sharded);
    OnlyUpIsUp(m, mapped, sharded);
    AffinityPermutes(m, h, seed, before, FirstOsd(before), !sharded);
    var (up, upPrimary) := UpOf(m, h, pg, seed, raw, sharded);
    SameMembers(up, before);
    SameOsds(m, before, up, sharded);
    FirstIsUp(m, before, sharded);
  }

  /** The up set holds exactly what CRUSH and the overrides chose and is up; an erasure set slot by slot. */
  lemma UpIsExact(m: OSDMap, h: Hashes, pg: PG, seed: U32, raw: seq<I32>, sharded: bool)
    requires VectorsAgree(m)
    ensures var (up, upPrimary) := UpOf(m, h, pg, seed, raw, sharded); var mapped := Upmapped(m, pg, raw);
            && (forall x :: x in up && x != ITEM_NONE <==> x in mapped && IsUp(m, x))
            && (sharded ==> |up| == |mapped| && forall i :: 0 <= i < |up| ==>
                  up[i] == if IsUp(m, mapped[i]) then mapped[i] else ITEM_NONE)
  {
    var mapped := Upmapped(m, pg, raw);
    var before := OnlyUp(m, mapped, sharded);
    assert !IsUp(m, ITEM_NONE);
    hide VectorsAgree, DistinctOsds, OnlyUp, Upmapped, Affined, IsUp;
    OnlyUpIsUp(m, mapped, sharded);
    OnlyUpKeepsUp(m, mapped, sharded);
    AffinityPermutes(m, h, seed, before, FirstOsd(before), !sharded);
    var (up, upPrimary) := UpOf(m, h, pg, seed, raw, sharded);
    SameMembers(up, before);
    assert forall x :: x in before && x != ITEM_NONE ==> IsUp(m, x);
  }

  lemma SameOsds(m: OSDMap, s: seq<I32>, t: seq<I32>, sharded: bool)
    requires (forall x :: x in s <==> x in t) && AllUp(m, s, sharded)
    ensures AllUp(m, t, sharded) && (NoOsd(s) <==> NoOsd(t))
  {
    hide IsUp;
    assert forall i :: 0 <= i < |t| ==> t[i] in s;
    assert forall i :: 0 <= i < |s| ==> s[i] in t;
  }

  lemma FirstIsUp(m: OSDMap, s: seq<I32>, sharded: bool)
    requires AllUp(m, s, sharded)
    ensures if NoOsd(s) then FirstOsd(s) == -1 else FirstOsd(s) in s && FirstOsd(s) != ITEM_NONE
  {
  }

  lemma ActingIsGood(m: OSDMap, pg: PG, sharded: bool, up: seq<I32>, upPrimary: I32)
    requires VectorsAgree(m) && TempOk(m, pg, sharded)
    requires AllUp(m, up, sharded) && DistinctOsds(up)
    requires if NoOsd(up) then upPrimary == -1 else upPrimary in up && upPrimary != ITEM_NONE
    ensures var (acting, primary) := ActingOf(m, pg, sharded, up, upPrimary);
            && AllUp(m, acting, sharded) && (!sharded ==> DistinctOsds(acting))
            && (primary == ITEM_NONE <==> pg in m.primaryTemp && m.primaryTemp[pg] == ITEM_NONE)
            && (primary == -1 <==> NoOsd(acting) && (pg in m.primaryTemp ==> m.primaryTemp[pg] == -1))
            && (primary in acting || primary == -1 || (pg in m.primaryTemp && primary == m.primaryTemp[pg]))
  {
    if pg in m.pgTemp {
      OnlyUpIsUp(m, m.pgTemp[pg], sharded);
    }
  }

  /** Every placement is good. Its acting primary is an OSD that is up, or -1, or -- exactly when a
      temporary primary names the empty slot -- the empty slot of an erasure set. */
  lemma PlacementIsGood(m: OSDMap, h: Hashes, crush: Map, poolId: I64, pg: PG, seed: U32)
    requires GraphOk(crush) && WellShaped(crush) && VectorsAgree(m)
    requires PlacementOf(m, h, crush, poolId, pg, seed).Some?
    ensures var p := PlacementOf(m, h, crush, poolId, pg, seed).value;
            var sharded := m.pools[poolId].poolType == POOL_TYPE_ERASURE;
            && GoodPlacement(m, sharded, p)
            && (p.actingPrimary == -1 || IsUp(m, p.actingPrimary) || (sharded && p.actingPrimary == ITEM_NONE))
            && (p.actingPrimary == ITEM_NONE <==> pg in m.primaryTemp && m.primaryTemp[pg] == ITEM_NONE)
            && (p.actingPrimary == -1 <==> NoOsd(p.acting) && !(pg in m.primaryTemp && m.primaryTemp[pg] == ITEM_NONE))
  {
    hide GraphOk, WellShaped, Placed, DistinctOsds, UpmapOk, TempOk, UpOf, ActingOf, CertifiedRule;
    var pool := m.pools[poolId];
    var sharded := pool.poolType == POOL_TYPE_ERASURE;
    var e := EnvOf(m, h, crush);
    RawIsDistinct(e, pool.crushRule, seed, pool.size);
    var raw := Placed(e, crush.rules[pool.crushRule], seed, pool.size);
    UpIsGood(m, h, pg, seed, raw, sharded);
    var (up, upPrimary) := UpOf(m, h, pg, seed, raw, sharded);
    ActingIsGood(m, pg, sharded, up, upPrimary);
  }

  /** A temporary primary that names the empty slot: an admitted erasure pool without a temporary set is
      placed exactly when its up set has an empty slot within reach, which then is the acting primary. */
  lemma EmptySlotAsPrimary(m: OSDMap, h: Hashes, crush: Map, poolId: I64, pg: PG, seed: U32)
    requires GraphOk(crush) && WellShaped(crush) && Admitted(m, crush, poolId, pg)
    requires m.pools[poolId].poolType == POOL_TYPE_ERASURE
    requires pg !in m.pgTemp && pg in m.primaryTemp && m.primaryTemp[pg] == ITEM_NONE
    ensures var pool := m.pools[poolId];
            var raw := Placed(EnvOf(m, h, crush), crush.rules[pool.crushRule], seed, pool.size);
            var up := UpOf(m, h, pg, seed, raw, true).0;
            var p := PlacementOf(m, h, crush, poolId, pg, seed);
            && (p.Some? <==> ITEM_NONE in up && IndexOf(up, ITEM_NONE) <= MAX_SHARD)
            && (p.Some? ==> p.value.acting == up && p.value.actingPrimary == ITEM_NONE && p.value.sharded
                            && up[p.value.primaryShard] == ITEM_NONE)
  {
    hide GraphOk, WellShaped, Placed, UpOf, UpmapOk, TempOk, Placeable;
  }

  /** One bucket that holds one device, and an erasure rule that starts from it. */
  const ONE_DEVICE := Map(
    1, map[-1 := Bucket(-1, 1, [0], [0x1_0000])],
    map[0 := Rule(RULE_TYPE_ERASURE,
                  [RuleStep(RULE_SET_CHOOSELEAF_TRIES, 5, 0), RuleStep(RULE_SET_CHOOSE_TRIES, 100, 0),
                   RuleStep(RULE_TAKE, -1, 0), RuleStep(RULE_CHOOSE_INDEP, 0, 0), RuleStep(RULE_EMIT, 0, 0)])],
    0, 0, 50, 1, 1, 1, 54, 1, 100, 100, {})

  lemma OneDeviceIsOk()
    ensures GraphOk(ONE_DEVICE) && WellShaped(ONE_DEVICE) && Placeable(ONE_DEVICE, 0, 1)
  {
    var m := ONE_DEVICE;
    assert IsChainFrom(m, -1, [-1]);
    forall c | IsChainFrom(m, -1, c) ensures |c| <= 1 {
      assert |c| > 1 ==> Child(m, c[0], c[1]);
    }
    AllMeasured(m, map[-1 := 1]);
  }

  /** A map with that device down, an erasure pool of one shard, and a temporary primary that names the
      empty slot. */
  function DownMap(pg: PG): (m: OSDMap) {
    OSDMap([], 1, UTime(0, 0), map[1 := Pool(1, "x", POOL_TYPE_ERASURE, 1, 0, OBJECT_HASH_RJENKINS, 1, 1, 1)],
           map["x" := 1], 1, 0, 1, [1], [0x1_0000], [[]], map[], map[pg := ITEM_NONE], [], [], map[], map[], map[],
           1, map[], map[], UTime(0, 0), UTime(0, 0), map[], 0, false, false)
  }

  lemma NoneUp(m: OSDMap, source: seq<I32>)
    requires |source| == 1 && !IsUp(m, source[0])
    ensures OnlyUp(m, source, true) == [ITEM_NONE]
  {
  }

  /** The case is real: for every hash and seed that map is placed with the empty slot as acting primary. */
  lemma EmptySlotIsReached(h: Hashes, pg: PG, seed: U32)
    ensures GraphOk(ONE_DEVICE) && WellShaped(ONE_DEVICE) && VectorsAgree(DownMap(pg)) && NamesExact(DownMap(pg))
    ensures PlacementOf(DownMap(pg), h, ONE_DEVICE, 1, pg, seed)
         == Some(Placement([ITEM_NONE], -1, [ITEM_NONE], ITEM_NONE, 0, true))
  {
    var m, e := DownMap(pg), EnvOf(DownMap(pg), h, ONE_DEVICE);
    OneDeviceIsOk();
    hide GraphOk, WellShaped, Placed;
    var rule := ONE_DEVICE.rules[0];
    ErasurePlacement(e, rule, seed, 1);
    var raw := Placed(e, rule, seed, 1);
    assert Upmapped(m, pg, raw) == raw;
    NoneUp(m, raw);
    assert FirstOsd([ITEM_NONE]) == -1;
    assert UpOf(m, h, pg, seed, raw, true) == ([ITEM_NONE], -1);
  }

  /** Objects of one placement group are placed alike. */
  lemma SameGroupSamePlacement(m: OSDMap, h: Hashes, crush: Map, poolId: I64, hash: U32, hash': U32)
    requires GraphOk(crush) && WellShaped(crush) && Mappable(m, poolId)
    requires MapRawHash(m, h, poolId, hash).value.pg == MapRawHash(m, h, poolId, hash').value.pg
    ensures var a, b := MapRawHash(m, h, poolId, hash).value, MapRawHash(m, h, poolId, hash').value;
            PlacementOf(m, h, crush, poolId, a.pg, a.placementSeed)
              == PlacementOf(m, h, crush, poolId, b.pg, b.placementSeed)
  {
    hide PlacementOf;
    SameGroupSameSeed(m, h, poolId, hash, hash');
  }
}
