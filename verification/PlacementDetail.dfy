/** Which OSD stands where in a placement (src/maps/placement.rs): the up and acting sets, their
    primaries and the overrides, each told slot by slot. */
module PlacementDetail {
  import opened Wrappers
  import opened CrushMap
  import opened Straw2
  import opened FirstN
  import opened Indep
  import opened CrushRule
  import opened OsdMap
  import opened ObjectPlacement
  import StableMod

  /** An OSD of the map exists by its first state bit, and is up by its first two. */
  lemma StateBits(m: OSDMap, osd: I32)
    requires 0 <= osd < |m.osdState|
    ensures Exists(m, osd) <==> m.osdState[osd] & 1 == 1
    ensures IsUp(m, osd) <==> m.osdState[osd] & 3 == 3
  {
  }

  /** The OSDs of `s` that are up, in order. */
  ghost function UpMembers(m: OSDMap, s: seq<I32>): (t: seq<I32>) {
    if s == [] then [] else (if IsUp(m, s[0]) then [s[0]] else []) + UpMembers(m, s[1..])
  }

  /** `s` without what is down: slot by slot where slots are kept, closed up otherwise. */
  ghost function WithoutDown(m: OSDMap, s: seq<I32>, slots: bool): (t: seq<I32>) {
    if slots then seq(|s|, i requires 0 <= i < |s| => if IsUp(m, s[i]) then s[i] else ITEM_NONE) else UpMembers(m, s)
  }

  lemma {:induction false} UpMembersSplit(m: OSDMap, s: seq<I32>, t: seq<I32>)
    ensures UpMembers(m, s + t) == UpMembers(m, s) + UpMembers(m, t)
  {
    hide IsUp;
    if s == [] {
      assert s + t == t;
    } else {
      assert (s + t)[1..] == s[1..] + t;
      UpMembersSplit(m, s[1..], t);
    }
  }

  lemma {:induction false} OnlyUpIsExact(m: OSDMap, s: seq<I32>, slots: bool)
    ensures OnlyUp(m, s, slots) == WithoutDown(m, s, slots)
  {
    hide IsUp;
    if slots {
      OnlyUpKeepsUp(m, s, true);
    } else if s == [] {
    } else {
      var init, last := s[..|s| - 1], s[|s| - 1];
      OnlyUpIsExact(m, init, false);
      UpMembersSplit(m, init, [last]);
      assert s == init + [last];
    }
  }

  /** The acting set is the temporary set without what is down, where that is not empty, and the up
      set otherwise. The acting primary is the temporary primary where one is set, and otherwise the
      first OSD of the temporary set or the primary of the up set. */
  lemma ActingIsExact(m: OSDMap, h: Hashes, crush: Map, poolId: I64, pg: PG, seed: U32)
    requires GraphOk(crush) && WellShaped(crush)
    requires PlacementOf(m, h, crush, poolId, pg, seed).Some?
    ensures var p := PlacementOf(m, h, crush, poolId, pg, seed).value;
            var sharded := m.pools[poolId].poolType == POOL_TYPE_ERASURE;
            var temporary := if pg in m.pgTemp then WithoutDown(m, m.pgTemp[pg], sharded) else [];
            && p.acting == (if temporary != [] then temporary else p.up)
            && p.actingPrimary ==
               if pg in m.primaryTemp && m.primaryTemp[pg] != -1 then m.primaryTemp[pg]
               else if temporary != [] then FirstOsd(temporary)
               else p.upPrimary
  {
    hide GraphOk, WellShaped, Placed, UpOf, OnlyUp, Placeable, UpmapOk, TempOk, WithoutDown;
    var sharded := m.pools[poolId].poolType == POOL_TYPE_ERASURE;
    if pg in m.pgTemp {
      OnlyUpIsExact(m, m.pgTemp[pg], sharded);
    }
  }

  /** An OSD that takes the primary role when asked: it has an affinity above the top 16 bits of its hash. */
  lemma AcceptsByAffinity(m: OSDMap, h: Hashes, seed: U32, osd: I32)
    requires osd != ITEM_NONE
    ensures Accepts(m, h, seed, osd) <==>
            0 <= osd < |m.primaryAffinity| && h.pair(seed, osd) / 0x1_0000 < m.primaryAffinity[osd]
  {
  }

  /** Position `k` of the set is the one primary affinity picks: the first that accepts the role, or
      the first eligible one where none accepts. */
  ghost predicate Preferred(m: OSDMap, h: Hashes, seed: U32, s: seq<I32>, k: int) {
    && 0 <= k < |s| && Eligible(m, s[k])
    && if Accepts(m, h, seed, s[k]) then forall i :: 0 <= i < k ==> !Accepts(m, h, seed, s[i])
       else
         && (forall i :: 0 <= i < |s| ==> !Accepts(m, h, seed, s[i]))
         && (forall i :: 0 <= i < k ==> !Eligible(m, s[i]))
  }

  /** The up set is what CRUSH and the overrides give without what is down, and its primary the first
      OSD; where affinity picks another, that one is the primary, and leads a replicated set. */
  lemma UpIsAffined(m: OSDMap, h: Hashes, pg: PG, seed: U32, raw: seq<I32>, sharded: bool)
    ensures var (up, primary) := UpOf(m, h, pg, seed, raw, sharded);
            var s := WithoutDown(m, Upmapped(m, pg, raw), sharded);
            if forall i :: 0 <= i < |s| ==> !Eligible(m, s[i]) then up == s && primary == FirstOsd(s)
            else exists k :: Preferred(m, h, seed, s, k) && primary == s[k] &&
                             up == if sharded then s else [s[k]] + s[..k] + s[k + 1..]
  {
    hide Upmapped, OnlyUp, WithoutDown, Eligible, Accepts, FirstOsd;
    OnlyUpIsExact(m, Upmapped(m, pg, raw), sharded);
    var s := WithoutDown(m, Upmapped(m, pg, raw), sharded);
    var choice := AffinityChoice(m, h, seed, s);
    if choice.Some? {
      assert Preferred(m, h, seed, s, choice.value);
    }
  }

  // --- the overrides

  /** An override may put `osd` into a set: its weight, where known, is not zero. */
  predicate Admissible(m: OSDMap, osd: I32) {
    osd < 0 || osd == 0x7fff_ffff || osd >= |m.osdWeight| || m.osdWeight[osd] != 0
  }

  /** One more exchange puts its new OSD where the old one stands first, unless the new one is in the
      set already or may not be put there; every other slot stays. */
  lemma ExchangeIs(m: OSDMap, s: seq<I32>, remaps: seq<OSDRemap>, remap: OSDRemap, i: nat)
    requires i < |s|
    ensures RemapAll(m, s, []) == s
    ensures var before, after := RemapAll(m, s, remaps), RemapAll(m, s, remaps + [remap]);
            after[i] == if before[i] == remap.from && remap.from !in before[..i] && remap.to !in before
                           && Admissible(m, remap.to)
                        then remap.to else before[i]
  {
    assert (remaps + [remap])[..|remaps|] == remaps;
    var before := RemapAll(m, s, remaps);
    if before[i] == remap.from && remap.from !in before[..i] {
      FirstIndexUnique(before, remap.from, i);
    }
  }

  /** A preferred primary with a weight changes places with the OSD in front, if it stands behind it. */
  lemma PromotionIs(m: OSDMap, s: seq<I32>, primary: I32, i: nat)
    requires i < |s|
    ensures var t := Promoted(m, s, primary);
            if 0 <= primary < |m.osdWeight| && primary != 0x7fff_ffff && m.osdWeight[primary] != 0 && primary in s[1..]
            then t[i] == if i == 0 then primary
                         else if s[i] == primary && primary !in s[1..i] then s[0]
                         else s[i]
            else t == s
  {
    if i > 0 && primary in s[1..] && s[i] == primary && primary !in s[1..i] {
      assert s[1..][..i - 1] == s[1..i];
      FirstIndexUnique(s[1..], primary, i - 1);
    }
  }

  /** A full override replaces the set, and then exchanges and promotion apply to it; one that names
      an OSD without weight switches all overrides off. */
  lemma UpmapIs(m: OSDMap, pg: PG, source: seq<I32>)
    ensures var full := if pg in m.pgUpmap then m.pgUpmap[pg] else source;
            var remaps := if pg in m.pgUpmapItems then m.pgUpmapItems[pg] else [];
            var primary := if pg in m.pgUpmapPrimaries then m.pgUpmapPrimaries[pg] else -1;
            Upmapped(m, pg, source) ==
            if pg in m.pgUpmap && exists i :: 0 <= i < |full| && !Admissible(m, full[i]) then source
            else Promoted(m, RemapAll(m, full, remaps), primary)
  {
    assert forall osd: I32 :: WeightedOut(m, osd) <==> !Admissible(m, osd);
  }

  // --- the placement group

  /** A hash is mapped unless the pool is missing, hashes otherwise, or has unusable group counts. */
  lemma MappingRefused(m: OSDMap, h: Hashes, poolId: I64, hash: U32)
    ensures MapRawHash(m, h, poolId, hash).Err? <==>
            || poolId < 0 || poolId !in m.pools
            || m.pools[poolId].objectHash != 2 || m.pools[poolId].flags & 1 != 1
            || m.pools[poolId].pgCount == 0 || m.pools[poolId].placementPgCount == 0
            || m.pools[poolId].placementPgCount > m.pools[poolId].pgCount
  {
    if poolId in m.pools {
      FlagBit(m.pools[poolId].flags);
    }
  }

  lemma FlagBit(flags: bv64)
    ensures flags & 1 != 0 <==> flags & 1 == 1
  {
  }

  /** The group of an object is its hash reduced by the group count; the placement seed depends on
      the hash only through its reduction by the placement group count. */
  lemma MappingIs(m: OSDMap, h: Hashes, poolId: I64, hash: U32, hash': U32)
    requires Mappable(m, poolId)
    ensures var pool, a := m.pools[poolId], MapRawHash(m, h, poolId, hash);
            && a.Ok? && a.value.rawPg == PG(poolId, hash, -1)
            && a.value.pg.pool == poolId && a.value.pg.preferred == -1
            && a.value.pg.seed == StableMod.Modulo(hash, pool.pgCount)
            && exists group: U32 ::
                 && group == StableMod.Modulo(hash, pool.placementPgCount)
                 && a.value.placementSeed == h.pair(group, poolId % 0x1_0000_0000)
    ensures var n, a, b := m.pools[poolId].placementPgCount, MapRawHash(m, h, poolId, hash),
                           MapRawHash(m, h, poolId, hash');
            StableMod.Modulo(hash, n) == StableMod.Modulo(hash', n) ==> a.value.placementSeed == b.value.placementSeed
  {
    StableMod.ModuloInRange(hash, m.pools[poolId].placementPgCount);
  }
}
