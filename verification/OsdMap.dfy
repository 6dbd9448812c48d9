/** The cluster map (src/maps/osdmap.rs). */
module OsdMap {
  import opened Wrappers

  const DEFAULT_PRIMARY_AFFINITY: U32 := 0x1_0000

  datatype MapError = FsidMismatch | InvalidSequence | Malformed | UnsupportedPlacement

  datatype PG = PG(pool: nat, seed: U32, preferred: I32)

  datatype OSDRemap = OSDRemap(from: I32, to: I32)

  datatype Interval = Interval(start: nat, length: nat)

  datatype UTime = UTime(seconds: U32, nanoseconds: U32)

  /** Client addresses of one OSD, as encoded. */
  type Addresses = seq<Bytes>

  datatype Pool = Pool(
    id: I64,
    name: string,
    poolType: nat,
    size: nat,
    crushRule: U32,
    objectHash: nat,
    pgCount: U32,
    placementPgCount: U32,
    flags: bv64)

  datatype OSDMap = OSDMap(
    fsid: Bytes,
    epoch: U32,
    modified: UTime,
    pools: map<I64, Pool>,
    nameToId: map<string, I64>,
    poolMax: I64,
    flags: U32,
    maxOsd: I32,
    osdState: seq<bv32>,
    osdWeight: seq<U32>,
    clientAddresses: seq<Addresses>,
    pgTemp: map<PG, seq<I32>>,
    primaryTemp: map<PG, I32>,
    primaryAffinity: seq<U32>,
    crushData: Bytes,
    erasureCodeProfiles: map<string, map<string, string>>,
    pgUpmap: map<PG, seq<I32>>,
    pgUpmapItems: map<PG, seq<OSDRemap>>,
    crushVersion: U32,
    newRemovedSnapshots: map<I64, seq<Interval>>,
    newPurgedSnapshots: map<I64, seq<Interval>>,
    lastUpChange: UTime,
    lastInChange: UTime,
    pgUpmapPrimaries: map<PG, I32>,
    crc: U32,
    crcVerified: bool,
    appliedIncremental: bool)

  /** The vector lengths `decode_client` insists on. */
  predicate VectorsAgree(m: OSDMap) {
    && 0 <= m.maxOsd
    && |m.osdState| == m.maxOsd
    && |m.osdWeight| == m.maxOsd
    && |m.clientAddresses| == m.maxOsd
    && (m.primaryAffinity == [] || |m.primaryAffinity| == m.maxOsd)
  }

  /** The name index is exactly the inverse of the pools' names, none of which is empty. */
  predicate NamesExact(m: OSDMap) {
    && (forall id :: id in m.pools ==>
          m.pools[id].name != "" && m.pools[id].name in m.nameToId && m.nameToId[m.pools[id].name] == id)
    && (forall n :: n in m.nameToId ==> m.nameToId[n] in m.pools && m.pools[m.nameToId[n]].name == n)
  }

  predicate Exists(m: OSDMap, osd: I32) {
    0 <= osd < |m.osdState| && m.osdState[osd] & 1 != 0
  }

  predicate IsUp(m: OSDMap, osd: I32) {
    0 <= osd < |m.osdState| && m.osdState[osd] & 1 != 0 && m.osdState[osd] & 2 != 0
  }
}
