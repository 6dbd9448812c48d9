/** The weighted draw that picks one item of a bucket (src/crush/place.rs). */
module Straw2 {
  import opened Wrappers
  import opened CrushMap
  import opened Arithmetic

  const LN_ONE: int := 0x1_0000_0000_0000

  type U16 = x: int | 0 <= x < 0x1_0000

  /** The range of `crush_ln`: at most 2^48. */
  type Logarithm = x: int | 0 <= x <= 0x1_0000_0000_0000

  /** What a placement reads: the map, the OSD weights, and the two integer hashes and the
      logarithm table, which stay arbitrary functions. */
  datatype Env = Env(
    crush: Map,
    weights: seq<U32>,
    hashTriple: (U32, U32, U32) -> U32,
    hashPair: (U32, U32) -> U32,
    crushLn: U16 -> Logarithm)

  /** More items than a bucket decoded from at most 2^32 bytes can hold. */
  const MAX_ITEMS: nat := 0x4000_0000

  /** Buckets as the decoder builds them: filed under their own negative id, one weight for each item. */
  predicate WellShaped(m: Map) {
    forall x :: x in m.buckets ==>
      && m.buckets[x].id == x < 0
      && |m.buckets[x].items| == |m.buckets[x].itemWeights| <= MAX_ITEMS
  }

  /** Division that truncates toward zero, for a dividend that is not positive. */
  function TruncatedDiv(n: int, d: int): (q: int)
    requires n <= 0 < d
    ensures n <= q <= 0
  {
    QuotientBound(-n, d);
    -((-n) / d)
  }

  /** One straw: an item of weight zero draws the least 64-bit integer. */
  function Draw(e: Env, item: I32, weight: U32, seed: U32, r: U32): (draw: int)
    ensures if weight == 0 then draw == I64_MIN else I64_MIN < -LN_ONE <= draw <= 0
  {
    if weight == 0 then I64_MIN
    else TruncatedDiv(e.crushLn(e.hashTriple(seed, CastUnsigned(item), r) % 0x1_0000) - LN_ONE, weight)
  }

  /** `k` is the first of the greatest elements. */
  predicate IsFirstMax(draws: seq<int>, k: nat) {
    && k < |draws|
    && (forall j :: 0 <= j < |draws| ==> draws[j] <= draws[k])
    && (forall j :: 0 <= j < k ==> draws[j] < draws[k])
  }

  function FirstMax(draws: seq<int>): (k: nat)
    requires draws != []
    ensures IsFirstMax(draws, k)
  {
    if |draws| == 1 then 0
    else
      var k := FirstMax(draws[..|draws| - 1]);
      if draws[|draws| - 1] > draws[k] then |draws| - 1 else k
  }

  function Draws(e: Env, b: Bucket, seed: U32, r: U32): (draws: seq<int>)
    requires |b.items| == |b.itemWeights|
  {
    seq(|b.items|, i requires 0 <= i < |b.items| => Draw(e, b.items[i], b.itemWeights[i], seed, r))
  }

  /** The slot with the longest straw. */
  function Straw2Index(e: Env, b: Bucket, seed: U32, r: U32): (k: nat)
    requires b.items != [] && |b.items| == |b.itemWeights|
    ensures k < |b.items|
  {
    FirstMax(Draws(e, b, seed, r))
  }

  method Straw2Choose(e: Env, b: Bucket, seed: U32, r: U32) returns (item: I32)
    requires b.items != [] && |b.items| == |b.itemWeights|
    ensures item == b.items[Straw2Index(e, b, seed, r)]
  {
    hide Draw, FirstMax;
    ghost var draws := Draws(e, b, seed, r);
    var high := 0;
    var highDraw := I64_MIN;
    for index := 0 to |b.itemWeights|
      invariant high <= index
      invariant index > 0 ==> high < index && highDraw == draws[high]
      invariant forall j :: 0 <= j < index ==> draws[j] <= highDraw
      invariant forall j :: 0 <= j < high ==> draws[j] < highDraw
    {
      var draw := Draw(e, b.items[index], b.itemWeights[index], seed, r);
      assert draw == draws[index];
      if index == 0 || draw > highDraw {
        high := index;
        highDraw := draw;
      }
    }
    assert IsFirstMax(draws, high);
    item := b.items[high];
  }

  /** A straw is the scaled logarithm of the item's hash divided by its weight, rounded toward zero. */
  lemma DrawIsQuotient(e: Env, item: I32, weight: U32, seed: U32, r: U32)
    requires weight > 0
    ensures var draw := Draw(e, item, weight, seed, r);
            var u := e.hashTriple(seed, if item < 0 then item + 0x1_0000_0000 else item, r) % 0x1_0000;
            draw * weight >= e.crushLn(u) - 0x1_0000_0000_0000 > (draw - 1) * weight
  {
    var n := LN_ONE - e.crushLn(e.hashTriple(seed, CastUnsigned(item), r) % 0x1_0000);
    var q := n / weight;
    assert n == q * weight + n % weight;
    assert (-q - 1) * weight == -(q * weight) - weight;
    assert -q * weight == -(q * weight);
  }

  /** The chosen slot has the longest straw, and every slot before it a shorter one. */
  lemma LongestStraw(e: Env, b: Bucket, seed: U32, r: U32, j: nat)
    requires |b.items| == |b.itemWeights| && j < |b.items|
    ensures var k := Straw2Index(e, b, seed, r);
            && Draw(e, b.items[j], b.itemWeights[j], seed, r) <= Draw(e, b.items[k], b.itemWeights[k], seed, r)
            && (Draw(e, b.items[j], b.itemWeights[j], seed, r) == Draw(e, b.items[k], b.itemWeights[k], seed, r) ==>
                  k <= j)
  {
    hide Draw;
    assert Draws(e, b, seed, r)[j] <= Draws(e, b, seed, r)[Straw2Index(e, b, seed, r)];
  }

  lemma TruncatedDivMonotone(n: int, d: int, d': int)
    requires n <= 0 < d <= d'
    ensures TruncatedDiv(n, d) <= TruncatedDiv(n, d')
  {
    QuotientBound(-n, d);
    QuotientBound(-n, d');
    var q, q' := (-n) / d, (-n) / d';
    if q' > q {
      MulMonotone(q + 1, q', d);
      MulMonotone(d, d', q');
    }
  }

  /** Reweighting one slot changes only that slot's straw. */
  lemma DrawsUpdate(e: Env, b: Bucket, i: nat, w: U32, seed: U32, r: U32)
    requires |b.items| == |b.itemWeights| && i < |b.items|
    ensures Draws(e, b.(itemWeights := b.itemWeights[i := w]), seed, r)
         == Draws(e, b, seed, r)[i := Draw(e, b.items[i], w, seed, r)]
  {
  }

  lemma FirstMaxRaise(draws: seq<int>, i: nat, v: int)
    requires i < |draws| && draws[i] <= v
    ensures FirstMax(draws[i := v]) == FirstMax(draws) || FirstMax(draws[i := v]) == i
  {
    var k, k' := FirstMax(draws), FirstMax(draws[i := v]);
    assert draws[i := v][k] >= draws[k];
    assert k' != i ==> draws[i := v][k'] == draws[k'];
  }

  lemma DrawMonotone(e: Env, item: I32, w: U32, w': U32, seed: U32, r: U32)
    requires w <= w'
    ensures Draw(e, item, w, seed, r) <= Draw(e, item, w', seed, r)
  {
    if w != 0 {
      TruncatedDivMonotone(e.crushLn(e.hashTriple(seed, CastUnsigned(item), r) % 0x1_0000) - LN_ONE, w, w');
    }
  }

  /** Raising one weight moves the choice to that slot or nowhere. */
  lemma Straw2Raise(e: Env, b: Bucket, i: nat, w: U32, seed: U32, r: U32)
    requires |b.items| == |b.itemWeights| && i < |b.items| && b.itemWeights[i] <= w
    ensures var b' := b.(itemWeights := b.itemWeights[i := w]);
            Straw2Index(e, b', seed, r) == Straw2Index(e, b, seed, r) || Straw2Index(e, b', seed, r) == i
  {
    DrawsUpdate(e, b, i, w, seed, r);
    DrawMonotone(e, b.items[i], b.itemWeights[i], w, seed, r);
    FirstMaxRaise(Draws(e, b, seed, r), i, Draw(e, b.items[i], w, seed, r));
  }

  /** Lowering one weight moves the choice away from that slot or nowhere. */
  lemma Straw2Lower(e: Env, b: Bucket, i: nat, w: U32, seed: U32, r: U32)
    requires |b.items| == |b.itemWeights| && i < |b.items| && w <= b.itemWeights[i]
    ensures var b' := b.(itemWeights := b.itemWeights[i := w]);
            Straw2Index(e, b', seed, r) == Straw2Index(e, b, seed, r) || Straw2Index(e, b, seed, r) == i
  {
    var b' := b.(itemWeights := b.itemWeights[i := w]);
    Straw2Raise(e, b', i, b.itemWeights[i], seed, r);
    assert b'.(itemWeights := b'.itemWeights[i := b.itemWeights[i]]) == b;
  }

  /** A slot of weight zero loses to any slot of non-zero weight. */
  lemma Straw2NeverZero(e: Env, b: Bucket, i: nat, seed: U32, r: U32)
    requires |b.items| == |b.itemWeights| && i < |b.items| && b.itemWeights[i] != 0
    ensures b.itemWeights[Straw2Index(e, b, seed, r)] != 0
  {
    var draws := Draws(e, b, seed, r);
    assert draws[i] > I64_MIN;
  }
}
