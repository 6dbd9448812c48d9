/** Object positions and their order (src/osd/backoff.rs). */
module HObject {
  import opened Wrappers
  import opened StableMod

  type U64 = x: int | 0 <= x < 0x1_0000_0000_0000_0000

  const NO_SNAP: U64 := 0xffff_ffff_ffff_fffe

  datatype HObject = HObject(key: Bytes, name: Bytes, snapshot: U64, hash: U32, max: bool, namespace: Bytes, pool: I64)

  datatype Ordering = Less | Equal | Greater

  // --- bit reversal

  function Bit(set_: bool, k: nat): (v: nat) {
    if set_ then Pow2(k) else 0
  }

  /** The low `k` digits of `x` in reverse. */
  function Reversed(x: nat, k: nat): (r: nat)
    ensures r < Pow2(k)
  {
    if k == 0 then 0 else Bit(x % 2 == 1, k - 1) + Reversed(x / 2, k - 1)
  }

  /** The highest digit becomes the lowest. */
  lemma {:induction false} ReversedHigh(high: bool, lo: nat, k: nat)
    requires k > 0 && lo < Pow2(k - 1)
    ensures Reversed(Bit(high, k - 1) + lo, k) == 2 * Reversed(lo, k - 1) + Bit(high, 0)
  {
    if k == 1 {
    } else {
      ReversedHigh(high, lo / 2, k - 1);
    }
  }

  lemma {:induction false} ReversedTwice(x: nat, k: nat)
    requires x < Pow2(k)
    ensures Reversed(Reversed(x, k), k) == x
  {
    if k == 0 {
    } else {
      ReversedTwice(x / 2, k - 1);
      ReversedHigh(x % 2 == 1, Reversed(x / 2, k - 1), k);
    }
  }

  function ReverseBits(x: U32): (r: U32) {
    Pow32();
    Reversed(x, 32)
  }

  lemma ReverseBitsTwice(x: U32)
    ensures ReverseBits(ReverseBits(x)) == x
  {
    Pow32();
    ReversedTwice(x, 32);
  }

  // --- comparison

  function CompareInts(a: int, b: int): (o: Ordering) {
    if a < b then Less else if a == b then Equal else Greater
  }

  function CompareByte(a: bv8, b: bv8): (o: Ordering) {
    if a < b then Less else if a == b then Equal else Greater
  }

  function CompareBytes(a: Bytes, b: Bytes): (o: Ordering) {
    if a == [] then (if b == [] then Equal else Less)
    else if b == [] then Greater
    else Then(CompareByte(a[0], b[0]), CompareBytes(a[1..], b[1..]))
  }

  function Then(first: Ordering, second: Ordering): (o: Ordering) {
    if first == Equal then second else first
  }

  function EffectiveKey(h: HObject): (k: Bytes) {
    if h.key == [] then h.name else h.key
  }

  /** `compare_hobject`. */
  function Compare(l: HObject, r: HObject): (o: Ordering) {
    if l.max && r.max then Equal
    else
      Then(CompareInts(if l.max then 1 else 0, if r.max then 1 else 0),
      Then(CompareInts(l.pool, r.pool),
      Then(CompareInts(ReverseBits(l.hash), ReverseBits(r.hash)),
      Then(CompareBytes(l.namespace, r.namespace),
      Then(if l.key == [] && r.key == [] then Equal else CompareBytes(EffectiveKey(l), EffectiveKey(r)),
      Then(CompareBytes(l.name, r.name),
           CompareInts(l.snapshot, r.snapshot)))))))
  }

  function Flip(o: Ordering): (p: Ordering) {
    match o case Less => Greater case Equal => Equal case Greater => Less
  }

  /** `ac` is what follows from `ab` and `bc` in a total preorder. */
  predicate Composes(ab: Ordering, bc: Ordering, ac: Ordering) {
    && (ab == Equal ==> ac == bc)
    && (bc == Equal ==> ac == ab)
    && (ab == bc ==> ac == ab)
  }

  lemma {:induction false} BytesLaws(a: Bytes, b: Bytes, c: Bytes)
    ensures CompareBytes(b, a) == Flip(CompareBytes(a, b))
    ensures CompareBytes(a, b) == Equal <==> a == b
    ensures Composes(CompareBytes(a, b), CompareBytes(b, c), CompareBytes(a, c))
  {
    hide CompareByte;
    if a == [] || b == [] {
    } else {
      var d, z := if c == [] then [] else c[1..], if c == [] then 0 else c[0];
      BytesLaws(a[1..], b[1..], d);
      ByteLaws(a[0], b[0], z);
      ThenComposes(CompareByte(a[0], b[0]), CompareByte(b[0], z), CompareByte(a[0], z),
        CompareBytes(a[1..], b[1..]), CompareBytes(b[1..], d), CompareBytes(a[1..], d));
      assert a == [a[0]] + a[1..] && b == [b[0]] + b[1..];
    }
  }

  /** Bytes compare at the first place where they differ; a prefix comes before what it begins. */
  lemma {:induction false} BytesLexicographic(a: Bytes, b: Bytes, n: nat)
    requires n <= |a| && n <= |b| && a[..n] == b[..n]
    ensures n == |a| < |b| ==> CompareBytes(a, b) == Less
    ensures n < |a| && n < |b| && a[n] < b[n] ==> CompareBytes(a, b) == Less
    decreases n
  {
    if n == 0 {
    } else {
      assert a[0] == a[..n][0] == b[..n][0] == b[0];
      assert a[1..][..n - 1] == a[..n][1..] && b[1..][..n - 1] == b[..n][1..];
      BytesLexicographic(a[1..], b[1..], n - 1);
    }
  }

  lemma ByteLaws(a: bv8, b: bv8, c: bv8)
    ensures CompareByte(b, a) == Flip(CompareByte(a, b))
    ensures CompareByte(a, b) == Equal <==> a == b
    ensures Composes(CompareByte(a, b), CompareByte(b, c), CompareByte(a, c))
  {
  }

  lemma ThenComposes(ab: Ordering, bc: Ordering, ac: Ordering, ab': Ordering, bc': Ordering, ac': Ordering)
    requires Composes(ab, bc, ac) && Composes(ab', bc', ac')
    ensures Composes(Then(ab, ab'), Then(bc, bc'), Then(ac, ac'))
  {
  }

  /** Comparison below the maximum, level by level; the key compared is always the effective one. */
  function Levels(l: HObject, r: HObject): (o: seq<Ordering>) {
    [CompareInts(l.pool, r.pool), CompareInts(ReverseBits(l.hash), ReverseBits(r.hash)),
     CompareBytes(l.namespace, r.namespace), CompareBytes(EffectiveKey(l), EffectiveKey(r)),
     CompareBytes(l.name, r.name), CompareInts(l.snapshot, r.snapshot)]
  }

  function First(o: seq<Ordering>): (p: Ordering) {
    if o == [] then Equal else Then(o[0], First(o[1..]))
  }

  lemma CompareIs(l: HObject, r: HObject)
    requires !l.max && !r.max
    ensures Compare(l, r) == First(Levels(l, r))
  {
    hide CompareBytes, ReverseBits;
    var o := Levels(l, r);
    assert o[0..] == o && o[6..] == [];
    FirstAt(o, 0);
    FirstAt(o, 1);
    FirstAt(o, 2);
    FirstAt(o, 3);
    FirstAt(o, 4);
    FirstAt(o, 5);
  }

  lemma FirstAt(o: seq<Ordering>, i: nat)
    requires i < |o|
    ensures First(o[i..]) == Then(o[i], First(o[i + 1..]))
  {
    assert o[i..][1..] == o[i + 1..];
  }

  lemma {:induction false} FirstLaws(ab: seq<Ordering>, ba: seq<Ordering>, bc: seq<Ordering>, ac: seq<Ordering>)
    requires |ab| == |ba| == |bc| == |ac|
    requires forall i :: 0 <= i < |ab| ==> ba[i] == Flip(ab[i]) && Composes(ab[i], bc[i], ac[i])
    ensures First(ba) == Flip(First(ab)) && Composes(First(ab), First(bc), First(ac))
  {
    if ab == [] {
    } else {
      FirstLaws(ab[1..], ba[1..], bc[1..], ac[1..]);
      ThenComposes(ab[0], bc[0], ac[0], First(ab[1..]), First(bc[1..]), First(ac[1..]));
    }
  }

  /** `compare_hobject` is a total preorder with the maximum on top. */
  lemma CompareLaws(a: HObject, b: HObject, c: HObject)
    ensures Compare(a, a) == Equal
    ensures Compare(b, a) == Flip(Compare(a, b))
    ensures Composes(Compare(a, b), Compare(b, c), Compare(a, c))
    ensures a.max && !b.max ==> Compare(a, b) == Greater
  {
    if !a.max && !b.max && !c.max {
      CompareIs(a, b);
      CompareIs(b, a);
      CompareIs(b, c);
      CompareIs(a, c);
      LevelLaws(a, b, c);
      FirstLaws(Levels(a, b), Levels(b, a), Levels(b, c), Levels(a, c));
    } else if !a.max && !b.max {
      CompareIs(a, b);
      CompareIs(b, a);
      LevelLaws(a, b, b);
      FirstLaws(Levels(a, b), Levels(b, a), Levels(b, b), Levels(a, b));
    }
    BytesLaws(a.namespace, a.namespace, a.namespace);
    BytesLaws(EffectiveKey(a), EffectiveKey(a), EffectiveKey(a));
    BytesLaws(a.name, a.name, a.name);
  }

  lemma LevelLaws(a: HObject, b: HObject, c: HObject)
    ensures forall i :: 0 <= i < 6 ==>
              Levels(b, a)[i] == Flip(Levels(a, b)[i]) && Composes(Levels(a, b)[i], Levels(b, c)[i], Levels(a, c)[i])
  {
    hide CompareBytes, CompareInts, ReverseBits, EffectiveKey, Flip, Composes;
    IntsLaws(a.pool, b.pool, c.pool);
    IntsLaws(ReverseBits(a.hash), ReverseBits(b.hash), ReverseBits(c.hash));
    BytesLaws(a.namespace, b.namespace, c.namespace);
    BytesLaws(EffectiveKey(a), EffectiveKey(b), EffectiveKey(c));
    BytesLaws(a.name, b.name, c.name);
    IntsLaws(a.snapshot, b.snapshot, c.snapshot);
  }

  lemma IntsLaws(a: int, b: int, c: int)
    ensures CompareInts(b, a) == Flip(CompareInts(a, b))
    ensures Composes(CompareInts(a, b), CompareInts(b, c), CompareInts(a, c))
  {
  }

  /** Positions compare equal exactly when they agree in everything but the key, and in the key that
      counts: an empty key stands for the name. All maxima are equal. */
  lemma CompareEqualIff(a: HObject, b: HObject)
    ensures Compare(a, b) == Equal <==>
            || (a.max && b.max)
            || (&& !a.max && !b.max
                && a.pool == b.pool && a.hash == b.hash && a.namespace == b.namespace && a.name == b.name
                && a.snapshot == b.snapshot && EffectiveKey(a) == EffectiveKey(b))
  {
    hide CompareBytes, ReverseBits;
    BytesLaws(a.namespace, b.namespace, []);
    BytesLaws(EffectiveKey(a), EffectiveKey(b), []);
    BytesLaws(a.name, b.name, []);
    ReverseBitsTwice(a.hash);
    ReverseBitsTwice(b.hash);
  }

  /** The comparison is not antisymmetric: an empty key and a key that repeats the name compare equal. */
  lemma TwinsCompareEqual(h: HObject)
    requires !h.max && h.key == [] && h.name != []
    ensures var twin := h.(key := h.name); h != twin && Compare(h, twin) == Equal && Compare(twin, h) == Equal
  {
    hide Compare;
    CompareEqualIff(h, h.(key := h.name));
    CompareEqualIff(h.(key := h.name), h);
  }

  predicate Lt(a: HObject, b: HObject) {
    Compare(a, b) == Less
  }

  predicate Le(a: HObject, b: HObject) {
    Compare(a, b) != Greater
  }

  /** The order facts the enumeration proofs use. */
  lemma OrderLaws(a: HObject, b: HObject, c: HObject)
    ensures Le(a, a) && !Lt(a, a)
    ensures Le(a, b) <==> !Lt(b, a)
    ensures Lt(a, b) ==> Le(a, b)
    ensures Le(a, b) && Le(b, c) ==> Le(a, c)
    ensures Lt(a, b) && Le(b, c) ==> Lt(a, c)
    ensures Le(a, b) && Lt(b, c) ==> Lt(a, c)
    ensures a.max && !b.max ==> Lt(b, a)
    ensures a.max ==> Le(b, a)
  {
    hide Compare;
    CompareLaws(a, b, c);
    CompareLaws(b, a, c);
    MaxEqual(a, b);
  }

  lemma MaxEqual(a: HObject, b: HObject)
    ensures a.max && b.max ==> Compare(b, a) == Equal
  {
  }
}
