/** The stable modulo that maps object hashes to placement groups (src/crush/hash.rs). */
module StableMod {
  import opened Wrappers
  import opened Arithmetic

  function Pow2(k: nat): (p: nat)
    ensures p > 0
  {
    if k == 0 then 1 else 2 * Pow2(k - 1)
  }

  /** The number of binary digits; `32 - leading_zeros` for a 32-bit value. */
  function Bits(x: nat): (k: nat) {
    if x == 0 then 0 else 1 + Bits(x / 2)
  }

  /** Bitwise conjunction, digit by digit. */
  function BitAnd(a: nat, b: nat): (c: nat) {
    if a == 0 || b == 0 then 0 else 2 * BitAnd(a / 2, b / 2) + (a % 2) * (b % 2)
  }

  /** `1.checked_shl(bits).unwrap_or(0).wrapping_sub(1)` on 32-bit integers. */
  function Mask(count: U32): (mask: U32)
    requires count > 0
  {
    var bits := Bits(count - 1);
    var shifted := if bits < 32 then Pow2(bits) else 0;
    (shifted - 1) % TWO_32
  }

  function Modulo(value: U32, count: U32): (r: nat) {
    if count == 0 then 0
    else if BitAnd(value, Mask(count)) < count then BitAnd(value, Mask(count))
    else BitAnd(value, Mask(count) / 2)
  }

  lemma {:induction false} BitsBounds(x: nat)
    ensures x < Pow2(Bits(x))
    ensures x > 0 ==> Pow2(Bits(x)) <= 2 * x
  {
    if x == 0 {
    } else {
      BitsBounds(x / 2);
    }
  }

  lemma {:induction false} Pow2Monotone(j: nat, k: nat)
    requires j <= k
    ensures Pow2(j) <= Pow2(k)
  {
    if j == k {
    } else {
      Pow2Monotone(j, k - 1);
    }
  }

  lemma BitsWithin(x: nat, k: nat)
    requires x < Pow2(k)
    ensures Bits(x) <= k
  {
    if Bits(x) > k {
      BitsBounds(x);
      Pow2Monotone(k, Bits(x) - 1);
    }
  }

  lemma {:induction false} Pow2Add(j: nat, k: nat)
    ensures Pow2(j + k) == Pow2(j) * Pow2(k)
  {
    if k == 0 {
    } else {
      Pow2Add(j, k - 1);
      assert Pow2(j + k) == 2 * Pow2(j + (k - 1));
    }
  }

  lemma Pow32()
    ensures Pow2(32) == TWO_32
  {
    assert Pow2(4) == 16;
    Pow2Add(4, 4);
    Pow2Add(8, 8);
    Pow2Add(16, 16);
  }

  /** The least power of two that is at least `count`. */
  function Ceiling(count: nat): (p: nat)
    requires count > 0
    ensures p > 0
  {
    Pow2(Bits(count - 1))
  }

  lemma MaskIsCeiling(count: U32)
    requires count > 0
    ensures Mask(count) == Ceiling(count) - 1
  {
    Pow32();
    BitsWithin(count - 1, 32);
    Pow2Monotone(Bits(count - 1), 32);
  }

  lemma AndOdd(a: nat, c: nat)
    ensures BitAnd(a, 2 * c + 1) == 2 * BitAnd(a / 2, c) + a % 2
  {
    var b := 2 * c + 1;
    assert b / 2 == c && b % 2 == 1;
  }

  /** Masking off high digits takes the remainder. */
  lemma {:induction false} AndIsMod(v: nat, k: nat)
    ensures BitAnd(v, Pow2(k) - 1) == v % Pow2(k)
  {
    hide BitAnd;
    if k == 0 {
      AndZero(v);
    } else {
      var p := Pow2(k - 1);
      assert Pow2(k) == 2 * p;
      hide Pow2;
      AndOdd(v, p - 1);
      AndIsMod(v / 2, k - 1);
      ModDouble(v, p);
    }
  }

  lemma AndZero(v: nat)
    ensures BitAnd(v, 0) == 0
  {
  }

  /** The stable modulo in terms of remainders: `p` is the power of two that covers `count`. */
  function StableRemainder(value: nat, count: nat, p: nat): (r: nat)
    requires p > 0 && (p == 1 ==> count > 0)
  {
    if p == 1 then 0 else if value % p < count then value % p else value % (p / 2)
  }

  ghost predicate Covers(count: nat, p: nat) {
    && 0 < count <= p < 2 * count
    && (p == 1 || p == 2 * (p / 2))
  }

  lemma ModuloIs(value: U32, count: U32)
    requires count > 0
    ensures Covers(count, Ceiling(count)) && Modulo(value, count) == StableRemainder(value, count, Ceiling(count))
  {
    var k := Bits(count - 1);
    CeilingCovers(count);
    MaskIsCeiling(count);
    AndIsMod(value, k);
    hide Bits, BitAnd, Mask;
    if k > 0 {
      Pow2Next(k - 1);
      AndIsMod(value, k - 1);
      assert Mask(count) / 2 == Pow2(k - 1) - 1;
    }
  }

  lemma CeilingCovers(count: nat)
    requires count > 0
    ensures Covers(count, Ceiling(count))
  {
    BitsBounds(count - 1);
  }

  lemma RemainderInRange(v: nat, count: nat, p: nat)
    requires Covers(count, p)
    ensures StableRemainder(v, count, p) < count
    ensures v < count ==> StableRemainder(v, count, p) == v
  {
    if v < p {
      RemainderUnique(v, p, 0, v);
    }
  }

  /** The stable modulo reads only the digits below its covering power of two. */
  lemma RemainderReads(v: nat, w: nat, count: nat, p: nat)
    requires Covers(count, p) && v % p == w % p
    ensures StableRemainder(v, count, p) == StableRemainder(w, count, p)
  {
    if p > 1 {
      ModOfMod(v, p / 2, 2);
      ModOfMod(w, p / 2, 2);
    }
  }

  lemma RemainderNestedSame(h: nat, n: nat, m: nat, p: nat)
    requires n <= m && Covers(n, p) && Covers(m, p)
    ensures StableRemainder(StableRemainder(h, m, p), n, p) == StableRemainder(h, n, p)
  {
    if p > 1 {
      if h % p < m {
        ModOfMod(h, p, 1);
        RemainderReads(h % p, h, n, p);
      } else {
        RemainderInRange(h % (p / 2), n, p);
      }
    }
  }

  lemma RemainderNested(h: nat, n: nat, p: nat, m: nat, half: nat, b: nat)
    requires n <= m && Covers(n, p) && Covers(m, 2 * half) && half == p * b && b > 0
    ensures StableRemainder(StableRemainder(h, m, 2 * half), n, p) == StableRemainder(h, n, p)
  {
    ModOfMod(h, p, 2 * b);
    ModOfMod(h, p, b);
    assert p * (2 * b) == 2 * half;
    hide StableRemainder;
    RemainderReads(h % (2 * half), h, n, p);
    RemainderReads(h % half, h, n, p);
    RemainderChoices(h, m, half);
  }

  lemma RemainderChoices(h: nat, m: nat, half: nat)
    requires half > 0
    ensures StableRemainder(h, m, 2 * half) == h % (2 * half) || StableRemainder(h, m, 2 * half) == h % half
  {
  }

  /** A smaller power of two divides a greater one. */
  lemma CeilingDivides(n: nat, m: nat) returns (b: nat)
    requires 0 < n <= m
    ensures Ceiling(m) == if b == 0 then Ceiling(n) else 2 * (Ceiling(n) * b)
  {
    hide Bits, Pow2;
    var j, k := Bits(n - 1), Bits(m - 1);
    BitsBounds(m - 1);
    BitsWithin(n - 1, k);
    if j == k {
      b := 0;
    } else {
      Pow2Add(j, k - 1 - j);
      Pow2Next(k - 1);
      b := Pow2(k - 1 - j);
    }
  }

  lemma Pow2Next(k: nat)
    ensures Pow2(k + 1) == 2 * Pow2(k)
  {
  }

  lemma ModuloInRange(value: U32, count: U32)
    requires count > 0
    ensures Modulo(value, count) < count
    ensures value < count ==> Modulo(value, count) == value
  {
    hide Modulo, Ceiling;
    ModuloIs(value, count);
    RemainderInRange(value, count, Ceiling(count));
  }

  /** Reducing first by a greater count changes nothing. */
  lemma ModuloNested(h: U32, n: U32, m: U32)
    requires 0 < n <= m
    ensures Modulo(h, m) < m && Modulo(Modulo(h, m), n) == Modulo(h, n)
  {
    hide Modulo, Ceiling, StableRemainder;
    ModuloInRange(h, m);
    ModuloIs(h, m);
    ModuloIs(h, n);
    ModuloIs(Modulo(h, m), n);
    var b := CeilingDivides(n, m);
    if b > 0 {
      RemainderNested(h, n, Ceiling(n), m, Ceiling(n) * b, b);
    } else {
      RemainderNestedSame(h, n, m, Ceiling(n));
    }
  }

  /** When the count grows a hash keeps its group or moves to a new one. */
  lemma GrowthKeepsOrSplits(h: U32, n: U32, m: U32)
    requires 0 < n <= m
    ensures Modulo(h, m) == Modulo(h, n) || Modulo(h, m) >= n
  {
    hide Modulo;
    ModuloNested(h, n, m);
    ModuloInRange(Modulo(h, m), n);
  }
}
