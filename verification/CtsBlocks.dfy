/** The ciphertext of src/cephx/crypto.rs told block by block, from the plaintext and the block cipher
    alone, and the bytes around it. */
module CtsBlocks {
  import opened Wrappers
  import opened Cts

  lemma XorIs(a: Block, b: Block, i: nat)
    requires i < 16
    ensures Xor(a, b)[i] == a[i] ^ b[i]
  {
  }

  /** The first block is chained to sixteen zero bytes, which leave it as it is. */
  lemma ZeroKeeps(a: Block)
    ensures Xor(a, ZERO) == a
  {
    forall i | 0 <= i < 16 ensures Xor(a, ZERO)[i] == a[i] {
      XorByte(a[i], 0);
    }
  }

  /** The block of sixteen bytes at offset `j`. */
  function At(s: Bytes, j: nat): (b: Block)
    requires j + 16 <= |s|
  {
    s[j..j + 16]
  }

  /** In CBC each block is the encryption of its plaintext mixed with the ciphertext block before it. */
  lemma {:induction false} CbcAt(c: Cipher, previous: Block, p: Bytes, j: nat)
    requires Whole(p) && j % 16 == 0 && j + 16 <= |p|
    ensures var x := Cbc(c, previous, p);
            At(x, j) == c.encrypt(Xor(At(p, j), if j == 0 then previous else At(x, j - 16)))
    decreases j
  {
    hide Xor;
    var block := c.encrypt(Xor(p[..16], previous));
    var x, rest := Cbc(c, previous, p), Cbc(c, block, p[16..]);
    assert x[..16] == block && x[16..] == rest;
    if j == 0 {
    } else {
      CbcAt(c, block, p[16..], j - 16);
      assert At(rest, j - 16) == At(x, j) && At(p[16..], j - 16) == At(p, j);
      assert j > 16 ==> At(rest, j - 32) == At(x, j - 16);
    }
  }

  /** A short block filled up with zero bytes. */
  function Filled(b: Bytes): (p: Block)
    requires |b| <= 16
  {
    b + seq(16 - |b|, _ => 0)
  }

  /** One block is encrypted as it is. */
  lemma OneBlockCiphertext(c: Cipher, p: Block)
    ensures Encrypted(c, p) == c.encrypt(p)
  {
    hide Xor, Cbc;
    OneBlock(c, ZERO, p);
    ZeroKeeps(p);
  }

  /** Up to two blocks: the second is encrypted over the first and comes in front, then the first, cut. */
  lemma TwoBlockCiphertext(c: Cipher, p: Bytes)
    requires 16 < |p| <= 32
    ensures var first := c.encrypt(p[..16]);
            Encrypted(c, p) == c.encrypt(Xor(Filled(p[16..]), first)) + first[..|p| - 16]
  {
    hide Xor, Cbc;
    ZeroKeeps(p[..16]);
    assert Front(|p|) == 0;
    assert p[..0] == [] && p[0..16] == p[..16];
    assert Cbc(c, ZERO, []) == [];
    assert Pad(p[16..]) == Filled(p[16..]);
  }

  lemma FrontIs(n: nat)
    requires n > 16
    ensures Front(n) == 16 * ((n - 17) / 16)
  {
  }

  lemma PadIs(b: Bytes)
    requires |b| <= 16
    ensures Pad(b) == Filled(b)
  {
  }

  lemma FrontIsChained(c: Cipher, p: Bytes)
    requires |p| > 16
    ensures Encrypted(c, p)[..Front(|p|)] == Cbc(c, ZERO, p[..Front(|p|)])
  {
    hide Cbc, Steal, Last;
  }

  lemma AtPrefix(s: Bytes, k: nat, j: nat)
    requires j + 16 <= k <= |s|
    ensures At(s[..k], j) == At(s, j)
  {
  }

  /** The chained part of a long ciphertext. */
  lemma FrontBlocks(c: Cipher, p: Bytes, j: nat)
    requires |p| > 32 && j % 16 == 0 && j < Front(|p|)
    ensures var x := Encrypted(c, p);
            At(x, j) == c.encrypt(if j == 0 then At(p, 0) else Xor(At(p, j), At(x, j - 16)))
  {
    hide Xor, Cbc, Encrypted, At;
    var x, k := Encrypted(c, p), Front(|p|);
    FrontIsChained(c, p);
    CbcAt(c, ZERO, p[..k], j);
    AtPrefix(x, k, j);
    AtPrefix(p, k, j);
    if j == 0 {
      ZeroKeeps(At(p, 0));
    } else {
      AtPrefix(x, k, j - 16);
    }
  }

  /** The last two blocks of a long ciphertext. */
  lemma TailBlocks(c: Cipher, p: Bytes)
    requires |p| > 32
    ensures var x, k := Encrypted(c, p), Front(|p|);
            var first := c.encrypt(Xor(At(p, k), At(x, k - 16)));
            k >= 16 && x[k..] == c.encrypt(Xor(Filled(p[k + 16..]), first)) + first[..|p| - k - 16]
  {
    hide Xor, Cbc, Filled, Pad;
    var x, k := Encrypted(c, p), Front(|p|);
    var front := Cbc(c, ZERO, p[..k]);
    assert Last(ZERO, front) == At(x, k - 16);
    PadIs(p[k + 16..]);
    var tail := Steal(c, At(x, k - 16), p[k..k + 16], p[k + 16..]);
    assert x[k..] == tail.0 + tail.1;
  }

  /** More blocks: all but the last two are chained, the first from nothing and each later one from
      the ciphertext block before it; the last two go on from there as above. */
  lemma LongCiphertext(c: Cipher, p: Bytes)
    requires |p| > 32
    ensures var x, k := Encrypted(c, p), 16 * ((|p| - 17) / 16);
            && k + 16 < |p| <= k + 32
            && x[..16] == c.encrypt(p[..16])
            && (forall j :: 0 < j < k && j % 16 == 0 ==> At(x, j) == c.encrypt(Xor(At(p, j), At(x, j - 16))))
            && var first := c.encrypt(Xor(At(p, k), At(x, k - 16)));
               x[k..] == c.encrypt(Xor(Filled(p[k + 16..]), first)) + first[..|p| - k - 16]
  {
    hide Xor, Cbc, Filled, Encrypted;
    var x := Encrypted(c, p);
    FrontIs(|p|);
    TailBlocks(c, p);
    FrontBlocks(c, p, 0);
    assert At(x, 0) == x[..16] && At(p, 0) == p[..16];
    forall j | 0 < j < Front(|p|) && j % 16 == 0 ensures At(x, j) == c.encrypt(Xor(At(p, j), At(x, j - 16))) {
      FrontBlocks(c, p, j);
    }
  }

  /** Decryption gives the one plaintext with that ciphertext. */
  lemma DecryptsExactly(c: Cipher, p: Bytes, x: Bytes)
    requires Permutes(c) && |p| == |x| >= 16
    ensures Decrypted(c, x) == p <==> Encrypted(c, p) == x
  {
    hide Encrypted, Decrypted, Permutes;
    DecryptUndoesEncrypt(c, p);
    EncryptUndoesDecrypt(c, x);
  }

  /** A sealed message is the ciphertext of confounder and payload, then the first 24 bytes of the MAC
      over sixteen zero bytes and that ciphertext. */
  lemma SealedLayout(key: Key, plaintext: Bytes, confounder: Block)
    ensures var x, n := Sealed(key, plaintext, confounder), 16 + |plaintext|;
            && x[..n] == Encrypted(key.cipher, confounder + plaintext)
            && x[n..] == key.mac(seq(16, _ => 0) + x[..n])[..24]
  {
    hide Encrypted;
    var encrypted := Encrypted(key.cipher, confounder + plaintext);
    assert Sealed(key, plaintext, confounder)[..|encrypted|] == encrypted;
    assert Zeros(16) == seq(16, _ => 0);
  }

  /** What becomes of any sealed payload that is read as an envelope: nine bytes are needed, then
      version 1, then the magic, the little-endian form of 0xff009cad8826aa55. */
  lemma EnvelopeVerdict(key: Key, p: Bytes, confounder: Block, limits: Limits)
    requires Supported(key) && Permutes(key.cipher)
    ensures OpenedWithMagic(key, Sealed(key, p, confounder), limits) ==
            if |p| > limits.maxDecryptBytes then Err(LimitExceeded)
            else if |p| < 9 then Err(MalformedPayload)
            else if p[0] != 1 then Err(InvalidVersion)
            else if LittleEndian(p[1..9]) != 0xff00_9cad_8826_aa55 then Err(InvalidMagic)
            else Ok(p[9..])
  {
    hide Sealed, Opened, LittleEndian;
    OpenUndoesSeal(key, p, confounder, limits);
    if |p| >= 9 {
      MagicIs(p[1..9]);
    }
  }

  function LittleEndian(b: Bytes): (n: nat) {
    if b == [] then 0 else b[0] as nat + 256 * LittleEndian(b[1..])
  }

  lemma {:induction false} LittleEndianInjective(a: Bytes, b: Bytes)
    requires |a| == |b| && LittleEndian(a) == LittleEndian(b)
    ensures a == b
  {
    if a == [] {
    } else {
      LittleEndianInjective(a[1..], b[1..]);
      assert a[0] as nat == b[0] as nat;
      assert a == [a[0]] + a[1..] && b == [b[0]] + b[1..];
    }
  }

  lemma LittleEndianStep(b: bv8, rest: Bytes, n: nat)
    requires LittleEndian(rest) == n
    ensures LittleEndian([b] + rest) == b as nat + 256 * n
  {
    assert ([b] + rest)[1..] == rest;
  }

  lemma MagicValue()
    ensures LittleEndian(MAGIC) == 0xff00_9cad_8826_aa55
  {
    LittleEndianStep(0xff, [], 0);
    hide LittleEndian;
    var m := MAGIC;
    assert m[7..] == [0xff] + [] && m[6..] == [0x00] + m[7..] && m[5..] == [0x9c] + m[6..];
    LittleEndianStep(0x00, m[7..], 0xff);
    LittleEndianStep(0x9c, m[6..], 0xff00);
    assert m[4..] == [0xad] + m[5..] && m[3..] == [0x88] + m[4..] && m[2..] == [0x26] + m[3..];
    LittleEndianStep(0xad, m[5..], 0xff00_9c);
    LittleEndianStep(0x88, m[4..], 0xff00_9cad);
    LittleEndianStep(0x26, m[3..], 0xff00_9cad_88);
    assert m[1..] == [0xaa] + m[2..] && m == [0x55] + m[1..];
    LittleEndianStep(0xaa, m[2..], 0xff00_9cad_8826);
    LittleEndianStep(0x55, m[1..], 0xff00_9cad_8826_aa);
  }

  lemma MagicIs(b: Bytes)
    requires |b| == 8
    ensures b == MAGIC <==> LittleEndian(b) == 0xff00_9cad_8826_aa55
  {
    var m := MAGIC;
    MagicValue();
    if LittleEndian(b) == LittleEndian(m) {
      LittleEndianInjective(b, m);
    }
  }
}
