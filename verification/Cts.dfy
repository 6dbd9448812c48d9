/** Ciphertext stealing and the envelope around it (src/cephx/crypto.rs): CBC-CS3 as section 5 of
    RFC 8009 uses it, over any permutation of 16-byte blocks. */
module Cts {
  import opened Wrappers

  const BLOCK: nat := 16

  type Block = b: seq<bv8> | |b| == 16 witness seq(16, _ => 0)

  datatype Cipher = Cipher(encrypt: Block -> Block, decrypt: Block -> Block)

  datatype Error = MalformedPayload | LimitExceeded | UnsupportedType | InvalidVersion | InvalidMagic

  ghost predicate Permutes(c: Cipher) {
    forall b: Block :: c.decrypt(c.encrypt(b)) == b && c.encrypt(c.decrypt(b)) == b
  }

  function Zeros(n: nat): (z: Bytes)
    ensures |z| == n
  {
    seq(n, _ => 0)
  }

  const ZERO: Block := Zeros(16)

  function Xor(a: Block, b: Block): (x: Block) {
    seq(16, i requires 0 <= i < 16 => a[i] ^ b[i])
  }

  lemma XorByte(x: bv8, y: bv8)
    ensures (x ^ y) ^ y == x && x ^ 0 == x && 0 ^ x == x && (x ^ y) ^ x == y
  {
  }

  lemma XorCancels(a: Block, b: Block)
    ensures Xor(Xor(a, b), b) == a
  {
    forall i | 0 <= i < 16 ensures Xor(Xor(a, b), b)[i] == a[i] {
      XorByte(a[i], b[i]);
    }
  }

  // --- CBC without padding

  predicate Whole(p: Bytes) {
    |p| % BLOCK == 0
  }

  function Cbc(c: Cipher, previous: Block, p: Bytes): (x: Bytes)
    requires Whole(p)
    ensures |x| == |p|
    decreases |p|
  {
    if p == [] then []
    else
      var block := c.encrypt(Xor(p[..16], previous));
      block + Cbc(c, block, p[16..])
  }

  function Uncbc(c: Cipher, previous: Block, x: Bytes): (p: Bytes)
    requires Whole(x)
    ensures |p| == |x|
    decreases |x|
  {
    if x == [] then [] else Xor(c.decrypt(x[..16]), previous) + Uncbc(c, x[..16], x[16..])
  }

  /** The last block of a ciphertext, which chains into the next one. */
  function Last(previous: Block, x: Bytes): (b: Block)
    requires Whole(x)
  {
    if x == [] then previous else x[|x| - 16..]
  }

  lemma {:induction false} CbcInverse(c: Cipher, previous: Block, p: Bytes)
    requires Whole(p) && Permutes(c)
    ensures Uncbc(c, previous, Cbc(c, previous, p)) == p
    ensures Cbc(c, previous, Uncbc(c, previous, p)) == p
    decreases |p|
  {
    if p == [] {
    } else {
      var block := c.encrypt(Xor(p[..16], previous));
      CbcInverse(c, block, p[16..]);
      XorCancels(p[..16], previous);
      assert Cbc(c, previous, p)[..16] == block && Cbc(c, previous, p)[16..] == Cbc(c, block, p[16..]);
      var plain := Xor(c.decrypt(p[..16]), previous);
      CbcInverse(c, p[..16], p[16..]);
      XorCancels(c.decrypt(p[..16]), previous);
      assert Uncbc(c, previous, p)[..16] == plain && Uncbc(c, previous, p)[16..] == Uncbc(c, p[..16], p[16..]);
    }
  }

  lemma Associative(a: Bytes, b: Bytes, c: Bytes)
    ensures a + (b + c) == (a + b) + c
  {
  }

  lemma CbcStep(c: Cipher, previous: Block, a: Block, q: Bytes)
    requires Whole(q)
    ensures Whole(a + q)
    ensures var b := c.encrypt(Xor(a, previous)); Cbc(c, previous, a + q) == b + Cbc(c, b, q)
    ensures Uncbc(c, previous, a + q) == Xor(c.decrypt(a), previous) + Uncbc(c, a, q)
  {
    assert (a + q)[..16] == a && (a + q)[16..] == q;
  }

  lemma LastStep(previous: Block, b: Block, x: Bytes)
    requires Whole(x)
    ensures Whole(b + x) && Last(previous, b + x) == Last(b, x)
  {
    var y := b + x;
    assert x == [] ==> y[|y| - 16..] == b;
    assert x != [] ==> y[|y| - 16..] == x[|x| - 16..];
  }

  lemma {:induction false} CbcSplits(c: Cipher, previous: Block, p: Bytes, q: Bytes)
    requires Whole(p) && Whole(q)
    ensures Cbc(c, previous, p + q) == Cbc(c, previous, p) + Cbc(c, Last(previous, Cbc(c, previous, p)), q)
    ensures Uncbc(c, previous, p + q) == Uncbc(c, previous, p) + Uncbc(c, Last(previous, p), q)
    decreases |p|
  {
    if p == [] {
      assert p + q == q;
    } else {
      hide Cbc, Uncbc, Xor, Last;
      var a, r := p[..16], p[16..];
      assert p == a + r;
      CbcSplits(c, c.encrypt(Xor(a, previous)), r, q);
      CbcSplits(c, a, r, q);
      JoinStep(c, previous, a, r, q);
    }
  }

  /** A block in front of a message that splits. */
  lemma JoinStep(c: Cipher, previous: Block, a: Block, r: Bytes, q: Bytes)
    requires Whole(r) && Whole(q)
    requires var b := c.encrypt(Xor(a, previous)); Cbc(c, b, r + q) == Cbc(c, b, r) + Cbc(c, Last(b, Cbc(c, b, r)), q)
    requires Uncbc(c, a, r + q) == Uncbc(c, a, r) + Uncbc(c, Last(a, r), q)
    ensures Whole(a + r)
    ensures var p := a + r;
            Cbc(c, previous, p + q) == Cbc(c, previous, p) + Cbc(c, Last(previous, Cbc(c, previous, p)), q)
    ensures var p := a + r; Uncbc(c, previous, p + q) == Uncbc(c, previous, p) + Uncbc(c, Last(previous, p), q)
  {
    hide Cbc, Uncbc, Xor, Last;
    var b := c.encrypt(Xor(a, previous));
    Associative(a, r, q);
    CbcStep(c, previous, a, r);
    CbcStep(c, previous, a, r + q);
    LastStep(previous, b, Cbc(c, b, r));
    LastStep(previous, a, r);
    Associative(b, Cbc(c, b, r), Cbc(c, Last(b, Cbc(c, b, r)), q));
    Associative(Xor(c.decrypt(a), previous), Uncbc(c, a, r), Uncbc(c, Last(a, r), q));
  }

  // --- the last two blocks

  function Pad(b: Bytes): (p: Block)
    requires |b| <= 16
  {
    b + Zeros(16 - |b|)
  }

  /** Encrypts a block and a shorter one after it without lengthening them. */
  function Steal(c: Cipher, previous: Block, a: Block, b: Bytes): (x: (Block, Bytes))
    requires |b| <= 16
    ensures |x.1| == |b|
  {
    var first := c.encrypt(Xor(a, previous));
    (c.encrypt(Xor(Pad(b), first)), first[..|b|])
  }

  function Unsteal(c: Cipher, previous: Block, y: Block, z: Bytes): (p: (Block, Bytes))
    requires |z| <= 16
    ensures |p.1| == |z|
  {
    var intermediate := c.decrypt(y);
    var first := z + intermediate[|z|..];
    (Xor(c.decrypt(first), previous), Xor(intermediate, first)[..|z|])
  }

  lemma StealInverse(c: Cipher, previous: Block, a: Block, b: Bytes)
    requires |b| <= 16 && Permutes(c)
    ensures var x := Steal(c, previous, a, b); Unsteal(c, previous, x.0, x.1) == (a, b)
  {
    var first := c.encrypt(Xor(a, previous));
    var mixed := Xor(Pad(b), first);
    forall i | 0 <= i < 16 ensures |b| <= i ==> mixed[i] == first[i] {
      XorByte(first[i], 0);
    }
    assert first[..|b|] + mixed[|b|..] == first;
    XorCancels(a, previous);
    XorCancels(Pad(b), first);
    assert Pad(b)[..|b|] == b;
  }

  lemma UnstealInverse(c: Cipher, previous: Block, y: Block, z: Bytes)
    requires |z| <= 16 && Permutes(c)
    ensures var p := Unsteal(c, previous, y, z); Steal(c, previous, p.0, p.1) == (y, z)
  {
    var intermediate := c.decrypt(y);
    var first: Block := z + intermediate[|z|..];
    var b := Xor(intermediate, first)[..|z|];
    XorCancels(c.decrypt(first), previous);
    forall i | 0 <= i < 16 ensures Xor(Pad(b), first)[i] == intermediate[i] {
      XorByte(intermediate[i], first[i]);
      XorByte(first[i], 0);
    }
    assert Xor(Pad(b), first) == intermediate;
    assert first[..|z|] == z;
  }

  // --- whole messages

  /** The length of the last block of a message of more than one: from 1 to 16. */
  function TailLength(n: nat): (t: nat)
    requires n > 16
    ensures 0 < t <= 16 && 16 + t <= n && (n - 16 - t) % 16 == 0
  {
    if n % 16 == 0 then 16 else n % 16
  }

  function Front(n: nat): (k: nat)
    requires n > 16
    ensures k + 16 < n <= k + 32 && k % 16 == 0
  {
    n - 16 - TailLength(n)
  }

  /** CBC-CS3: all but the last two blocks are chained as in CBC, the last two change places and
      the shorter one is cut. A single block is plain CBC. */
  function Encrypted(c: Cipher, p: Bytes): (x: Bytes)
    requires |p| >= 16
    ensures |x| == |p|
  {
    if |p| == 16 then Cbc(c, ZERO, p)
    else
      var k := Front(|p|);
      var front := Cbc(c, ZERO, p[..k]);
      var tail := Steal(c, Last(ZERO, front), p[k..k + 16], p[k + 16..]);
      front + tail.0 + tail.1
  }

  function Decrypted(c: Cipher, x: Bytes): (p: Bytes)
    requires |x| >= 16
    ensures |p| == |x|
  {
    if |x| == 16 then Uncbc(c, ZERO, x)
    else
      var k := Front(|x|);
      var tail := Unsteal(c, Last(ZERO, x[..k]), x[k..k + 16], x[k + 16..]);
      Uncbc(c, ZERO, x[..k]) + tail.0 + tail.1
  }

  /** Decryption undoes encryption, for every length from one block on. */
  lemma DecryptUndoesEncrypt(c: Cipher, p: Bytes)
    requires |p| >= 16 && Permutes(c)
    ensures Decrypted(c, Encrypted(c, p)) == p
  {
    hide Permutes, Cbc, Uncbc, Steal, Unsteal;
    if |p| == 16 {
      CbcInverse(c, ZERO, p);
    } else {
      var k := Front(|p|);
      var front := Cbc(c, ZERO, p[..k]);
      var tail := Steal(c, Last(ZERO, front), p[k..k + 16], p[k + 16..]);
      var x := front + tail.0 + tail.1;
      assert x[..k] == front && x[k..k + 16] == tail.0 && x[k + 16..] == tail.1;
      CbcInverse(c, ZERO, p[..k]);
      StealInverse(c, Last(ZERO, front), p[k..k + 16], p[k + 16..]);
    }
  }

  /** Encryption undoes decryption: no two ciphertexts decrypt alike. */
  lemma EncryptUndoesDecrypt(c: Cipher, x: Bytes)
    requires |x| >= 16 && Permutes(c)
    ensures Encrypted(c, Decrypted(c, x)) == x
  {
    hide Permutes, Cbc, Uncbc, Steal, Unsteal;
    if |x| == 16 {
      CbcInverse(c, ZERO, x);
    } else {
      var k := Front(|x|);
      var front := Uncbc(c, ZERO, x[..k]);
      var tail := Unsteal(c, Last(ZERO, x[..k]), x[k..k + 16], x[k + 16..]);
      var p := front + tail.0 + tail.1;
      assert p[..k] == front && p[k..k + 16] == tail.0 && p[k + 16..] == tail.1;
      CbcInverse(c, ZERO, x[..k]);
      UnstealInverse(c, Last(ZERO, x[..k]), x[k..k + 16], x[k + 16..]);
    }
  }

  // --- the loops

  method CbcEncryptBlocks(c: Cipher, padded: Bytes) returns (blocks: Bytes)
    requires Whole(padded)
    ensures blocks == Cbc(c, ZERO, padded)
  {
    var previous := ZERO;
    blocks := [];
    var i := 0;
    while i < |padded|
      invariant i % 16 == 0 && i <= |padded|
      invariant blocks == Cbc(c, ZERO, padded[..i]) && previous == Last(ZERO, blocks)
    {
      var block := c.encrypt(Xor(padded[i..i + 16], previous));
      OneBlock(c, previous, padded[i..i + 16]);
      CbcSplits(c, ZERO, padded[..i], padded[i..i + 16]);
      assert padded[..i + 16] == padded[..i] + padded[i..i + 16];
      previous := block;
      blocks := blocks + block;
      i := i + 16;
    }
    assert padded[..|padded|] == padded;
  }

  lemma OneBlock(c: Cipher, previous: Block, b: Block)
    ensures Cbc(c, previous, b) == c.encrypt(Xor(b, previous))
    ensures Uncbc(c, previous, b) == Xor(c.decrypt(b), previous)
  {
    assert b[..16] == b && b[16..] == [];
  }

  /** `cbc_decrypt_no_padding`. */
  method CbcDecryptNoPadding(c: Cipher, ciphertext: Bytes, iv: Block) returns (r: Result<Bytes, Error>)
    ensures if Whole(ciphertext) then r == Ok(Uncbc(c, iv, ciphertext)) else r == Err(MalformedPayload)
  {
    if |ciphertext| % BLOCK != 0 {
      return Err(MalformedPayload);
    }
    var output: Bytes := [];
    var previous := iv;
    var i := 0;
    while i < |ciphertext|
      invariant i % 16 == 0 && i <= |ciphertext|
      invariant output == Uncbc(c, iv, ciphertext[..i]) && previous == Last(iv, ciphertext[..i])
    {
      var chunk := ciphertext[i..i + 16];
      OneBlock(c, previous, chunk);
      CbcSplits(c, iv, ciphertext[..i], chunk);
      assert ciphertext[..i + 16] == ciphertext[..i] + chunk;
      output := output + Xor(c.decrypt(chunk), previous);
      previous := chunk;
      i := i + 16;
    }
    assert ciphertext[..|ciphertext|] == ciphertext;
    return Ok(output);
  }

  /** Exchanges the last two blocks byte by byte. */
  method SwapLast(s: Bytes) returns (t: Bytes)
    requires |s| >= 32
    ensures var k := |s| - 32; t == s[..k] + s[k + 16..] + s[k..k + 16]
  {
    var k := |s| - 32;
    t := s;
    for i := 0 to 16
      invariant |t| == |s| && forall j :: 0 <= j < k ==> t[j] == s[j]
      invariant forall j :: k <= j < k + i ==> t[j] == s[j + 16]
      invariant forall j :: k + 16 <= j < k + 16 + i ==> t[j] == s[j - 16]
      invariant forall j :: k + i <= j < k + 16 || k + 16 + i <= j < |s| ==> t[j] == s[j]
    {
      var x, y := t[k + i], t[k + i + 16];
      t := t[k + i := y][k + i + 16 := x];
    }
  }

  method CtsEncrypt(c: Cipher, plaintext: Bytes) returns (r: Result<Bytes, Error>)
    ensures if |plaintext| < 16 then r == Err(MalformedPayload) else r == Ok(Encrypted(c, plaintext))
  {
    hide Encrypted, Cbc;
    if |plaintext| < BLOCK {
      return Err(MalformedPayload);
    }
    var remainder := |plaintext| % BLOCK;
    var padded := plaintext;
    if remainder != 0 {
      padded := padded + Zeros(BLOCK - remainder);
    }
    assert padded == plaintext + Zeros(|padded| - |plaintext|);
    var blocks := CbcEncryptBlocks(c, padded);
    if |blocks| > BLOCK {
      var swapped := SwapLast(blocks);
      SwappedIsStolen(c, plaintext, padded, swapped);
      blocks := swapped;
    } else {
      SingleBlock(c, plaintext);
    }
    return Ok(blocks[..|plaintext|]);
  }

  lemma SingleBlock(c: Cipher, p: Bytes)
    requires |p| == 16
    ensures Encrypted(c, p) == Cbc(c, ZERO, p + Zeros(0))[..16]
  {
    assert p + Zeros(0) == p;
  }

  lemma SwappedIsStolen(c: Cipher, p: Bytes, padded: Bytes, swapped: Bytes)
    requires |p| > 16 && Whole(padded) && |p| <= |padded| < |p| + 16 && padded == p + Zeros(|padded| - |p|)
    requires var x := Cbc(c, ZERO, padded); var k := |x| - 32; k >= 0 && swapped == x[..k] + x[k + 16..] + x[k..k + 16]
    ensures swapped[..|p|] == Encrypted(c, p)
  {
    hide Cbc, Xor;
    LastTwoBlocks(c, p, padded);
    var k := Front(|p|);
    var front := Cbc(c, ZERO, p[..k]);
    var first := c.encrypt(Xor(p[k..k + 16], Last(ZERO, front)));
    var second := c.encrypt(Xor(Pad(p[k + 16..]), first));
    var x := Cbc(c, ZERO, padded);
    assert x[..k] == front && x[k..k + 16] == first && x[k + 16..] == second;
  }

  /** What chaining the padded message leaves in its last two blocks. */
  lemma LastTwoBlocks(c: Cipher, p: Bytes, padded: Bytes)
    requires |p| > 16 && Whole(padded) && |p| <= |padded| < |p| + 16 && padded == p + Zeros(|padded| - |p|)
    ensures var k := Front(|p|);
            var front := Cbc(c, ZERO, p[..k]);
            var first := c.encrypt(Xor(p[k..k + 16], Last(ZERO, front)));
            && |padded| == k + 32
            && Cbc(c, ZERO, padded) == front + first + c.encrypt(Xor(Pad(p[k + 16..]), first))
  {
    hide Xor, Cbc, Uncbc, Last, Pad;
    PaddedParts(p, padded);
    var k := Front(|p|);
    var a, b := p[k..k + 16], Pad(p[k + 16..]);
    var v := Last(ZERO, Cbc(c, ZERO, p[..k]));
    CbcSplits(c, ZERO, p[..k], a + b);
    CbcStep(c, v, a, b);
    OneBlock(c, c.encrypt(Xor(a, v)), b);
  }

  lemma PaddedParts(p: Bytes, padded: Bytes)
    requires |p| > 16 && Whole(padded) && |p| <= |padded| < |p| + 16 && padded == p + Zeros(|padded| - |p|)
    ensures var k := Front(|p|); |padded| == k + 32 && padded == p[..k] + (p[k..k + 16] + Pad(p[k + 16..]))
  {
  }

  method CtsDecrypt(c: Cipher, ciphertext: Bytes) returns (r: Result<Bytes, Error>)
    ensures if |ciphertext| < 16 then r == Err(MalformedPayload) else r == Ok(Decrypted(c, ciphertext))
  {
    hide Decrypted, Uncbc, Xor, Last;
    if |ciphertext| < BLOCK {
      return Err(MalformedPayload);
    }
    var remainder := |ciphertext| % BLOCK;
    if remainder == 0 {
      var swapped := ciphertext;
      if |swapped| > BLOCK {
        swapped := SwapLast(swapped);
        UnswapsWhole(c, ciphertext, swapped);
      } else {
        SingleDecrypts(c, ciphertext);
      }
      r := CbcDecryptNoPadding(c, swapped, ZERO);
      return;
    }
    var tailStart := |ciphertext| - remainder - BLOCK;
    var prefix, tail := ciphertext[..tailStart], ciphertext[tailStart..];
    var penultimate, lastPartial := tail[..16], tail[16..];
    var plaintext := CbcDecryptNoPadding(c, prefix, ZERO);
    if plaintext.Err? {
      return plaintext;
    }
    var previous := Last(ZERO, prefix);
    var intermediate := c.decrypt(penultimate);
    var reconstructedLast := lastPartial + intermediate[remainder..];
    var lastPlain := Xor(c.decrypt(reconstructedLast), previous);
    var penultimatePlain := Xor(intermediate, reconstructedLast);
    TailDecrypts(c, prefix, penultimate, lastPartial);
    assert ciphertext == prefix + penultimate + lastPartial;
    return Ok(plaintext.value + lastPlain + penultimatePlain[..remainder]);
  }

  lemma SingleDecrypts(c: Cipher, x: Bytes)
    requires |x| == 16
    ensures Decrypted(c, x) == Uncbc(c, ZERO, x)
  {
  }

  lemma TailDecrypts(c: Cipher, front: Bytes, y: Block, z: Bytes)
    requires Whole(front) && 0 < |z| < 16
    ensures var tail := Unsteal(c, Last(ZERO, front), y, z);
            Decrypted(c, front + y + z) == Uncbc(c, ZERO, front) + tail.0 + tail.1
  {
    hide Uncbc, Unsteal, Last;
    var x := front + y + z;
    assert Front(|x|) == |front|;
    assert x[..|front|] == front && x[|front|..|front| + 16] == y && x[|front| + 16..] == z;
  }

  /** Undoing the exchange of whole blocks and then CBC is the same as unstealing a whole block. */
  lemma UnswapsWhole(c: Cipher, x: Bytes, swapped: Bytes)
    requires |x| > 16 && Whole(x)
    requires var k := |x| - 32; swapped == x[..k] + x[k + 16..] + x[k..k + 16]
    ensures |swapped| == |x| && Uncbc(c, ZERO, swapped) == Decrypted(c, x)
  {
    hide Uncbc, Xor, Last, Unsteal;
    var k := |x| - 32;
    var y, z := x[k..k + 16], x[k + 16..];
    var v := Last(ZERO, x[..k]);
    Associative(x[..k], z, y);
    CbcSplits(c, ZERO, x[..k], z + y);
    CbcStep(c, v, z, y);
    OneBlock(c, z, y);
    UnstealWhole(c, v, y, z);
    Associative(Uncbc(c, ZERO, x[..k]), Xor(c.decrypt(z), v), Xor(c.decrypt(y), z));
  }

  lemma UnstealWhole(c: Cipher, previous: Block, y: Block, z: Block)
    ensures Unsteal(c, previous, y, z) == (Xor(c.decrypt(z), previous), Xor(c.decrypt(y), z))
  {
    hide Xor;
    assert z + c.decrypt(y)[16..] == z;
    assert Xor(c.decrypt(y), z)[..16] == Xor(c.decrypt(y), z);
  }

  // --- the RFC 8009 envelope

  const CHECKSUM: nat := 24
  const AES256_KEY_SIZE: nat := 32
  const CRYPTO_AES256_KRB5: nat := 2

  datatype Limits = Limits(maxEncryptBytes: nat, maxDecryptBytes: nat)

  /** At least as long as the truncated checksum. */
  type Digest = d: seq<bv8> | |d| >= 24 witness seq(24, _ => 0)

  /** A key of the right type and size, with the cipher and the MAC derived from it for one usage. */
  datatype Key = Key(typeId: nat, size: nat, cipher: Cipher, mac: seq<bv8> -> Digest)

  predicate Supported(key: Key) {
    key.typeId == CRYPTO_AES256_KRB5 && key.size == AES256_KEY_SIZE
  }

  function Checksum(key: Key, encrypted: Bytes): (sum: Bytes)
    ensures |sum| == CHECKSUM
  {
    key.mac(Zeros(16) + encrypted)[..CHECKSUM]
  }

  /** What a sealed message looks like. */
  function Sealed(key: Key, plaintext: Bytes, confounder: Block): (x: Bytes)
    ensures |x| == 16 + |plaintext| + CHECKSUM
  {
    var encrypted := Encrypted(key.cipher, confounder + plaintext);
    encrypted + Checksum(key, encrypted)
  }

  method EncryptRfc8009(key: Key, plaintext: Bytes, confounder: Block, limits: Limits) returns (r: Result<Bytes, Error>)
    ensures r == if !Supported(key) then Err(UnsupportedType)
                 else if |plaintext| > limits.maxEncryptBytes then Err(LimitExceeded)
                 else Ok(Sealed(key, plaintext, confounder))
  {
    if key.typeId != CRYPTO_AES256_KRB5 || key.size != AES256_KEY_SIZE {
      return Err(UnsupportedType);
    }
    if |plaintext| > limits.maxEncryptBytes {
      return Err(LimitExceeded);
    }
    var data := confounder + plaintext;
    var ciphertext := CtsEncrypt(key.cipher, data);
    if ciphertext.Err? {
      return ciphertext;
    }
    return Ok(ciphertext.value + Checksum(key, ciphertext.value));
  }

  /** What opening yields: the size limits first, then the checksum, then the payload. */
  function Opened(key: Key, x: Bytes, limits: Limits): (r: Result<Bytes, Error>) {
    if !Supported(key) then Err(UnsupportedType)
    else if |x| < 16 + CHECKSUM then Err(MalformedPayload)
    else if |x| > limits.maxDecryptBytes + 16 + CHECKSUM then Err(LimitExceeded)
    else if Checksum(key, x[..|x| - CHECKSUM]) != x[|x| - CHECKSUM..] then Err(MalformedPayload)
    else Ok(Decrypted(key.cipher, x[..|x| - CHECKSUM])[16..])
  }

  method DecryptRfc8009(key: Key, ciphertext: Bytes, limits: Limits) returns (r: Result<Bytes, Error>)
    ensures r == Opened(key, ciphertext, limits)
  {
    if key.typeId != CRYPTO_AES256_KRB5 || key.size != AES256_KEY_SIZE {
      return Err(UnsupportedType);
    }
    if |ciphertext| < BLOCK + CHECKSUM {
      return Err(MalformedPayload);
    }
    if |ciphertext| > limits.maxDecryptBytes + BLOCK + CHECKSUM {
      return Err(LimitExceeded);
    }
    var split := |ciphertext| - CHECKSUM;
    if Checksum(key, ciphertext[..split]) != ciphertext[split..] {
      return Err(MalformedPayload);
    }
    var plaintext := CtsDecrypt(key.cipher, ciphertext[..split]);
    if plaintext.Err? {
      return plaintext;
    }
    return Ok(plaintext.value[16..]);
  }

  /** Opening undoes sealing exactly for payloads within the decryption limit. */
  lemma OpenUndoesSeal(key: Key, plaintext: Bytes, confounder: Block, limits: Limits)
    requires Supported(key) && Permutes(key.cipher)
    ensures Opened(key, Sealed(key, plaintext, confounder), limits) ==
            if |plaintext| <= limits.maxDecryptBytes then Ok(plaintext) else Err(LimitExceeded)
  {
    hide Encrypted, Decrypted;
    var x := Sealed(key, plaintext, confounder);
    var encrypted := Encrypted(key.cipher, confounder + plaintext);
    assert x[..|x| - CHECKSUM] == encrypted && x[|x| - CHECKSUM..] == Checksum(key, encrypted);
    DecryptUndoesEncrypt(key.cipher, confounder + plaintext);
    assert (confounder + plaintext)[16..] == plaintext;
  }

  /** Whatever opens was sealed with the same key: no other bytes are accepted. */
  lemma OnlySealedOpens(key: Key, x: Bytes, limits: Limits) returns (confounder: Block)
    requires Permutes(key.cipher) && Opened(key, x, limits).Ok?
    ensures x == Sealed(key, Opened(key, x, limits).value, confounder)
  {
    hide Encrypted, Decrypted;
    var encrypted := x[..|x| - CHECKSUM];
    var data := Decrypted(key.cipher, encrypted);
    EncryptUndoesDecrypt(key.cipher, encrypted);
    confounder := data[..16];
    assert data == confounder + data[16..];
    assert x == encrypted + x[|x| - CHECKSUM..];
  }

  // --- the version and magic in front of an authenticated payload

  const MAGIC: seq<bv8> := [0x55, 0xaa, 0x26, 0x88, 0xad, 0x9c, 0x00, 0xff]

  function Enveloped(payload: Bytes): (p: Bytes) {
    [1] + MAGIC + payload
  }

  function OpenedWithMagic(key: Key, x: Bytes, limits: Limits): (r: Result<Bytes, Error>) {
    match Opened(key, x, limits)
    case Err(e) => Err(e)
    case Ok(p) =>
      if |p| < 9 then Err(MalformedPayload)
      else if p[0] != 1 then Err(InvalidVersion)
      else if p[1..9] != MAGIC then Err(InvalidMagic)
      else Ok(p[9..])
  }

  /** `decrypt_with_magic` returns what `encrypt_with_magic` enclosed. */
  lemma MagicRoundTrip(key: Key, payload: Bytes, confounder: Block, limits: Limits)
    requires Supported(key) && Permutes(key.cipher) && 9 + |payload| <= limits.maxDecryptBytes
    ensures OpenedWithMagic(key, Sealed(key, Enveloped(payload), confounder), limits) == Ok(payload)
  {
    OpenUndoesSeal(key, Enveloped(payload), confounder, limits);
    var p := Enveloped(payload);
    assert p[1..9] == MAGIC && p[9..] == payload;
  }

  /** ... and accepts nothing else. */
  lemma OnlyEnvelopesOpen(key: Key, x: Bytes, limits: Limits) returns (confounder: Block)
    requires Permutes(key.cipher) && OpenedWithMagic(key, x, limits).Ok?
    ensures x == Sealed(key, Enveloped(OpenedWithMagic(key, x, limits).value), confounder)
  {
    confounder := OnlySealedOpens(key, x, limits);
    var p := Opened(key, x, limits).value;
    assert p == [p[0]] + p[1..9] + p[9..];
  }
}
