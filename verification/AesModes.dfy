/** The CBC and CTR modes as NIST SP 800-38A defines them (sections 6.2 and 6.5), as relations between an input, an
    initial vector and an output, and what follows from them. */
module AesModes {
  import opened Gf256
  import opened AesSpec
  import opened Counter

  ghost predicate WholeBlocks(s: seq<byte>) {
    |s| % 16 == 0
  }

  function BlockOf(s: seq<byte>, j: nat): Block
    requires 16 * j + 16 <= |s|
  {
    s[16 * j..16 * j + 16]
  }

  function Xor(a: Block, b: Block): Block {
    seq(16, i requires 0 <= i < 16 => a[i] ^ b[i])
  }

  lemma XorTwice(a: Block, b: Block)
    ensures Xor(Xor(a, b), b) == a
  {
  }

  /** The sum of two blocks is theirs in either order, and nothing is lost of either. */
  lemma XorLaws(a: Block, b: Block, c: Block)
    ensures Xor(a, b) == Xor(b, a) && Xor(ZERO, b) == b && Xor(a, a) == ZERO
    ensures Xor(Xor(a, b), c) == Xor(a, Xor(b, c))
    ensures Xor(a, b) == Xor(a, c) <==> b == c
  {
    XorOrder(a, b);
    XorZero(b);
    XorSame(a);
    XorGroup(a, b, c);
    XorOrder(a, c);
    XorTwice(b, a);
    XorTwice(c, a);
    hide Xor;
  }

  lemma XorOrder(a: Block, b: Block)
    ensures Xor(a, b) == Xor(b, a)
  {
    forall i | 0 <= i < 16 ensures a[i] ^ b[i] == b[i] ^ a[i] {
      AddCommutes(a[i], b[i]);
    }
  }

  lemma XorZero(b: Block)
    ensures Xor(ZERO, b) == b
  {
    forall i | 0 <= i < 16 ensures Xor(ZERO, b)[i] == b[i] {
      ZeroFirst(b[i]);
    }
  }

  lemma ZeroFirst(b: byte)
    ensures 0 ^ b == b
  {
  }

  lemma XorSame(a: Block)
    ensures Xor(a, a) == ZERO
  {
    forall i | 0 <= i < 16 ensures a[i] ^ a[i] == 0 {
      AddBack(0, a[i]);
    }
  }

  lemma XorGroup(a: Block, b: Block, c: Block)
    ensures Xor(Xor(a, b), c) == Xor(a, Xor(b, c))
  {
    forall i | 0 <= i < 16 ensures Xor(Xor(a, b), c)[i] == Xor(a, Xor(b, c))[i] {
      GroupBytes(a[i], b[i], c[i]);
    }
  }

  lemma GroupBytes(a: byte, b: byte, c: byte)
    ensures (a ^ b) ^ c == a ^ (b ^ c)
  {
  }

  /** The block before block j: the initial vector for the first. */
  function Previous(iv: Block, c: seq<byte>, j: nat): Block
    requires 16 * j <= |c|
  {
    if j == 0 then iv else BlockOf(c, j - 1)
  }

  /** The vector a later call continues with. */
  function LastBlock(iv: Block, c: seq<byte>): Block
    requires WholeBlocks(c)
  {
    if c == [] then iv else c[|c| - 16..]
  }

  // CBC

  ghost predicate CbcEncrypted(p: seq<byte>, iv: Block, c: seq<byte>, w: Schedule) {
    && WholeBlocks(p) && |c| == |p|
    && forall j :: 0 <= j < |p| / 16 ==> BlockOf(c, j) == Cipher(Xor(BlockOf(p, j), Previous(iv, c, j)), w)
  }

  ghost predicate CbcDecrypted(c: seq<byte>, iv: Block, p: seq<byte>, w: Schedule) {
    && WholeBlocks(c) && |p| == |c|
    && forall j :: 0 <= j < |c| / 16 ==> BlockOf(p, j) == Xor(InvCipher(BlockOf(c, j), w), Previous(iv, c, j))
  }

  lemma SameBlocks(a: seq<byte>, b: seq<byte>)
    requires |a| == |b| && WholeBlocks(a)
    requires forall j :: 0 <= j < |a| / 16 ==> BlockOf(a, j) == BlockOf(b, j)
    ensures a == b
  {
    forall k | 0 <= k < |a| ensures a[k] == b[k] {
      var j := k / 16;
      assert 16 * j + k % 16 == k;
      assert a[k] == BlockOf(a, j)[k % 16] && b[k] == BlockOf(b, j)[k % 16];
    }
  }

  /** Decryption from the same vector restores what was encrypted. */
  lemma CbcRoundTrip(p: seq<byte>, iv: Block, c: seq<byte>, p': seq<byte>, w: Schedule)
    requires CbcEncrypted(p, iv, c, w) && CbcDecrypted(c, iv, p', w)
    ensures p' == p
  {
    hide Cipher, InvCipher, Xor, BlockOf;
    forall j | 0 <= j < |p| / 16 ensures BlockOf(p', j) == BlockOf(p, j) {
      var prev := Previous(iv, c, j);
      InvCipherUndoesCipher(Xor(BlockOf(p, j), prev), w);
      XorTwice(BlockOf(p, j), prev);
    }
    SameBlocks(p', p);
  }

  lemma LastBlockIs(iv: Block, c: seq<byte>)
    requires WholeBlocks(c)
    ensures LastBlock(iv, c) == Previous(iv, c, |c| / 16)
  {
  }

  lemma CbcStart(iv: Block, w: Schedule)
    ensures CbcEncrypted([], iv, [], w) && CbcDecrypted([], iv, [], w) && LastBlock(iv, []) == iv
  {
  }

  lemma LastBlockAppended(iv: Block, c: seq<byte>, b: Block)
    requires WholeBlocks(c)
    ensures LastBlock(iv, c + b) == b
  {
  }

  /** The block after the last one encrypted: what one turn of the loop adds. */
  lemma CbcEncryptAppend(p: seq<byte>, iv: Block, c: seq<byte>, w: Schedule, b: Block)
    requires CbcEncrypted(p, iv, c, w)
    ensures CbcEncrypted(p + b, iv, c + Cipher(Xor(b, LastBlock(iv, c)), w), w)
  {
    hide Cipher, Xor, BlockOf, LastBlock;
    var e := Cipher(Xor(b, LastBlock(iv, c)), w);
    var n := |p| / 16;
    LastBlockIs(iv, c);
    Appended(p, b);
    Appended(c, e);
    forall j | 0 <= j < n + 1
      ensures BlockOf(c + e, j) == Cipher(Xor(BlockOf(p + b, j), Previous(iv, c + e, j)), w)
    {
      if j < n {
        assert BlockOf(c, j) == Cipher(Xor(BlockOf(p, j), Previous(iv, c, j)), w);
      }
    }
  }

  lemma CbcDecryptAppend(c: seq<byte>, iv: Block, p: seq<byte>, w: Schedule, b: Block)
    requires CbcDecrypted(c, iv, p, w)
    ensures CbcDecrypted(c + b, iv, p + Xor(InvCipher(b, w), LastBlock(iv, c)), w)
  {
    hide InvCipher, Xor, BlockOf, LastBlock;
    var d := Xor(InvCipher(b, w), LastBlock(iv, c));
    var n := |p| / 16;
    LastBlockIs(iv, c);
    Appended(p, d);
    Appended(c, b);
    forall j | 0 <= j < n + 1
      ensures BlockOf(p + d, j) == Xor(InvCipher(BlockOf(c + b, j), w), Previous(iv, c + b, j))
    {
      if j < n {
        assert BlockOf(p, j) == Xor(InvCipher(BlockOf(c, j), w), Previous(iv, c, j));
      }
    }
  }

  lemma Appended(s: seq<byte>, b: Block)
    requires WholeBlocks(s)
    ensures BlockOf(s + b, |s| / 16) == b
    ensures forall j :: 0 <= j < |s| / 16 ==> BlockOf(s + b, j) == BlockOf(s, j)
  {
  }

  lemma Joined(s: seq<byte>, s': seq<byte>)
    requires WholeBlocks(s) && WholeBlocks(s')
    ensures forall j :: 0 <= j < |s| / 16 ==> BlockOf(s + s', j) == BlockOf(s, j)
    ensures forall j :: 0 <= j < |s'| / 16 ==> BlockOf(s + s', |s| / 16 + j) == BlockOf(s', j)
  {
  }

  lemma PreviousJoined(iv: Block, c: seq<byte>, c': seq<byte>)
    requires WholeBlocks(c) && WholeBlocks(c')
    ensures forall j :: 0 <= j < |c| / 16 ==> Previous(iv, c + c', j) == Previous(iv, c, j)
    ensures forall j :: 0 <= j < |c'| / 16 ==>
              Previous(iv, c + c', |c| / 16 + j) == Previous(LastBlock(iv, c), c', j)
  {
    hide BlockOf, LastBlock;
    Joined(c, c');
    LastBlockIs(iv, c);
    var n := |c| / 16;
    forall j | 0 <= j < |c'| / 16 ensures Previous(iv, c + c', n + j) == Previous(LastBlock(iv, c), c', j) {
      if j > 0 {
        assert BlockOf(c + c', n + (j - 1)) == BlockOf(c', j - 1);
      } else if n > 0 {
        assert BlockOf(c + c', n - 1) == BlockOf(c, n - 1);
      }
    }
  }

  lemma CbcCut(p: seq<byte>, p': seq<byte>, iv: Block, c: seq<byte>, c': seq<byte>, w: Schedule)
    requires WholeBlocks(p) && WholeBlocks(p') && |p| == |c| && |p'| == |c'|
    requires CbcEncrypted(p + p', iv, c + c', w)
    ensures CbcEncrypted(p, iv, c, w) && CbcEncrypted(p', LastBlock(iv, c), c', w)
  {
    hide Cipher, Xor, BlockOf, LastBlock, Previous;
    var n := |p| / 16;
    Joined(p, p');
    Joined(c, c');
    PreviousJoined(iv, c, c');
    forall j | 0 <= j < n ensures BlockOf(c, j) == Cipher(Xor(BlockOf(p, j), Previous(iv, c, j)), w) {
      assert BlockOf(c + c', j) == Cipher(Xor(BlockOf(p + p', j), Previous(iv, c + c', j)), w);
    }
    forall j | 0 <= j < |p'| / 16
      ensures BlockOf(c', j) == Cipher(Xor(BlockOf(p', j), Previous(LastBlock(iv, c), c', j)), w)
    {
      assert BlockOf(c + c', n + j) == Cipher(Xor(BlockOf(p + p', n + j), Previous(iv, c + c', n + j)), w);
    }
  }

  lemma CbcJoin(p: seq<byte>, p': seq<byte>, iv: Block, c: seq<byte>, c': seq<byte>, w: Schedule)
    requires WholeBlocks(p) && WholeBlocks(p')
    requires CbcEncrypted(p, iv, c, w) && CbcEncrypted(p', LastBlock(iv, c), c', w)
    ensures CbcEncrypted(p + p', iv, c + c', w)
  {
    hide Cipher, Xor, BlockOf, LastBlock, Previous;
    var n := |p| / 16;
    Joined(p, p');
    Joined(c, c');
    PreviousJoined(iv, c, c');
    forall j | 0 <= j < |p + p'| / 16
      ensures BlockOf(c + c', j) == Cipher(Xor(BlockOf(p + p', j), Previous(iv, c + c', j)), w)
    {
      if j < n {
        assert BlockOf(c, j) == Cipher(Xor(BlockOf(p, j), Previous(iv, c, j)), w);
      } else {
        var k := j - n;
        assert BlockOf(c', k) == Cipher(Xor(BlockOf(p', k), Previous(LastBlock(iv, c), c', k)), w);
        assert BlockOf(c + c', n + k) == BlockOf(c', k) && BlockOf(p + p', n + k) == BlockOf(p', k);
      }
    }
  }

  /** A chain cut at a block boundary is two chains, the second starting from the first one's last block. */
  lemma CbcSplit(p: seq<byte>, p': seq<byte>, iv: Block, c: seq<byte>, c': seq<byte>, w: Schedule)
    requires WholeBlocks(p) && WholeBlocks(p') && |p| == |c| && |p'| == |c'|
    ensures CbcEncrypted(p + p', iv, c + c', w) <==>
            CbcEncrypted(p, iv, c, w) && CbcEncrypted(p', LastBlock(iv, c), c', w)
  {
    hide CbcEncrypted, LastBlock;
    if CbcEncrypted(p + p', iv, c + c', w) {
      CbcCut(p, p', iv, c, c', w);
    }
    if CbcEncrypted(p, iv, c, w) && CbcEncrypted(p', LastBlock(iv, c), c', w) {
      CbcJoin(p, p', iv, c, c', w);
    }
  }

  lemma {:induction false} CbcAgreesUpTo(p: seq<byte>, iv: Block, c: seq<byte>, c': seq<byte>, w: Schedule, j: nat)
    requires CbcEncrypted(p, iv, c, w) && CbcEncrypted(p, iv, c', w) && j < |p| / 16
    ensures BlockOf(c, j) == BlockOf(c', j)
  {
    hide Cipher, Xor, BlockOf;
    if j > 0 {
      CbcAgreesUpTo(p, iv, c, c', w, j - 1);
    }
  }

  /** The ciphertext is determined, and distinct plaintexts have distinct ciphertexts. */
  lemma CbcUnique(p: seq<byte>, p': seq<byte>, iv: Block, c: seq<byte>, c': seq<byte>, w: Schedule)
    requires CbcEncrypted(p, iv, c, w) && CbcEncrypted(p', iv, c', w)
    ensures p == p' <==> c == c'
  {
    hide Cipher, Xor, BlockOf;
    if p == p' {
      forall j | 0 <= j < |p| / 16 ensures BlockOf(c, j) == BlockOf(c', j) {
        CbcAgreesUpTo(p, iv, c, c', w, j);
      }
      SameBlocks(c, c');
    }
    if c == c' {
      forall j | 0 <= j < |p| / 16 ensures BlockOf(p, j) == BlockOf(p', j) {
        var prev := Previous(iv, c, j);
        CipherInjective(Xor(BlockOf(p, j), prev), Xor(BlockOf(p', j), prev), w);
        XorTwice(BlockOf(p, j), prev);
        XorTwice(BlockOf(p', j), prev);
      }
      SameBlocks(p, p');
    }
  }

  /** The chain spelt out: the first block is added to the vector, every other one to the ciphertext before it. */
  lemma CbcChain(p: seq<byte>, iv: Block, c: seq<byte>, w: Schedule)
    requires WholeBlocks(p) && |c| == |p| && p != []
    ensures CbcEncrypted(p, iv, c, w) <==>
            && c[..16] == Cipher(Xor(p[..16], iv), w)
            && forall j :: 1 <= j < |p| / 16 ==>
                 BlockOf(c, j) == Cipher(Xor(BlockOf(p, j), c[16 * (j - 1)..16 * j]), w)
    ensures LastBlock(iv, c) == c[|c| - 16..]
  {
    assert BlockOf(p, 0) == p[..16] && BlockOf(c, 0) == c[..16];
    hide Cipher, Xor, BlockOf;
    forall j | 1 <= j < |p| / 16 ensures Previous(iv, c, j) == c[16 * (j - 1)..16 * j] {
      BlockBefore(c, j);
    }
  }

  lemma BlockBefore(c: seq<byte>, j: nat)
    requires 1 <= j && 16 * j <= |c|
    ensures BlockOf(c, j - 1) == c[16 * (j - 1)..16 * j]
  {
  }

  /** The vector counts: a text that is not empty encrypts alike exactly from the same vector. */
  lemma VectorCounts(p: seq<byte>, iv: Block, iv': Block, c: seq<byte>, c': seq<byte>, w: Schedule)
    requires p != [] && CbcEncrypted(p, iv, c, w) && CbcEncrypted(p, iv', c', w)
    ensures c == c' <==> iv == iv'
  {
    CbcChain(p, iv, c, w);
    CbcChain(p, iv', c', w);
    CipherInjective(Xor(p[..16], iv), Xor(p[..16], iv'), w);
    XorLaws(p[..16], iv, iv');
    if iv == iv' {
      CbcUnique(p, p, iv, c, c', w);
    }
  }

  /** What is added to the vector and to the first block alike does not show in the ciphertext. */
  lemma VectorAgainstText(p: seq<byte>, iv: Block, c: seq<byte>, w: Schedule, d: Block)
    requires p != [] && CbcEncrypted(p, iv, c, w)
    ensures CbcEncrypted(Xor(p[..16], d) + p[16..], Xor(iv, d), c, w)
  {
    var first: Block, p' := p[..16], Xor(p[..16], d) + p[16..];
    CbcChain(p, iv, c, w);
    XorPair(first, iv, d);
    forall j | 1 <= j < |p| / 16 ensures BlockOf(p', j) == BlockOf(p, j) {
      LaterBlock(p, p', j);
    }
    assert p'[..16] == Xor(first, d);
    hide Cipher, Xor, CbcEncrypted, BlockOf;
    CbcChain(p', Xor(iv, d), c, w);
  }

  lemma LaterBlock(p: seq<byte>, p': seq<byte>, j: nat)
    requires |p| == |p'| && 1 <= j && 16 * j + 16 <= |p| && p[16..] == p'[16..]
    ensures BlockOf(p', j) == BlockOf(p, j)
  {
    assert p[16 * j..16 * j + 16] == p[16..][16 * j - 16..16 * j];
    assert p'[16 * j..16 * j + 16] == p'[16..][16 * j - 16..16 * j];
  }

  lemma XorPair(a: Block, b: Block, d: Block)
    ensures Xor(Xor(a, d), Xor(b, d)) == Xor(a, b)
  {
    hide Xor;
    XorGroup(a, d, Xor(b, d));
    XorOrder(d, Xor(b, d));
    XorTwice(b, d);
  }

  // CTR

  /** Byte i of the key stream. */
  function KeyByte(iv: Block, w: Schedule, i: nat): byte {
    Cipher(CounterBlock(iv, i / 16), w)[i % 16]
  }

  ghost predicate CtrCrypted(s: seq<byte>, iv: Block, t: seq<byte>, w: Schedule) {
    && |t| == |s|
    && forall i :: 0 <= i < |s| ==> t[i] == s[i] ^ KeyByte(iv, w, i)
  }

  /** Blocks of key stream used for n bytes. */
  function BlocksFor(n: nat): nat {
    (n + 15) / 16
  }

  lemma CtrStart(iv: Block, w: Schedule)
    ensures CtrCrypted([], iv, [], w) && BlocksFor(0) == 0
  {
  }

  lemma CtrAppend(s: seq<byte>, iv: Block, t: seq<byte>, w: Schedule, a: byte)
    requires CtrCrypted(s, iv, t, w)
    ensures CtrCrypted(s + [a], iv, t + [a ^ KeyByte(iv, w, |s|)], w)
  {
    hide KeyByte;
  }

  lemma KeyCancels(a: byte, k: byte)
    ensures (a ^ k) ^ k == a
  {
  }

  /** The same operation from the same vector decrypts. */
  lemma CtrRoundTrip(s: seq<byte>, iv: Block, t: seq<byte>, s': seq<byte>, w: Schedule)
    requires CtrCrypted(s, iv, t, w) && CtrCrypted(t, iv, s', w)
    ensures s' == s
  {
    hide KeyByte;
    forall i | 0 <= i < |s| ensures s'[i] == s[i] {
      KeyCancels(s[i], KeyByte(iv, w, i));
    }
  }

  /** What becomes of zeros is the key stream: block j of it is the cipher of the j-th counter block. */
  lemma KeyStream(s: seq<byte>, iv: Block, t: seq<byte>, w: Schedule, j: nat)
    requires CtrCrypted(s, iv, t, w) && (forall i :: 0 <= i < |s| ==> s[i] == 0) && 16 * j <= |s|
    ensures t[16 * j..] <= Cipher(CounterBlock(iv, j), w) || Cipher(CounterBlock(iv, j), w) <= t[16 * j..]
  {
    hide Cipher, CounterBlock;
    var k := Cipher(CounterBlock(iv, j), w);
    forall i | 0 <= i < 16 && 16 * j + i < |s| ensures t[16 * j + i] == k[i] {
      assert (16 * j + i) / 16 == j && (16 * j + i) % 16 == i;
      ZeroFirst(k[i]);
    }
  }

  /** Two texts encrypted from the same vector differ where and as the texts do. */
  lemma SameKeyStream(s: seq<byte>, s': seq<byte>, iv: Block, t: seq<byte>, t': seq<byte>, w: Schedule, i: nat)
    requires CtrCrypted(s, iv, t, w) && CtrCrypted(s', iv, t', w) && i < |s| && i < |s'|
    ensures t[i] ^ t'[i] == s[i] ^ s'[i]
  {
    hide KeyByte;
    KeyDropsOut(s[i], s'[i], KeyByte(iv, w, i));
  }

  lemma KeyDropsOut(a: byte, b: byte, k: byte)
    ensures (a ^ k) ^ (b ^ k) == a ^ b
  {
  }

  lemma KeyByteShift(iv: Block, w: Schedule, n: nat, i: nat)
    ensures KeyByte(CounterBlock(iv, n), w, i) == KeyByte(iv, w, 16 * n + i)
  {
    hide Cipher, CounterBlock;
    CounterBlockAdds(iv, n, i / 16);
    assert (16 * n + i) / 16 == n + i / 16 && (16 * n + i) % 16 == i % 16;
  }

  /** Cut at a block boundary, the second call continues from the vector the first one left. */
  lemma CtrSplit(s: seq<byte>, s': seq<byte>, iv: Block, t: seq<byte>, t': seq<byte>, w: Schedule)
    requires |s| == |t| && |s'| == |t'| && WholeBlocks(s)
    ensures CtrCrypted(s + s', iv, t + t', w) <==>
            CtrCrypted(s, iv, t, w) && CtrCrypted(s', CounterBlock(iv, BlocksFor(|s|)), t', w)
    ensures CounterBlock(CounterBlock(iv, BlocksFor(|s|)), BlocksFor(|s'|)) == CounterBlock(iv, BlocksFor(|s + s'|))
  {
    hide KeyByte, CounterBlock;
    var n := |s| / 16;
    assert BlocksFor(|s|) == n && 16 * n == |s|;
    CounterBlockAdds(iv, n, BlocksFor(|s'|));
    assert BlocksFor(|s + s'|) == n + BlocksFor(|s'|);
    forall i | 0 <= i < |s'|
      ensures KeyByte(CounterBlock(iv, n), w, i) == KeyByte(iv, w, |s| + i)
    {
      KeyByteShift(iv, w, n, i);
    }
    if CtrCrypted(s + s', iv, t + t', w) {
      forall i | 0 <= i < |s| ensures t[i] == s[i] ^ KeyByte(iv, w, i) {
        assert (t + t')[i] == (s + s')[i] ^ KeyByte(iv, w, i);
      }
      forall i | 0 <= i < |s'| ensures t'[i] == s'[i] ^ KeyByte(CounterBlock(iv, n), w, i) {
        assert (t + t')[|s| + i] == (s + s')[|s| + i] ^ KeyByte(iv, w, |s| + i);
      }
    }
    if CtrCrypted(s, iv, t, w) && CtrCrypted(s', CounterBlock(iv, n), t', w) {
      forall i | 0 <= i < |s + s'| ensures (t + t')[i] == (s + s')[i] ^ KeyByte(iv, w, i) {
        if i >= |s| {
          assert t'[i - |s|] == s'[i - |s|] ^ KeyByte(CounterBlock(iv, n), w, i - |s|);
        }
      }
    }
  }

  /** Within one buffer of at most 2^128 blocks no two cipher inputs, and so no two key-stream blocks, are equal. */
  lemma CtrBlocksDistinct(iv: Block, w: Schedule, m: nat, n: nat)
    requires m < n < m + MODULUS
    ensures Cipher(CounterBlock(iv, m), w) != Cipher(CounterBlock(iv, n), w)
  {
    hide Cipher, CounterBlock;
    CounterBlocksDiffer(iv, m, n);
    CipherInjective(CounterBlock(iv, m), CounterBlock(iv, n), w);
    assert (n - m) % MODULUS == n - m;
  }
}
