/** AES_ctx and the buffer operations of src/lib/algo/aes.c. The context keeps the expanded key and the vector the
    chaining modes carry from one call to the next. */
module AesContext {
  import opened Gf256
  import opened AesSpec
  import opened AesModes
  import opened Counter
  import opened Sequences
  import AesKeys
  import Aes

  class AesCtx {
    const RoundKey: array<byte>
    const Iv: array<byte>

    ghost predicate Valid()
      reads this
    {
      RoundKey.Length == SCHEDULE_LENGTH && Iv.Length == BLOCK_LENGTH && RoundKey != Iv
    }

    ghost function Keys(): Schedule
      requires Valid()
      reads this, RoundKey
    {
      RoundKey[..]
    }

    ghost function Vector(): Block
      requires Valid()
      reads this, Iv
    {
      Iv[..]
    }

    constructor ()
      ensures Valid() && fresh(RoundKey) && fresh(Iv)
    {
      RoundKey := new byte[SCHEDULE_LENGTH];
      Iv := new byte[BLOCK_LENGTH];
    }

    /** AES_init_ctx */
    method InitCtx(key: array<byte>)
      requires Valid() && key.Length == 16 && key != RoundKey && key != Iv
      modifies RoundKey
      ensures AesKeys.IsExpansion(Keys(), key[..])
    {
      Aes.KeyExpansion(RoundKey, key);
    }

    /** AES_ctx_set_iv */
    method SetIv(iv: array<byte>)
      requires Valid() && iv.Length == BLOCK_LENGTH
      modifies Iv
      ensures Vector() == old(iv[..])
    {
      forall k | 0 <= k < BLOCK_LENGTH {
        Iv[k] := iv[k];
      }
      assert Iv[..] == old(iv[..]);
    }

    /** AES_init_ctx_iv */
    method InitCtxIv(key: array<byte>, iv: array<byte>)
      requires Valid() && key.Length == 16 && key != RoundKey && key != Iv
      requires iv.Length == BLOCK_LENGTH && iv != RoundKey
      modifies RoundKey, Iv
      ensures AesKeys.IsExpansion(Keys(), key[..])
      ensures Vector() == old(iv[..])
    {
      Aes.KeyExpansion(RoundKey, key);
      SetIv(iv);
    }

    /** AES_ECB_encrypt */
    method EcbEncrypt(buf: array<byte>, off: nat)
      requires Valid() && off + 16 <= buf.Length && buf != RoundKey
      modifies buf
      ensures Aes.BlockAt(buf, off) == Cipher(old(Aes.BlockAt(buf, off)), Keys())
      ensures Aes.OnlyBlock(buf, off)
    {
      Aes.Cipher(buf, off, RoundKey);
    }

    /** AES_ECB_decrypt */
    method EcbDecrypt(buf: array<byte>, off: nat)
      requires Valid() && off + 16 <= buf.Length && buf != RoundKey
      modifies buf
      ensures Aes.BlockAt(buf, off) == InvCipher(old(Aes.BlockAt(buf, off)), Keys())
      ensures Aes.OnlyBlock(buf, off)
    {
      Aes.InvCipher(buf, off, RoundKey);
    }

    static method XorWithIv(buf: array<byte>, off: nat, iv: array<byte>, ivOff: nat)
      requires off + 16 <= buf.Length && ivOff + 16 <= iv.Length
      requires iv != buf || ivOff + 16 <= off
      modifies buf
      ensures forall k :: off <= k < off + 16 ==> buf[k] == old(buf[k]) ^ old(iv[ivOff + k - off])
      ensures Aes.BlockAt(buf, off) == Xor(old(Aes.BlockAt(buf, off)), old(Aes.BlockAt(iv, ivOff)))
      ensures Aes.OnlyBlock(buf, off)
    {
      ghost var was, target := Aes.BlockAt(buf, off), Xor(Aes.BlockAt(buf, off), Aes.BlockAt(iv, ivOff));
      for i := 0 to BLOCK_LENGTH
        invariant Aes.OnlyBlock(buf, off)
        invariant Aes.BlockAt(iv, ivOff) == old(Aes.BlockAt(iv, ivOff))
        invariant forall k :: 0 <= k < 16 ==> Aes.BlockAt(buf, off)[k] == if k < i then target[k] else was[k]
      {
        Aes.Put(buf, off, i, Aes.Get(buf, off, i) ^ Aes.Get(iv, ivOff, i));
      }
      forall k | off <= k < off + 16 ensures buf[k] == old(buf[k]) ^ old(iv[ivOff + k - off]) {
        assert buf[k] == Aes.BlockAt(buf, off)[k - off] == target[k - off];
      }
    }

    /** memcpy(to, from + off, AES_BLOCKLEN), where the two may be the same vector */
    static method CopyBlock(from: array<byte>, off: nat, to: array<byte>)
      requires off + 16 <= from.Length && to.Length == 16
      requires from == to ==> off == 0
      modifies to
      ensures to[..] == old(Aes.BlockAt(from, off))
    {
      forall k | 0 <= k < 16 {
        to[k] := from[off + k];
      }
      assert to[..] == old(Aes.BlockAt(from, off));
    }

    /** The loop body of AES_CBC_encrypt_buffer. */
    method CbcEncryptBlock(buf: array<byte>, off: nat, iv: array<byte>, ivOff: nat)
      requires Valid() && buf != RoundKey && buf != Iv && iv != RoundKey
      requires off + 16 <= buf.Length && ivOff + 16 <= iv.Length && (iv != buf || ivOff + 16 <= off)
      modifies buf
      ensures var e := Cipher(Xor(old(Aes.BlockAt(buf, off)), old(Aes.BlockAt(iv, ivOff))), Keys());
              buf[..] == Splice(old(buf[..]), off, e)
    {
      hide Cipher, Xor;
      XorWithIv(buf, off, iv, ivOff);
      Aes.Cipher(buf, off, RoundKey);
      assert buf[..] == Splice(old(buf[..]), off, Aes.BlockAt(buf, off));
    }

    /** The loop body of AES_CBC_decrypt_buffer: the ciphertext block becomes the next vector. */
    method CbcDecryptBlock(buf: array<byte>, off: nat)
      requires Valid() && buf != RoundKey && buf != Iv && off + 16 <= buf.Length
      modifies buf, Iv
      ensures buf[..] == Splice(old(buf[..]), off, Xor(InvCipher(old(Aes.BlockAt(buf, off)), Keys()), old(Vector())))
      ensures Vector() == old(Aes.BlockAt(buf, off))
    {
      hide InvCipher, Xor;
      var storeNextIv := new byte[BLOCK_LENGTH];
      CopyBlock(buf, off, storeNextIv);
      Aes.InvCipher(buf, off, RoundKey);
      assert Aes.BlockAt(Iv, 0) == Vector();
      XorWithIv(buf, off, Iv, 0);
      assert buf[..] == Splice(old(buf[..]), off, Aes.BlockAt(buf, off));
      assert Aes.BlockAt(storeNextIv, 0) == storeNextIv[..];
      CopyBlock(storeNextIv, 0, Iv);
    }

    /** The loop of AES_CBC_encrypt_buffer; iv at ivOff is the block that the next one would be added to. */
    method CbcEncryptBlocks(buf: array<byte>, off: nat, length: nat)
      returns (iv: array<byte>, ivOff: nat, ghost c: seq<byte>)
      requires Valid() && buf != RoundKey && buf != Iv
      requires length % BLOCK_LENGTH == 0 && off + length <= buf.Length
      modifies buf
      ensures |c| == length && CbcEncrypted(old(buf[..][off..off + length]), Vector(), c, Keys())
      ensures buf[..] == Progress(old(buf[..]), off, c)
      ensures (iv == Iv && ivOff == 0) || (iv == buf && ivOff + 16 <= buf.Length)
      ensures Aes.BlockAt(iv, ivOff) == LastBlock(Vector(), c)
    {
      hide CbcEncrypting, LastBlock, Cipher, Xor, Splice, WholeBlocks;
      ghost var s, iv0, w := buf[..], Vector(), Keys();
      ghost var p := s[off..off + length];
      CbcEncryptStart(s, off, p, iv0, w);
      iv, ivOff, c := Iv, 0, [];
      var i := 0;
      while i < length
        invariant i <= length && |c| == i && WholeBlocks(c) && CbcEncrypting(s, off, p, iv0, c, w, buf[..])
        invariant if i == 0 then iv == Iv && ivOff == 0 else iv == buf && ivOff == off + i - 16
        invariant Aes.BlockAt(iv, ivOff) == LastBlock(iv0, c)
      {
        CbcEncryptStep(s, off, p, iv0, c, w, buf[..]);
        AtBlock(buf, off + i);
        CbcEncryptBlock(buf, off + i, iv, ivOff);
        AtBlock(buf, off + i);
        c := c + Cipher(Xor(p[i..i + 16], LastBlock(iv0, c)), w);
        iv, ivOff := buf, off + i;
        i := i + BLOCK_LENGTH;
      }
      CbcEncryptEnd(s, off, p, iv0, c, w, buf[..]);
    }

    /** AES_CBC_encrypt_buffer on the length bytes of buf at off. */
    method CbcEncryptBuffer(buf: array<byte>, off: nat, length: nat)
      requires Valid() && buf != RoundKey && buf != Iv
      requires length % BLOCK_LENGTH == 0 && off + length <= buf.Length
      modifies buf, Iv
      ensures CbcEncrypted(old(buf[off..off + length]), old(Vector()), buf[off..off + length], Keys())
      ensures Vector() == LastBlock(old(Vector()), buf[off..off + length])
      ensures buf[..off] == old(buf[..off]) && buf[off + length..] == old(buf[off + length..])
    {
      hide CbcEncrypted, LastBlock, Progress;
      ghost var s := buf[..];
      assert buf[off..off + length] == s[off..off + length];
      var iv, ivOff, c := CbcEncryptBlocks(buf, off, length);
      ProgressEnds(s, off, c);
      assert buf[off..off + length] == buf[..][off..off + length];
      CopyBlock(iv, ivOff, Iv);
    }

    /** AES_CBC_decrypt_buffer on the length bytes of buf at off. */
    method CbcDecryptBuffer(buf: array<byte>, off: nat, length: nat)
      requires Valid() && buf != RoundKey && buf != Iv
      requires length % BLOCK_LENGTH == 0 && off + length <= buf.Length
      modifies buf, Iv
      ensures CbcDecrypted(old(buf[off..off + length]), old(Vector()), buf[off..off + length], Keys())
      ensures Vector() == LastBlock(old(Vector()), old(buf[off..off + length]))
      ensures buf[..off] == old(buf[..off]) && buf[off + length..] == old(buf[off + length..])
    {
      hide CbcDecrypted, LastBlock, InvCipher, Xor, Progress, Splice;
      ghost var s, iv0, w := buf[..], Vector(), Keys();
      ghost var c := s[off..off + length];
      ghost var p: seq<byte> := [];
      CbcStart(iv0, w);
      ProgressEnds(s, off, []);
      var i := 0;
      while i < length
        invariant 0 <= i <= length && i % 16 == 0
        invariant |p| == i && CbcDecrypted(c[..i], iv0, p, w)
        invariant buf[..] == Progress(s, off, p)
        invariant Vector() == LastBlock(iv0, c[..i])
      {
        ghost var b := c[i..i + 16];
        ProgressRest(s, off, length, p);
        AtBlock(buf, off + i);
        ghost var d := Xor(InvCipher(b, w), LastBlock(iv0, c[..i]));
        CbcDecryptBlock(buf, off + i);
        CbcDecryptAppend(c[..i], iv0, p, w, b);
        TakeMore(c, i, i + 16);
        ProgressStep(s, off, p, d);
        LastBlockAppended(iv0, c[..i], b);
        p := p + d;
        i := i + BLOCK_LENGTH;
      }
      assert c[..i] == c;
      ProgressEnds(s, off, p);
      assert buf[off..off + length] == buf[..][off..off + length] == p;
    }

    /** The increment inside AES_CTR_xcrypt_buffer: the vector as a big-endian number goes up by one, modulo 2^128. */
    method IncrementIv()
      requires Valid()
      modifies Iv
      ensures Vector() == CounterBlock(old(Vector()), 1)
    {
      ghost var v := Vector();
      assert v[..BLOCK_LENGTH] == v;
      var bi := BLOCK_LENGTH - 1;
      while bi >= 0
        invariant -1 <= bi < BLOCK_LENGTH
        invariant Iv[..bi + 1] == v[..bi + 1]
        invariant Inc(v) == Inc(v[..bi + 1]) + Iv[bi + 1..]
      {
        assert v[..bi + 1][..bi] == v[..bi];
        if Iv[bi] == 255 {
          Iv[bi] := 0;
          bi := bi - 1;
          continue;
        }
        Iv[bi] := Iv[bi] + 1;
        assert Iv[..] == Inc(v);
        break;
      }
      assert Iv[..] == Inc(v);
      IncIsNext(v);
    }

    static method XorByte(buf: array<byte>, k: nat, b: byte)
      requires k < buf.Length
      modifies buf
      ensures buf[..] == old(buf[..])[k := old(buf[k]) ^ b]
    {
      buf[k] := buf[k] ^ b;
    }

    /** Key stream for one block, and the vector moved on. */
    method NextKeyBlock(buffer: array<byte>)
      requires Valid() && buffer.Length == BLOCK_LENGTH && buffer != Iv && buffer != RoundKey
      modifies buffer, Iv
      ensures buffer[..] == Cipher(old(Vector()), Keys())
      ensures Vector() == CounterBlock(old(Vector()), 1)
    {
      hide Cipher, CounterBlock;
      CopyBlock(Iv, 0, buffer);
      assert Aes.BlockAt(Iv, 0) == Vector() && Aes.BlockAt(buffer, 0) == buffer[..];
      Aes.Cipher(buffer, 0, RoundKey);
      assert Aes.BlockAt(buffer, 0) == buffer[..];
      IncrementIv();
    }

    /** AES_CTR_xcrypt_buffer on the length bytes of buf at off. */
    method CtrXcryptBuffer(buf: array<byte>, off: nat, length: nat)
      requires Valid() && buf != RoundKey && buf != Iv && off + length <= buf.Length
      modifies buf, Iv
      ensures CtrCrypted(old(buf[off..off + length]), old(Vector()), buf[off..off + length], Keys())
      ensures Vector() == CounterBlock(old(Vector()), BlocksFor(length))
      ensures buf[..off] == old(buf[..off]) && buf[off + length..] == old(buf[off + length..])
    {
      hide Cipher, CounterBlock, Progress, KeyByte, CtrCrypted, BlocksFor, InStep;
      BlockStarts(0);
      ghost var s, iv0, w := buf[..], Vector(), Keys();
      ghost var p := s[off..off + length];
      ghost var t: seq<byte> := [];
      ProgressEnds(s, off, []);
      CounterBlockStart(iv0);
      CtrStart(iv0, w);
      var buffer := new byte[BLOCK_LENGTH];
      var i, bi := 0, BLOCK_LENGTH;
      while i < length
        invariant 0 <= i <= length && 0 < bi <= BLOCK_LENGTH && InStep(i, bi)
        invariant bi < BLOCK_LENGTH ==> buffer[..] == Cipher(CounterBlock(iv0, i / 16), w)
        invariant Vector() == CounterBlock(iv0, BlocksFor(i))
        invariant |t| == i && CtrCrypted(p[..i], iv0, t, w)
        invariant buf[..] == Progress(s, off, t)
      {
        if bi == BLOCK_LENGTH {
          BlockStarts(i);
          NextKeyBlock(buffer);
          CounterBlockAdds(iv0, i / 16, 1);
          bi := 0;
        }
        WithinBlock(i, bi);
        ghost var e := p[i] ^ KeyByte(iv0, w, i);
        KeyByteIs(iv0, w, i);
        ProgressByte(s, off, length, t, e);
        assert buf[off + i] == buf[..][off + i] == p[i];
        XorByte(buf, off + i, buffer[bi]);
        CtrAppend(p[..i], iv0, t, w, p[i]);
        TakeOne(p, i);
        t := t + [e];
        i := i + 1;
        bi := bi + 1;
      }
      assert p[..i] == p;
      ProgressEnds(s, off, t);
      assert buf[off..off + length] == buf[..][off..off + length] == t;
    }
  }

  ghost function Splice(s: seq<byte>, off: nat, b: Block): (t: seq<byte>)
    requires off + 16 <= |s|
    ensures |t| == |s|
  {
    s[..off] + b + s[off + 16..]
  }

  lemma AtBlock(buf: array<byte>, off: nat)
    requires off + 16 <= buf.Length
    ensures Aes.BlockAt(buf, off) == buf[..][off..off + 16]
  {
  }

  /** The buffer s after the bytes at off have been overwritten by done. */
  ghost function Progress(s: seq<byte>, off: nat, done: seq<byte>): (t: seq<byte>)
    requires off + |done| <= |s|
    ensures |t| == |s|
  {
    s[..off] + done + s[off + |done|..]
  }

  lemma ProgressEnds(s: seq<byte>, off: nat, done: seq<byte>)
    requires off + |done| <= |s|
    ensures Progress(s, off, []) == s
    ensures var t := Progress(s, off, done);
            t[off..off + |done|] == done && t[..off] == s[..off] && t[off + |done|..] == s[off + |done|..]
  {
  }

  lemma ProgressRest(s: seq<byte>, off: nat, length: nat, done: seq<byte>)
    requires off + length <= |s| && |done| + 16 <= length
    ensures Progress(s, off, done)[off + |done|..off + |done| + 16] == s[off..off + length][|done|..|done| + 16]
  {
    var t, n := Progress(s, off, done), |done|;
    forall k | off + n <= k < off + n + 16 ensures t[k] == s[k] {
    }
    assert t[off + n..off + n + 16] == s[off + n..off + n + 16];
    SliceOfSlice(s, off, off + length, n, n + 16);
  }

  /** The text p, which stands at off in s, has been encrypted so far as c, and t is what has become of s. */
  ghost predicate CbcEncrypting(s: seq<byte>, off: nat, p: seq<byte>, iv: Block, c: seq<byte>, w: Schedule,
                                t: seq<byte>)
  {
    && off + |p| <= |s| && p == s[off..off + |p|] && |c| <= |p| && WholeBlocks(p) && WholeBlocks(c)
    && CbcEncrypted(p[..|c|], iv, c, w) && t == Progress(s, off, c)
  }

  lemma CbcEncryptStart(s: seq<byte>, off: nat, p: seq<byte>, iv: Block, w: Schedule)
    requires off + |p| <= |s| && p == s[off..off + |p|] && |p| % 16 == 0
    ensures CbcEncrypting(s, off, p, iv, [], w, s) && WholeBlocks([]) && LastBlock(iv, []) == iv
  {
    hide CbcEncrypted, LastBlock, Progress;
    CbcStart(iv, w);
    ProgressEnds(s, off, []);
  }

  lemma CbcEncryptEnd(s: seq<byte>, off: nat, p: seq<byte>, iv: Block, c: seq<byte>, w: Schedule, t: seq<byte>)
    requires CbcEncrypting(s, off, p, iv, c, w, t) && |c| == |p|
    ensures CbcEncrypted(p, iv, c, w) && off + |c| <= |s| && t == Progress(s, off, c)
  {
    hide CbcEncrypted, Progress;
    assert p[..|c|] == p;
  }

  /** One block further. */
  lemma CbcEncryptStep(s: seq<byte>, off: nat, p: seq<byte>, iv: Block, c: seq<byte>, w: Schedule, t: seq<byte>)
    requires CbcEncrypting(s, off, p, iv, c, w, t) && |c| < |p|
    ensures WholeBlocks(c) && |c| + 16 <= |p| && off + |p| <= |t|
    ensures var i, e := |c|, Cipher(Xor(p[|c|..|c| + 16], LastBlock(iv, c)), w);
            && t[off + i..off + i + 16] == p[i..i + 16] && WholeBlocks(c + e) && LastBlock(iv, c + e) == e
            && CbcEncrypting(s, off, p, iv, c + e, w, Splice(t, off + i, e))
            && Splice(t, off + i, e)[off + i..off + i + 16] == e
  {
    hide CbcEncrypted, LastBlock, Cipher, Xor, Progress, Splice;
    var b: Block := p[|c|..|c| + 16];
    var e := Cipher(Xor(b, LastBlock(iv, c)), w);
    ProgressRest(s, off, |p|, c);
    CbcEncryptAppend(p[..|c|], iv, c, w, b);
    TakeMore(p, |c|, |c| + 16);
    ProgressStep(s, off, c, e);
    LastBlockAppended(iv, c, e);
  }

  lemma ProgressByte(s: seq<byte>, off: nat, length: nat, done: seq<byte>, e: byte)
    requires off + length <= |s| && |done| < length
    ensures Progress(s, off, done)[off + |done|] == s[off..off + length][|done|]
    ensures Progress(s, off, done)[off + |done| := e] == Progress(s, off, done + [e])
  {
  }

  lemma KeyByteIs(iv: Block, w: Schedule, i: nat)
    ensures KeyByte(iv, w, i) == Cipher(CounterBlock(iv, i / 16), w)[i % 16]
  {
    hide Cipher, CounterBlock;
  }

  /** The running index bi is the position within the current block, 16 when a new block is due. */
  ghost predicate InStep(i: nat, bi: nat) {
    (i + 16 - bi) % 16 == 0 && bi <= 16
  }

  lemma BlockStarts(i: nat)
    ensures InStep(i, 16) <==> i % 16 == 0
    ensures InStep(i, 16) ==> InStep(i, 0) && BlocksFor(i) == i / 16
  {
  }

  lemma WithinBlock(i: nat, bi: nat)
    requires bi < 16 && InStep(i, bi)
    ensures i % 16 == bi && BlocksFor(i + 1) == i / 16 + 1 && InStep(i + 1, bi + 1)
    ensures bi < 15 ==> (i + 1) / 16 == i / 16
    ensures bi > 0 ==> BlocksFor(i) == i / 16 + 1
  {
    var q := (i + 16 - bi) / 16;
    assert i + 16 - bi == 16 * q;
  }

  lemma ProgressStep(s: seq<byte>, off: nat, done: seq<byte>, b: Block)
    requires off + |done| + 16 <= |s|
    ensures Splice(Progress(s, off, done), off + |done|, b) == Progress(s, off, done + b)
    ensures Progress(s, off, done + b)[off + |done|..off + |done| + 16] == b
  {
  }
}
