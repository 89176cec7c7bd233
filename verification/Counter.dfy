/** Sixteen-byte big-endian counters (appendix B.1 of NIST SP 800-38A). */
module Counter {
  import opened Gf256
  import opened AesSpec

  /** 256 to the power n. */
  function Pow256(n: nat): (p: nat)
    ensures p > 0
  {
    if n == 0 then 1 else 256 * Pow256(n - 1)
  }

  const MODULUS: nat := 0x1_0000_0000_0000_0000_0000_0000_0000_0000

  lemma ModulusIsPow()
    ensures Pow256(16) == MODULUS
  {
    assert Pow256(4) == 0x1_0000_0000;
    assert Pow256(8) == 0x1_0000_0000_0000_0000;
    assert Pow256(12) == 0x1_0000_0000_0000_0000_0000_0000;
  }

  /** The number a string of bytes stands for, most significant byte first. */
  function Value(s: seq<byte>): nat {
    if s == [] then 0 else 256 * Value(s[..|s| - 1]) + s[|s| - 1] as nat
  }

  function Bytes(n: nat, k: nat): (s: seq<byte>)
    ensures |s| == k
  {
    if k == 0 then [] else Bytes(n / 256, k - 1) + [(n % 256) as byte]
  }

  lemma {:induction false} ValueBound(s: seq<byte>)
    ensures Value(s) < Pow256(|s|)
  {
    if s != [] {
      ValueBound(s[..|s| - 1]);
    }
  }

  lemma DivideBy256(n: nat, b: nat)
    requires b < 256
    ensures (256 * n + b) / 256 == n && (256 * n + b) % 256 == b
  {
  }

  lemma ByteOfNat(b: byte)
    ensures (b as nat) as byte == b
  {
  }

  lemma {:induction false} BytesOfValue(s: seq<byte>)
    ensures Bytes(Value(s), |s|) == s
  {
    if s != [] {
      var front, last := s[..|s| - 1], s[|s| - 1];
      DivideBy256(Value(front), last as nat);
      BytesOfValue(front);
      ByteOfNat(last);
      assert Bytes(Value(s), |s|) == Bytes(Value(front), |front|) + [last];
    }
  }

  lemma {:induction false} ValueOfBytes(n: nat, k: nat)
    requires n < Pow256(k)
    ensures Value(Bytes(n, k)) == n
  {
    if k > 0 {
      var front, last := Bytes(n / 256, k - 1), n % 256;
      Split256(n, Pow256(k - 1));
      ValueOfBytes(n / 256, k - 1);
      hide Pow256;
      assert Bytes(n, k)[..k - 1] == front;
      NatOfByte(last);
    }
  }

  lemma Split256(n: nat, bound: nat)
    requires n < 256 * bound
    ensures n / 256 < bound && n == 256 * (n / 256) + n % 256
  {
  }

  lemma BelowTop(b: byte)
    requires b as nat < 255
    ensures b != 255
  {
  }

  lemma {:induction false} ByteFor(n: nat) returns (b: byte)
    requires n < 256
    ensures b as nat == n
  {
    if n == 0 {
      b := 0;
    } else {
      b := ByteFor(n - 1);
      BelowTop(b);
      ByteSuccessor(b);
      b := b + 1;
    }
  }

  lemma NatOfByte(n: nat)
    requires n < 256
    ensures (n as byte) as nat == n
  {
    var b := ByteFor(n);
    ByteOfNat(b);
  }

  lemma ValueInjective(s: seq<byte>, s': seq<byte>)
    requires |s| == |s'| && Value(s) == Value(s')
    ensures s == s'
  {
    BytesOfValue(s);
    BytesOfValue(s');
  }

  /** The counter block n steps after iv: addition modulo 2^128. */
  function CounterBlock(iv: Block, n: nat): Block {
    Bytes((Value(iv) + n) % MODULUS, BLOCK_LENGTH)
  }

  lemma CounterBlockValue(iv: Block, n: nat)
    ensures Value(CounterBlock(iv, n)) == (Value(iv) + n) % MODULUS
  {
    ModulusIsPow();
    ValueOfBytes((Value(iv) + n) % MODULUS, BLOCK_LENGTH);
  }

  lemma CounterBlockStart(iv: Block)
    ensures CounterBlock(iv, 0) == iv
  {
    hide Bytes, Value, Pow256;
    ModulusIsPow();
    ValueBound(iv);
    BytesOfValue(iv);
    assert Value(iv) % MODULUS == Value(iv);
  }

  lemma CounterBlockAdds(iv: Block, m: nat, n: nat)
    ensures CounterBlock(CounterBlock(iv, m), n) == CounterBlock(iv, m + n)
  {
    hide Bytes, Value;
    CounterBlockValue(iv, m);
    assert ((Value(iv) + m) % MODULUS + n) % MODULUS == (Value(iv) + (m + n)) % MODULUS;
  }

  /** No counter block comes back before 2^128 of them have been used. */
  lemma CounterBlocksDiffer(iv: Block, m: nat, n: nat)
    ensures CounterBlock(iv, m) == CounterBlock(iv, n) <==> m % MODULUS == n % MODULUS
  {
    hide Bytes, Value;
    CounterBlockValue(iv, m);
    CounterBlockValue(iv, n);
  }

  /** Schoolbook increment: the last byte that is not 255 goes up, the ones behind it become 0. */
  function Inc(s: seq<byte>): (t: seq<byte>)
    ensures |t| == |s|
  {
    if s == [] then []
    else if s[|s| - 1] == 255 then Inc(s[..|s| - 1]) + [0]
    else s[..|s| - 1] + [s[|s| - 1] + 1]
  }

  lemma ByteSuccessor(b: byte)
    requires b != 255
    ensures (b + 1) as nat == b as nat + 1
  {
  }

  lemma {:induction false} IncValue(s: seq<byte>)
    ensures Value(Inc(s)) == if Value(s) + 1 == Pow256(|s|) then 0 else Value(s) + 1
  {
    if s != [] {
      var front, last := s[..|s| - 1], s[|s| - 1];
      IncValue(front);
      ValueBound(front);
      if last == 255 {
        assert Inc(s)[..|s| - 1] == Inc(front);
      } else {
        ByteSuccessor(last);
        assert Inc(s)[..|s| - 1] == front;
      }
    }
  }

  lemma SuccessorModulo(v: nat, m: nat)
    requires v < m
    ensures (v + 1) % m == if v + 1 == m then 0 else v + 1
  {
  }

  /** One increment is the next counter block. */
  lemma IncIsNext(iv: Block)
    ensures Inc(iv) == CounterBlock(iv, 1)
  {
    hide Pow256, Value, CounterBlock, Inc;
    ModulusIsPow();
    IncValue(iv);
    ValueBound(iv);
    CounterBlockValue(iv, 1);
    SuccessorModulo(Value(iv), MODULUS);
    ValueInjective(Inc(iv), CounterBlock(iv, 1));
  }
}
