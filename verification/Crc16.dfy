/** The CRC of src/lib/xmodem.c: the shift register, the polynomial division it performs, and the errors it detects.

    A message is followed bit by bit, most significant bit of each byte first. */
module Crc16 {
  import opened Gf256
  import opened Sequences

  const POLYNOMIAL: bv16 := 0x1021

  /** One turn of the loop of crc_xmodem_update. */
  function Shift(crc: bv16): bv16 {
    if crc & 0x8000 != 0 then (crc << 1) ^ 0x1021 else crc << 1
  }

  function Shifts(crc: bv16, n: nat): bv16
    decreases n
  {
    if n == 0 then crc else Shifts(Shift(crc), n - 1)
  }

  function Update(crc: bv16, data: byte): bv16 {
    Shifts(crc ^ Widen(data), 8)
  }

  /** The register after a message. */
  function Crc(crc: bv16, msg: seq<byte>): bv16
    decreases msg
  {
    if msg == [] then crc else Crc(Update(crc, msg[0]), msg[1..])
  }

  method CrcXmodemUpdate(crc0: bv16, data: byte) returns (crc: bv16)
    ensures crc == Update(crc0, data)
  {
    hide Widen;
    crc := crc0 ^ Widen(data);
    for i := 0 to 8
      invariant Shifts(crc, 8 - i) == Update(crc0, data)
    {
      ghost var before := crc;
      if crc & 0x8000 != 0 {
        crc := (crc << 1) ^ 0x1021;
      } else {
        crc := crc << 1;
      }
      assert crc == Shift(before);
    }
  }

  // Bit by bit. A register is also the list of its sixteen bits, the leading one first.

  type Register = s: seq<bool> | |s| == 16 witness seq(16, i => false)

  predicate Top(r: bv16) {
    r & 0x8000 != 0
  }

  /** The n leading bits of a word. */
  function TopBits(r: bv16, n: nat): (s: seq<bool>)
    ensures |s| == n
    decreases n
  {
    if n == 0 then [] else [Top(r)] + TopBits(r << 1, n - 1)
  }

  function Left(r: bv16, n: nat): bv16
    decreases n
  {
    if n == 0 then r else Left(r << 1, n - 1)
  }

  function Bits(crc: bv16): Register {
    TopBits(crc, 16)
  }

  function Widen(data: byte): bv16 {
    (data as bv16) << 8
  }

  function ByteBits(data: byte): (s: seq<bool>)
    ensures |s| == 8
  {
    TopBits(Widen(data), 8)
  }

  function MessageBits(msg: seq<byte>): (s: seq<bool>)
    ensures |s| == 8 * |msg|
  {
    if msg == [] then [] else ByteBits(msg[0]) + MessageBits(msg[1..])
  }

  function XorBits(a: seq<bool>, b: seq<bool>): (s: seq<bool>)
    requires |a| == |b|
    ensures |s| == |a|
  {
    seq(|a|, i requires 0 <= i < |a| => a[i] != b[i])
  }

  function Zeros(n: nat): (s: seq<bool>)
    ensures |s| == n
  {
    seq(n, i => false)
  }

  lemma XorStep(a: bv16, b: bv16)
    ensures (a ^ b) << 1 == (a << 1) ^ (b << 1)
    ensures Top(a ^ b) == (Top(a) != Top(b))
  {
  }

  lemma TopBitsStep(r: bv16, n: nat)
    requires n > 0
    ensures TopBits(r, n) == [Top(r)] + TopBits(r << 1, n - 1)
  {
  }

  lemma TopBitsXorStep(a: bv16, b: bv16, n: nat)
    requires TopBits((a << 1) ^ (b << 1), n) == XorBits(TopBits(a << 1, n), TopBits(b << 1, n))
    ensures TopBits(a ^ b, n + 1) == XorBits(TopBits(a, n + 1), TopBits(b, n + 1))
  {
    hide Top, TopBits, XorBits;
    XorStep(a, b);
    TopBitsStep(a, n + 1);
    TopBitsStep(b, n + 1);
    TopBitsStep(a ^ b, n + 1);
    XorBitsCons(Top(a), Top(b), TopBits(a << 1, n), TopBits(b << 1, n));
  }

  lemma XorBitsCons(a: bool, b: bool, s: seq<bool>, t: seq<bool>)
    requires |s| == |t|
    ensures XorBits([a] + s, [b] + t) == [a != b] + XorBits(s, t)
  {
  }

  lemma TopBitsNone(a: bv16)
    ensures TopBits(a, 0) == []
  {
  }

  lemma {:induction false} TopBitsXor(a: bv16, b: bv16, n: nat)
    ensures TopBits(a ^ b, n) == XorBits(TopBits(a, n), TopBits(b, n))
    decreases n
  {
    hide *;
    if n == 0 {
      TopBitsNone(a ^ b);
      TopBitsNone(a);
      TopBitsNone(b);
      assert XorBits([], []) == [];
    } else {
      TopBitsXor(a << 1, b << 1, n - 1);
      TopBitsXorStep(a, b, n - 1);
    }
  }

  lemma {:induction false} TopBitsSplit(r: bv16, m: nat, n: nat)
    ensures TopBits(r, m + n) == TopBits(r, m) + TopBits(Left(r, m), n)
    decreases m
  {
    hide Top;
    if m > 0 {
      TopBitsSplit(r << 1, m - 1, n);
    }
  }

  lemma {:induction false} TopBitsZero(n: nat)
    ensures TopBits(0, n) == Zeros(n)
    decreases n
  {
    if n > 0 {
      assert 0 as bv16 << 1 == 0 as bv16;
      TopBitsZero(n - 1);
    }
  }

  lemma LeftFour(r: bv16, n: nat)
    ensures Left(r, n + 4) == Left(r << 4, n)
  {
    assert Left(r, n + 4) == Left(r << 1, n + 3) == Left((r << 1) << 1, n + 2);
    assert Left((r << 1) << 1, n + 2) == Left(((r << 1) << 1) << 1, n + 1);
  }

  lemma ShiftedOut(r: bv16)
    ensures Left(r, 16) == 0
  {
    LeftFour(r, 12);
    LeftFour(r << 4, 8);
    LeftFour((r << 4) << 4, 4);
    LeftFour(((r << 4) << 4) << 4, 0);
  }

  lemma {:induction false} NoLeadingBits(z: bv16, n: nat)
    requires TopBits(z, n) == Zeros(n) && Left(z, n) == 0
    ensures z == 0
    decreases n
  {
    if n > 0 {
      assert !Zeros(n)[0] && Zeros(n)[1..] == Zeros(n - 1);
      NoLeadingBits(z << 1, n - 1);
    }
  }

  lemma BitsInjective(a: bv16, b: bv16)
    ensures Bits(a) == Bits(b) <==> a == b
  {
    hide Left, Top, TopBits;
    if Bits(a) == Bits(b) {
      TopBitsXor(a, b, 16);
      assert XorBits(Bits(a), Bits(b)) == Zeros(16);
      ShiftedOut(a ^ b);
      NoLeadingBits(a ^ b, 16);
      XorZero(a, b);
    }
  }

  lemma XorZero(a: bv16, b: bv16)
    requires a ^ b == 0
    ensures a == b
  {
  }

  /** The terms of the divisor below the leading one, x^12, x^5 and 1, by their place in a register. */
  predicate IsTap(i: nat) {
    i == 3 || i == 10 || i == 15
  }

  function Taps(): Register {
    seq(16, (i: nat) => IsTap(i))
  }

  function ShiftRegister(r: Register): Register {
    seq(16, i requires 0 <= i < 16 => (i < 15 && r[i + 1]) != (r[0] && IsTap(i)))
  }

  lemma PolynomialTops()
    ensures !Top(0x1021) && !Top(0x2042) && !Top(0x4084) && Top(0x8108)
    ensures !Top(0x0210) && !Top(0x0420) && !Top(0x0840) && !Top(0x1080)
    ensures !Top(0x2100) && !Top(0x4200) && Top(0x8400) && !Top(0x0800)
    ensures !Top(0x1000) && !Top(0x2000) && !Top(0x4000) && Top(0x8000)
  {
  }

  lemma TapsSpeltOut()
    ensures Taps() == [false, false, false, true, false, false, false, false,
                       false, false, true, false, false, false, false, true]
  {
  }

  lemma PolynomialBits()
    ensures Bits(0x1021) == Taps()
  {
    PolynomialTops();
    TapsSpeltOut();
    hide TopBits, Top, Taps;
    TopBitsStep(0x1021, 16); TopBitsStep(0x2042, 15); TopBitsStep(0x4084, 14); TopBitsStep(0x8108, 13);
    TopBitsStep(0x0210, 12); TopBitsStep(0x0420, 11); TopBitsStep(0x0840, 10); TopBitsStep(0x1080, 9);
    TopBitsStep(0x2100, 8); TopBitsStep(0x4200, 7); TopBitsStep(0x8400, 6); TopBitsStep(0x0800, 5);
    TopBitsStep(0x1000, 4); TopBitsStep(0x2000, 3); TopBitsStep(0x4000, 2); TopBitsStep(0x8000, 1);
    NoTopBits(0);
  }

  lemma NoTopBits(r: bv16)
    ensures TopBits(r, 0) == []
  {
  }

  lemma LeftBits(r: bv16)
    ensures Bits(r << 1) == Bits(r)[1..] + [false]
  {
    hide Top;
    TopBitsSplit(r, 1, 15);
    TopBitsSplit(r << 1, 15, 1);
    LastIsGone(r);
  }

  lemma LastIsGone(r: bv16)
    ensures TopBits(Left(r << 1, 15), 1) == [false]
  {
    assert Left(r << 1, 15) == Left(r, 16);
    ShiftedOut(r);
  }

  lemma ShiftIsShiftRegister(crc: bv16)
    ensures Bits(Shift(crc)) == ShiftRegister(Bits(crc))
  {
    LeftBits(crc);
    TopBitsStep(crc, 16);
    PolynomialBits();
    TopBitsXor(crc << 1, 0x1021, 16);
    var r, l := Bits(crc), Bits(crc << 1);
    ShiftIs(crc);
    hide Shift, TopBits, Top, Taps, ShiftRegister, XorBits;
    Fed(r);
  }

  /** A register step is a shift, and the taps are added when a one falls out. */
  lemma Fed(r: Register)
    ensures ShiftRegister(r) == if r[0] then XorBits(r[1..] + [false], Taps()) else r[1..] + [false]
  {
  }

  lemma ShiftIs(crc: bv16)
    ensures Shift(crc) == if Top(crc) then (crc << 1) ^ 0x1021 else crc << 1
  {
  }

  lemma XorDataBits(crc: bv16, data: byte)
    ensures Bits(crc ^ Widen(data)) == XorBits(Bits(crc), ByteBits(data) + Zeros(8))
  {
    hide Top, TopBits, Widen, Left;
    TopBitsXor(crc, Widen(data), 16);
    TopBitsSplit(Widen(data), 8, 8);
    LowByteEmpty(data);
    TopBitsZero(8);
  }

  lemma LowByteEmpty(data: byte)
    ensures Left(Widen(data), 8) == 0
  {
  }

  lemma ByteBitsInjective(x: byte, y: byte)
    ensures ByteBits(x) == ByteBits(y) <==> x == y
  {
    hide Top;
    if ByteBits(x) == ByteBits(y) {
      XorDataBits(0, x);
      XorDataBits(0, y);
      BitsInjective(0 ^ Widen(x), 0 ^ Widen(y));
      assert Widen(x) == Widen(y) ==> x == y;
    }
  }

  // The register fed one message bit at a time

  function FeedBit(r: Register, b: bool): Register {
    ShiftRegister(r[0 := r[0] != b])
  }

  function FeedBits(r: Register, bits: seq<bool>): Register {
    if bits == [] then r else FeedBit(FeedBits(r, bits[..|bits| - 1]), bits[|bits| - 1])
  }

  lemma {:induction false} FeedBitsJoin(r: Register, s: seq<bool>, t: seq<bool>)
    ensures FeedBits(r, s + t) == FeedBits(FeedBits(r, s), t)
  {
    if t == [] {
      assert s + t == s;
    } else {
      FeedBitsJoin(r, s, t[..|t| - 1]);
      assert (s + t)[..|s + t| - 1] == s + t[..|t| - 1];
    }
  }

  lemma FeedFirst(r: Register, b: bool, rest: seq<bool>)
    ensures FeedBits(r, [b] + rest) == FeedBits(FeedBit(r, b), rest)
  {
    hide FeedBit;
    FeedBitsJoin(r, [b], rest);
    assert FeedBits(r, [b]) == FeedBit(FeedBits(r, []), b);
  }

  function ShiftRegisters(r: Register, n: nat): Register
    decreases n
  {
    if n == 0 then r else ShiftRegisters(ShiftRegister(r), n - 1)
  }

  /** Adding a word to the register and shifting n times is feeding the n leading bits of the word; the others are
      left in the register. */
  lemma {:induction false} ShiftsFeed(f: Register, s: seq<bool>, t: seq<bool>)
    requires |s| + |t| == 16
    ensures ShiftRegisters(XorBits(f, s + t), |s|) == XorBits(FeedBits(f, s), t + Zeros(|s|))
    decreases |s|
  {
    if s == [] {
      assert t + Zeros(0) == t == s + t;
    } else {
      var r := s + t;
      var r' := s[1..] + (t + [false]);
      var f' := FeedBit(f, s[0]);
      assert ShiftRegister(XorBits(f, r)) == XorBits(f', r');
      ShiftsFeed(f', s[1..], t + [false]);
      assert s == [s[0]] + s[1..];
      FeedFirst(f, s[0], s[1..]);
      assert t + [false] + Zeros(|s| - 1) == t + Zeros(|s|);
    }
  }

  lemma {:induction false} ShiftsAreShifts(crc: bv16, n: nat)
    ensures Bits(Shifts(crc, n)) == ShiftRegisters(Bits(crc), n)
    decreases n
  {
    hide Shift, Bits, ShiftRegister;
    if n > 0 {
      ShiftIsShiftRegister(crc);
      ShiftsAreShifts(Shift(crc), n - 1);
    }
  }

  lemma XorZeros(r: Register)
    ensures XorBits(r, Zeros(16)) == r
  {
  }

  lemma UpdateIsFeed(crc: bv16, data: byte)
    ensures Bits(Update(crc, data)) == FeedBits(Bits(crc), ByteBits(data))
  {
    hide Bits, ByteBits, Shifts, FeedBits, ShiftRegisters, XorBits;
    XorDataBits(crc, data);
    ShiftsAreShifts(crc ^ (Widen(data)), 8);
    ShiftsFeed(Bits(crc), ByteBits(data), Zeros(8));
    assert Zeros(8) + Zeros(8) == Zeros(16);
    XorZeros(FeedBits(Bits(crc), ByteBits(data)));
  }

  /** Bytes through crc_xmodem_update and bits through the register come to the same. */
  lemma {:induction false} CrcIsFeed(crc: bv16, msg: seq<byte>)
    ensures Bits(Crc(crc, msg)) == FeedBits(Bits(crc), MessageBits(msg))
    decreases msg
  {
    hide Bits, ByteBits, Update, FeedBits;
    if msg == [] {
      assert FeedBits(Bits(crc), []) == Bits(crc) by { FeedNone(Bits(crc)); }
    } else {
      UpdateIsFeed(crc, msg[0]);
      CrcIsFeed(Update(crc, msg[0]), msg[1..]);
      FeedBitsJoin(Bits(crc), ByteBits(msg[0]), MessageBits(msg[1..]));
    }
  }

  lemma FeedNone(r: Register)
    ensures FeedBits(r, []) == r
  {
  }

  // What the register holds is a remainder

  function At(s: seq<bool>, k: int): bool {
    0 <= k < |s| && s[k]
  }

  /** The coefficient at place k, counted from the leading one, of the message times x^16 is that of the quotient
      times x^16 + x^12 + x^5 + 1 plus the remainder. */
  predicate DivisionAt(m: seq<bool>, q: seq<bool>, r: Register, k: nat) {
    At(m, k) == (((At(q, k) != At(q, k - 4)) != (At(q, k - 11) != At(q, k - 16))) != At(r, k - |m|))
  }

  /** q is the quotient and r the remainder of the message polynomial times x^16 divided by the generator. */
  ghost predicate IsDivision(m: seq<bool>, q: seq<bool>, r: Register) {
    |q| == |m| && forall k: nat :: DivisionAt(m, q, r, k)
  }

  function Quotient(m: seq<bool>): (q: seq<bool>)
    ensures |q| == |m|
  {
    if m == [] then [] else
      var front := m[..|m| - 1];
      Quotient(front) + [FeedBits(Zeros(16), front)[0] != m[|m| - 1]]
  }

  lemma DivisionStep(m: seq<bool>, q: seq<bool>, r: Register, b: bool)
    requires IsDivision(m, q, r)
    ensures IsDivision(m + [b], q + [r[0] != b], FeedBit(r, b))
  {
    var n, t, r' := |m|, r[0] != b, FeedBit(r, b);
    var m', q' := m + [b], q + [t];
    hide At, FeedBit;
    forall k: nat ensures DivisionAt(m', q', r', k) {
      MessageBit(m, b, k);
      assert DivisionAt(m, q, r, k);
      QuotientBit(q, t, k);
      QuotientBit(q, t, k - 4);
      QuotientBit(q, t, k - 11);
      QuotientBit(q, t, k - 16);
      RemainderBit(r, b, k - n);
    }
  }

  lemma MessageBit(m: seq<bool>, b: bool, k: nat)
    ensures At(m + [b], k) == (At(m, k) || (k == |m| && b))
    ensures k >= |m| ==> !At(m, k)
  {
  }

  lemma QuotientBit(q: seq<bool>, t: bool, k: int)
    ensures At(q + [t], k) == (At(q, k) || (k == |q| && t))
    ensures k >= |q| ==> !At(q, k)
  {
  }

  lemma RemainderBit(r: Register, b: bool, d: int)
    ensures At(FeedBit(r, b), d - 1) == (d > 0 && (At(r, d) != ((d == 4 || d == 11 || d == 16) && (r[0] != b))))
    ensures At(r, 0) == r[0] && (d < 0 ==> !At(r, d))
  {
  }

  lemma {:induction false} FeedDivides(m: seq<bool>)
    ensures IsDivision(m, Quotient(m), FeedBits(Zeros(16), m))
  {
    if m != [] {
      var front, b := m[..|m| - 1], m[|m| - 1];
      FeedDivides(front);
      DivisionStep(front, Quotient(front), FeedBits(Zeros(16), front), b);
      assert front + [b] == m;
    }
  }

  lemma {:induction false} QuotientsAgree(m: seq<bool>, q: seq<bool>, r: Register, q': seq<bool>, r': Register, k: nat)
    requires IsDivision(m, q, r) && IsDivision(m, q', r') && k <= |m|
    ensures q[..k] == q'[..k]
  {
    if k > 0 {
      var j := k - 1;
      QuotientsAgree(m, q, r, q', r', j);
      AgreeBefore(q, q', j, j - 4);
      AgreeBefore(q, q', j, j - 11);
      AgreeBefore(q, q', j, j - 16);
      assert DivisionAt(m, q, r, j);
      assert DivisionAt(m, q', r', j);
      assert q[..k] == q[..j] + [q[j]] && q'[..k] == q'[..j] + [q'[j]];
    }
  }

  lemma AgreeBefore(q: seq<bool>, q': seq<bool>, j: nat, i: int)
    requires j <= |q| == |q'| && q[..j] == q'[..j] && i < j
    ensures At(q, i) == At(q', i)
  {
    if 0 <= i {
      assert q[i] == q[..j][i] == q'[..j][i];
    }
  }

  lemma DivisionUnique(m: seq<bool>, q: seq<bool>, r: Register, q': seq<bool>, r': Register)
    requires IsDivision(m, q, r) && IsDivision(m, q', r')
    ensures r == r'
  {
    QuotientsAgree(m, q, r, q', r', |m|);
    assert q == q[..|m|] == q'[..|m|] == q';
    forall i | 0 <= i < 16 ensures r[i] == r'[i] {
      var k := i + |m|;
      assert At(r, k - |m|) == r[i] && At(r', k - |m|) == r'[i];
      assert DivisionAt(m, q, r, k) && DivisionAt(m, q', r', k);
    }
  }

  lemma ZeroBits()
    ensures Bits(0) == Zeros(16)
  {
    TopBitsZero(16);
  }

  /** The CRC of a message is the remainder of its polynomial, shifted by sixteen places, and of no other one. */
  lemma CrcIsRemainder(msg: seq<byte>, crc: bv16)
    ensures (exists q :: IsDivision(MessageBits(msg), q, Bits(crc))) <==> crc == Crc(0, msg)
  {
    hide Bits, IsDivision;
    var m := MessageBits(msg);
    CrcIsFeed(0, msg);
    ZeroBits();
    FeedDivides(m);
    if q :| IsDivision(m, q, Bits(crc)) {
      DivisionUnique(m, q, Bits(crc), Quotient(m), FeedBits(Zeros(16), m));
      BitsInjective(crc, Crc(0, msg));
    }
  }

  // Error detection

  lemma ShiftInjective(r: Register, s: Register)
    requires ShiftRegister(r) == ShiftRegister(s)
    ensures r == s
  {
    assert ShiftRegister(r)[15] == r[0] && ShiftRegister(s)[15] == s[0];
    forall i | 0 < i < 16 ensures r[i] == s[i] {
      assert ShiftRegister(r)[i - 1] == (r[i] != (r[0] && IsTap(i - 1)));
      assert ShiftRegister(s)[i - 1] == (s[i] != (s[0] && IsTap(i - 1)));
    }
  }

  lemma FeedBitInjective(r: Register, s: Register, b: bool)
    requires FeedBit(r, b) == FeedBit(s, b)
    ensures r == s
  {
    hide ShiftRegister;
    var r', s' := r[0 := r[0] != b], s[0 := s[0] != b];
    ShiftInjective(r', s');
    forall i | 0 <= i < 16 ensures r[i] == s[i] {
      assert r'[i] == s'[i];
    }
  }

  lemma {:induction false} FeedBitsInjective(r: Register, s: Register, m: seq<bool>)
    requires FeedBits(r, m) == FeedBits(s, m)
    ensures r == s
  {
    hide FeedBit;
    if m != [] {
      FeedBitInjective(FeedBits(r, m[..|m| - 1]), FeedBits(s, m[..|m| - 1]), m[|m| - 1]);
      FeedBitsInjective(r, s, m[..|m| - 1]);
    }
  }

  lemma {:induction false} ShiftRegistersInjective(r: Register, s: Register, n: nat)
    requires ShiftRegisters(r, n) == ShiftRegisters(s, n)
    ensures r == s
    decreases n
  {
    hide ShiftRegister;
    if n > 0 {
      ShiftRegistersInjective(ShiftRegister(r), ShiftRegister(s), n - 1);
      ShiftInjective(r, s);
    }
  }

  lemma XorBitsCancels(r: Register, u: Register, v: Register)
    requires XorBits(r, u) == XorBits(r, v)
    ensures u == v
  {
    forall i | 0 <= i < 16 ensures u[i] == v[i] {
      assert XorBits(r, u)[i] == XorBits(r, v)[i];
    }
  }

  /** At most sixteen bits fed to one register are recovered from the result. */
  lemma WindowRecovered(r: Register, u: seq<bool>, v: seq<bool>)
    requires |u| == |v| <= 16 && FeedBits(r, u) == FeedBits(r, v)
    ensures u == v
  {
    hide FeedBits, XorBits, ShiftRegisters;
    var pad := Zeros(16 - |u|);
    ShiftsFeed(r, u, pad);
    ShiftsFeed(r, v, pad);
    ShiftRegistersInjective(XorBits(r, u + pad), XorBits(r, v + pad), |u|);
    XorBitsCancels(r, u + pad, v + pad);
    assert u == (u + pad)[..|u|] && v == (v + pad)[..|v|];
  }

  /** No error confined to a window of sixteen bits, wherever it lies in a message of whatever length, leaves the CRC
      as it was. */
  lemma BurstDetected(r: Register, before: seq<bool>, u: seq<bool>, v: seq<bool>, after: seq<bool>)
    requires |u| == |v| <= 16
    ensures FeedBits(r, before + u + after) == FeedBits(r, before + v + after) <==> u == v
  {
    hide FeedBits;
    var s := FeedBits(r, before);
    FeedBitsJoin(r, before, u);
    FeedBitsJoin(r, before, v);
    FeedBitsJoin(r, before + u, after);
    FeedBitsJoin(r, before + v, after);
    if FeedBits(r, before + u + after) == FeedBits(r, before + v + after) {
      FeedBitsInjective(FeedBits(s, u), FeedBits(s, v), after);
      WindowRecovered(s, u, v);
    }
  }

  lemma MessageBitsMore(msg: seq<byte>)
    requires msg != []
    ensures MessageBits(msg) == ByteBits(msg[0]) + MessageBits(msg[1..])
  {
  }

  lemma NoMessageBits()
    ensures MessageBits([]) == []
  {
  }

  lemma {:induction false} MessageBitsJoin(a: seq<byte>, b: seq<byte>)
    ensures MessageBits(a + b) == MessageBits(a) + MessageBits(b)
  {
    hide ByteBits, MessageBits;
    if a == [] {
      NoMessageBits();
      assert a + b == b;
      assert [] + MessageBits(b) == MessageBits(b);
    } else {
      MessageBitsMore(a);
      MessageBitsMore(a + b);
      assert (a + b)[1..] == a[1..] + b;
      MessageBitsJoin(a[1..], b);
      Regroup(ByteBits(a[0]), MessageBits(a[1..]), MessageBits(b));
    }
  }

  lemma TwoByteBits(x: byte, y: byte)
    ensures MessageBits([x, y]) == ByteBits(x) + ByteBits(y)
  {
    hide ByteBits;
    assert MessageBits([x, y]) == ByteBits(x) + MessageBits([y]);
    assert MessageBits([y]) == ByteBits(y) + MessageBits([]);
  }

  /** In bytes: two messages that differ only in two adjacent bytes never have the same CRC. */
  lemma AdjacentBytesDetected(crc: bv16, before: seq<byte>, x: byte, y: byte, x': byte, y': byte, after: seq<byte>)
    ensures Crc(crc, before + [x, y] + after) == Crc(crc, before + [x', y'] + after) <==> x == x' && y == y'
  {
    hide Bits, ByteBits, Crc, FeedBits, MessageBits;
    var a, b := before + [x, y] + after, before + [x', y'] + after;
    CrcIsFeed(crc, a);
    CrcIsFeed(crc, b);
    MessageBitsJoin(before + [x, y], after);
    MessageBitsJoin(before, [x, y]);
    MessageBitsJoin(before + [x', y'], after);
    MessageBitsJoin(before, [x', y']);
    TwoByteBits(x, y);
    TwoByteBits(x', y');
    BitsInjective(Crc(crc, a), Crc(crc, b));
    BurstDetected(Bits(crc), MessageBits(before), MessageBits([x, y]), MessageBits([x', y']), MessageBits(after));
    if Crc(crc, a) == Crc(crc, b) {
      assert ByteBits(x) == (ByteBits(x) + ByteBits(y))[..8] == (ByteBits(x') + ByteBits(y'))[..8] == ByteBits(x');
      assert ByteBits(y) == (ByteBits(x) + ByteBits(y))[8..] == (ByteBits(x') + ByteBits(y'))[8..] == ByteBits(y');
      ByteBitsInjective(x, x');
      ByteBitsInjective(y, y');
    }
  }

  // The two bytes of the CRC itself

  function High(crc: bv16): byte {
    (crc >> 8) as byte
  }

  function Low(crc: bv16): byte {
    (crc & 0xff) as byte
  }

  lemma {:induction false} CrcJoin(crc: bv16, a: seq<byte>, b: seq<byte>)
    ensures Crc(crc, a + b) == Crc(Crc(crc, a), b)
    decreases a
  {
    hide Update;
    if a == [] {
      assert a + b == b;
    } else {
      CrcJoin(Update(crc, a[0]), a[1..], b);
      assert (a + b)[1..] == a[1..] + b;
    }
  }

  lemma LeftEight(r: bv16)
    ensures Left(r, 8) == r << 8
  {
    LeftFour(r, 4);
    LeftFour(r << 4, 0);
  }

  lemma WordInBytes(crc: bv16)
    ensures crc << 8 == Widen(Low(crc))
    ensures crc == Widen(High(crc)) ^ Low(crc) as bv16
  {
  }

  lemma LowBitsBelow(b: byte)
    ensures TopBits(b as bv16, 8) == Zeros(8)
  {
    var r := b as bv16;
    TopBitsStep(r, 8);
    TopBitsStep(r << 1, 7);
    TopBitsStep((r << 1) << 1, 6);
    TopBitsStep(((r << 1) << 1) << 1, 5);
    TopBitsStep((((r << 1) << 1) << 1) << 1, 4);
    TopBitsStep(((((r << 1) << 1) << 1) << 1) << 1, 3);
    TopBitsStep((((((r << 1) << 1) << 1) << 1) << 1) << 1, 2);
    TopBitsStep(((((((r << 1) << 1) << 1) << 1) << 1) << 1) << 1, 1);
  }

  lemma WordBits(crc: bv16)
    ensures MessageBits([High(crc), Low(crc)]) == Bits(crc)
  {
    hide Top, TopBits, Left, High, Low, MessageBits;
    TwoByteBits(High(crc), Low(crc));
    TopBitsSplit(crc, 8, 8);
    LeftEight(crc);
    WordInBytes(crc);
    TopBitsXor(Widen(High(crc)), Low(crc) as bv16, 8);
    LowBitsBelow(Low(crc));
    assert XorBits(ByteBits(High(crc)), Zeros(8)) == ByteBits(High(crc));
  }

  lemma {:induction false} ZerosStay(n: nat)
    ensures ShiftRegisters(Zeros(16), n) == Zeros(16)
  {
    if n > 0 {
      assert ShiftRegister(Zeros(16)) == Zeros(16);
      ZerosStay(n - 1);
    }
  }

  lemma FeedItself(r: Register)
    ensures FeedBits(r, r) == Zeros(16)
  {
    hide FeedBits, ShiftRegisters;
    ShiftsFeed(r, r, []);
    assert r + [] == r && [] + Zeros(16) == Zeros(16);
    assert XorBits(r, r) == Zeros(16);
    ZerosStay(16);
    XorZeros(FeedBits(r, r));
  }

  /** A message followed by two bytes leaves the register at zero exactly when they are its CRC, high byte first. */
  lemma ResidueIsZero(msg: seq<byte>, crc: bv16)
    ensures Crc(0, msg + [High(crc), Low(crc)]) == 0 <==> crc == Crc(0, msg)
  {
    hide Bits, FeedBits, Crc, High, Low, MessageBits;
    var c, tail := Crc(0, msg), [High(crc), Low(crc)];
    CrcJoin(0, msg, tail);
    CrcIsFeed(c, tail);
    WordBits(crc);
    FeedItself(Bits(c));
    ZeroBits();
    BitsInjective(Crc(c, tail), 0);
    BitsInjective(crc, c);
    if Crc(c, tail) == 0 {
      WindowRecovered(Bits(c), Bits(crc), Bits(c));
    }
  }

  // The 8-bit checksum

  function Sum(cksum: byte, msg: seq<byte>): byte
    decreases msg
  {
    if msg == [] then cksum else Sum(cksum + msg[0], msg[1..])
  }

  function Value(b: byte): nat {
    b as nat
  }

  /** The bytes added up. */
  function TotalOf(msg: seq<byte>): nat {
    if msg == [] then 0 else Value(msg[0]) + TotalOf(msg[1..])
  }

  /** The checksum is the sum of the bytes modulo 256. */
  lemma {:induction false} SumIsModulo(cksum: byte, msg: seq<byte>)
    ensures Value(Sum(cksum, msg)) == (Value(cksum) + TotalOf(msg)) % 256
    decreases |msg|
  {
    hide Plus, Sum, Value;
    SumUnfolds(cksum, msg);
    if msg == [] {
      SmallValue(cksum);
    } else {
      SumIsModulo(Plus(cksum, msg[0]), msg[1..]);
      PlusIsModulo(cksum, msg[0], Value(msg[0]));
      ModuloAdds(Value(cksum) + Value(msg[0]), TotalOf(msg[1..]));
    }
  }

  /** Eight-bit addition. */
  function Plus(a: byte, b: byte): byte {
    a + b
  }

  lemma SumUnfolds(cksum: byte, msg: seq<byte>)
    ensures Sum(cksum, msg) == if msg == [] then cksum else Sum(Plus(cksum, msg[0]), msg[1..])
  {
  }

  lemma SmallValue(b: byte)
    ensures Value(b) < 256
  {
  }

  lemma OneMore(b: byte)
    ensures Value(Plus(b, 1)) == (Value(b) + 1) % 256
  {
    if b == 255 {
      assert Plus(b, 1) == 0;
    } else {
      assert b < Plus(b, 1);
      assert Plus(b, 1) as nat == b as nat + 1;
    }
  }

  lemma OneLess(a: byte, b: byte) returns (c: byte)
    requires Value(b) != 0
    ensures Plus(c, 1) == b && Plus(Plus(a, c), 1) == Plus(a, b) && Value(c) < 255
  {
    c := b - 1;
    assert c != 255;
  }

  lemma PlusNothing(a: byte, b: byte)
    requires Value(b) == 0
    ensures Plus(a, b) == a
  {
    assert b == 0;
  }

  lemma {:induction false} PlusIsModulo(a: byte, b: byte, n: nat)
    requires n == Value(b)
    ensures Value(Plus(a, b)) == (Value(a) + n) % 256
    decreases n
  {
    hide Plus, Value;
    if n == 0 {
      PlusNothing(a, b);
      SmallValue(a);
    } else {
      var c := OneLess(a, b);
      OneMore(c);
      PlusIsModulo(a, c, n - 1);
      OneMore(Plus(a, c));
      ModuloAdds(Value(a) + (n - 1), 1);
    }
  }

  lemma ModuloAdds(m: nat, n: nat)
    ensures (m % 256 + n) % 256 == (m + n) % 256
  {
  }

  /** xmodem_chksum on a packet: size payload bytes followed by the check bytes. */
  function Checks(crcflag: bool, packet: seq<byte>, size: nat): bool
    requires size + (if crcflag then 2 else 1) <= |packet|
  {
    if crcflag then Crc(0, packet[..size]) == Word(packet[size], packet[size + 1])
    else Sum(0, packet[..size]) == packet[size]
  }

  function Word(hi: byte, lo: byte): bv16 {
    ((hi as bv16) << 8) + lo as bv16
  }

  lemma WordOfBytes(crc: bv16)
    ensures Word(High(crc), Low(crc)) == crc
  {
  }

  method XmodemChksum(crcflag: int, buffer: array<byte>, off: nat, size: nat) returns (ok: int)
    requires off + size + (if crcflag != 0 then 2 else 1) <= buffer.Length
    ensures ok == if Checks(crcflag != 0, buffer[off..], size) then 1 else 0
  {
    hide Word, Update;
    ghost var packet := buffer[off..];
    assert packet[..size] == buffer[off..off + size];
    if crcflag != 0 {
      var crc: bv16 := 0;
      var pktcrc := Word(buffer[off + size], buffer[off + size + 1]);
      var left, p := size, off;
      while left > 0
        invariant left + p == size + off && off <= p
        invariant Crc(crc, buffer[p..off + size]) == Crc(0, packet[..size])
      {
        left := left - 1;
        assert buffer[p..off + size][1..] == buffer[p + 1..off + size];
        crc := CrcXmodemUpdate(crc, buffer[p]);
        p := p + 1;
      }
      assert buffer[p..off + size] == [];
      if crc == pktcrc {
        return 1;
      }
    } else {
      var cksum: byte := 0;
      for i := 0 to size
        invariant Sum(cksum, buffer[off + i..off + size]) == Sum(0, packet[..size])
      {
        assert buffer[off + i..off + size][1..] == buffer[off + i + 1..off + size];
        cksum := cksum + buffer[off + i];
      }
      assert buffer[off + size..off + size] == [] && packet[size] == buffer[off + size];
      if cksum == buffer[off + size] {
        return 1;
      }
    }
    return 0;
  }
}
