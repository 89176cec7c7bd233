/** The block cipher of src/lib/algo/aes.c, working in place on sixteen bytes of a buffer.

    A pointer into a buffer is an array and an offset. Every step is proved to do to its sixteen bytes what the
    transformation of the same name in AesSpec says, and to leave the rest of the buffer alone. */
module Aes {
  import opened Gf256
  import opened AesSpec
  import AesKeys
  import SBox

  /** Nothing outside the block at off has changed. */
  twostate predicate OnlyBlock(state: array<byte>, off: nat)
    reads state
  {
    forall k :: 0 <= k < state.Length && (k < off || off + 16 <= k) ==> state[k] == old(state[k])
  }

  function BlockAt(a: array<byte>, off: nat): Block
    requires off + 16 <= a.Length
    reads a
  {
    a[off..off + 16]
  }

  /** (*state)[n / 4][n % 4] */
  function Get(state: array<byte>, off: nat, n: nat): (v: byte)
    requires off + 16 <= state.Length && n < 16
    reads state
    ensures v == BlockAt(state, off)[n]
  {
    state[off + n]
  }

  /** (*state)[n / 4][n % 4] = v */
  method Put(state: array<byte>, off: nat, n: nat, v: byte)
    requires off + 16 <= state.Length && n < 16
    modifies state
    ensures BlockAt(state, off) == old(BlockAt(state, off))[n := v]
    ensures OnlyBlock(state, off)
  {
    state[off + n] := v;
  }

  method AddRoundKey(round: nat, state: array<byte>, off: nat, roundKey: array<byte>)
    requires round <= ROUNDS && off + 16 <= state.Length
    requires roundKey.Length == SCHEDULE_LENGTH && roundKey != state
    modifies state
    ensures forall k :: off <= k < off + 16 ==> state[k] == old(state[k]) ^ roundKey[16 * round + k - off]
    ensures BlockAt(state, off) == AesSpec.AddRoundKey(old(BlockAt(state, off)), roundKey[..], round)
    ensures OnlyBlock(state, off)
  {
    ghost var was, target := BlockAt(state, off), AesSpec.AddRoundKey(BlockAt(state, off), roundKey[..], round);
    for i := 0 to 4
      invariant OnlyBlock(state, off)
      invariant forall k :: 0 <= k < 16 ==> BlockAt(state, off)[k] == if k < 4 * i then target[k] else was[k]
    {
      for j := 0 to 4
        invariant OnlyBlock(state, off)
        invariant forall k :: 0 <= k < 16 ==> BlockAt(state, off)[k] == if k < 4 * i + j then target[k] else was[k]
      {
        Put(state, off, 4 * i + j, Get(state, off, 4 * i + j) ^ roundKey[round * 4 * 4 + i * 4 + j]);
      }
    }
    forall k | off <= k < off + 16 ensures state[k] == old(state[k]) ^ roundKey[16 * round + k - off] {
      assert state[k] == BlockAt(state, off)[k - off] == target[k - off];
      assert old(state[k]) == was[k - off];
    }
  }

  method SubBytes(state: array<byte>, off: nat)
    requires off + 16 <= state.Length
    modifies state
    ensures BlockAt(state, off) == AesSpec.SubBytes(old(BlockAt(state, off)))
    ensures OnlyBlock(state, off)
  {
    hide SBox.Sub;
    ghost var was, target := BlockAt(state, off), AesSpec.SubBytes(BlockAt(state, off));
    for i := 0 to 4
      invariant OnlyBlock(state, off)
      invariant forall k :: 0 <= k < 16 ==> BlockAt(state, off)[k] == if k % 4 < i then target[k] else was[k]
    {
      for j := 0 to 4
        invariant OnlyBlock(state, off)
        invariant forall k :: 0 <= k < 16 ==>
          BlockAt(state, off)[k] == if k % 4 < i || (k % 4 == i && k < 4 * j) then target[k] else was[k]
      {
        Put(state, off, 4 * j + i, SBox.Sub(Get(state, off, 4 * j + i)));
      }
    }
  }

  ghost function SecondRowLeft(s: Block): Block {
    s[1 := s[5]][5 := s[9]][9 := s[13]][13 := s[1]]
  }

  ghost function ThirdRowLeft(s: Block): Block {
    s[2 := s[10]][10 := s[2]][6 := s[14]][14 := s[6]]
  }

  ghost function FourthRowLeft(s: Block): Block {
    s[3 := s[15]][15 := s[11]][11 := s[7]][7 := s[3]]
  }

  /** The second row, one column to the left. */
  method RotateSecondRowLeft(state: array<byte>, off: nat)
    requires off + 16 <= state.Length
    modifies state
    ensures BlockAt(state, off) == SecondRowLeft(old(BlockAt(state, off)))
    ensures OnlyBlock(state, off)
  {
    hide BlockAt;
    var temp := Get(state, off, 1);
    Put(state, off, 1, Get(state, off, 5));
    Put(state, off, 5, Get(state, off, 9));
    Put(state, off, 9, Get(state, off, 13));
    Put(state, off, 13, temp);
  }

  /** The third row, two columns. */
  method RotateThirdRowLeft(state: array<byte>, off: nat)
    requires off + 16 <= state.Length
    modifies state
    ensures BlockAt(state, off) == ThirdRowLeft(old(BlockAt(state, off)))
    ensures OnlyBlock(state, off)
  {
    hide BlockAt;
    var temp := Get(state, off, 2);
    Put(state, off, 2, Get(state, off, 10));
    Put(state, off, 10, temp);

    temp := Get(state, off, 6);
    Put(state, off, 6, Get(state, off, 14));
    Put(state, off, 14, temp);
  }

  /** The fourth row, three columns. */
  method RotateFourthRowLeft(state: array<byte>, off: nat)
    requires off + 16 <= state.Length
    modifies state
    ensures BlockAt(state, off) == FourthRowLeft(old(BlockAt(state, off)))
    ensures OnlyBlock(state, off)
  {
    hide BlockAt;
    var temp := Get(state, off, 3);
    Put(state, off, 3, Get(state, off, 15));
    Put(state, off, 15, Get(state, off, 11));
    Put(state, off, 11, Get(state, off, 7));
    Put(state, off, 7, temp);
  }

  lemma SecondRowLeftTable(s: Block)
    ensures SecondRowLeft(s) == [s[0], s[5], s[2], s[3], s[4], s[9], s[6], s[7],
                                 s[8], s[13], s[10], s[11], s[12], s[1], s[14], s[15]]
  {
  }

  lemma ThirdRowLeftTable(s: Block)
    ensures ThirdRowLeft(s) == [s[0], s[1], s[10], s[3], s[4], s[5], s[14], s[7],
                                s[8], s[9], s[2], s[11], s[12], s[13], s[6], s[15]]
  {
  }

  lemma FourthRowLeftTable(s: Block)
    ensures FourthRowLeft(s) == [s[0], s[1], s[2], s[15], s[4], s[5], s[6], s[3],
                                 s[8], s[9], s[10], s[7], s[12], s[13], s[14], s[11]]
  {
  }

  lemma RowsShifted(s: Block)
    ensures FourthRowLeft(ThirdRowLeft(SecondRowLeft(s))) == AesSpec.ShiftRows(s)
  {
    SecondRowLeftTable(s);
    ThirdRowLeftTable(SecondRowLeft(s));
    FourthRowLeftTable(ThirdRowLeft(SecondRowLeft(s)));
    AesSpec.ShiftRowsTable(s);
    hide SecondRowLeft, ThirdRowLeft, FourthRowLeft, AesSpec.ShiftRows;
  }

  method ShiftRows(state: array<byte>, off: nat)
    requires off + 16 <= state.Length
    modifies state
    ensures BlockAt(state, off) == AesSpec.ShiftRows(old(BlockAt(state, off)))
    ensures OnlyBlock(state, off)
  {
    hide BlockAt, AesSpec.ShiftRows, SecondRowLeft, ThirdRowLeft, FourthRowLeft;
    ghost var s := BlockAt(state, off);
    RotateSecondRowLeft(state, off);
    RotateThirdRowLeft(state, off);
    RotateFourthRowLeft(state, off);
    RowsShifted(s);
  }

  /** Tm = x ^ next; Tm = xtime(Tm); x ^ (Tm ^ Tmp) */
  function Mixed(x: byte, next: byte, Tmp: byte): byte {
    var Tm := Xtime(x ^ next);
    x ^ (Tm ^ Tmp)
  }

  lemma MixedByte(a: byte, b: byte, c: byte, d: byte, tmp: byte)
    requires tmp == a ^ b ^ c ^ d
    ensures Mixed(a, b, tmp) == Sum4(GMul(a, 2), GMul(b, 3), GMul(c, 1), GMul(d, 1))
  {
    hide Xtime, GMul, Sum4, Add;
    AsXtime(a);
    AsXtime(b);
    AsXtime(c);
    AsXtime(d);
    AddIsXor(a, b);
    XtimeLinear(a, b);
    AddIsXor(Xtime(a), Xtime(b));
    AddIsXor(Xtime(b), b);
    MixedByteSum(a, b, c, d, Xtime(a), Xtime(b));
  }

  lemma MixedByteSum(a: byte, b: byte, c: byte, d: byte, xa: byte, xb: byte)
    ensures a ^ ((xa ^ xb) ^ (a ^ b ^ c ^ d)) == Sum4(xa, xb ^ b, c, d)
  {
  }

  lemma ColumnIndices(i: nat)
    requires i < 4
    ensures Below(4 * i, 1) == 4 * i + 1 && Below(4 * i, 2) == 4 * i + 2 && Below(4 * i, 3) == 4 * i + 3
    ensures Below(4 * i + 1, 1) == 4 * i + 2 && Below(4 * i + 1, 2) == 4 * i + 3 && Below(4 * i + 1, 3) == 4 * i
    ensures Below(4 * i + 2, 1) == 4 * i + 3 && Below(4 * i + 2, 2) == 4 * i && Below(4 * i + 2, 3) == 4 * i + 1
    ensures Below(4 * i + 3, 1) == 4 * i && Below(4 * i + 3, 2) == 4 * i + 1 && Below(4 * i + 3, 3) == 4 * i + 2
  {
  }

  /** The four bytes the Tmp/Tm form computes for column i are those of the matrix product. */
  lemma MixedColumn(s: Block, i: nat, a: byte, b: byte, c: byte, d: byte, tmp: byte)
    requires i < 4 && a == s[4 * i] && b == s[4 * i + 1] && c == s[4 * i + 2] && d == s[4 * i + 3]
    requires tmp == a ^ b ^ c ^ d
    ensures Mixed(a, b, tmp) == AesSpec.MixColumns(s)[4 * i]
    ensures Mixed(b, c, tmp) == AesSpec.MixColumns(s)[4 * i + 1]
    ensures Mixed(c, d, tmp) == AesSpec.MixColumns(s)[4 * i + 2]
    ensures Mixed(d, a, tmp) == AesSpec.MixColumns(s)[4 * i + 3]
  {
    hide Mixed, GMul, Sum4, Below;
    ColumnIndices(i);
    MixedByte(a, b, c, d, tmp);
    MixedByte(b, c, d, a, tmp);
    MixedByte(c, d, a, b, tmp);
    MixedByte(d, a, b, c, tmp);
  }

  lemma XorRotate(a: byte, b: byte, c: byte, d: byte)
    ensures a ^ b ^ c ^ d == b ^ c ^ d ^ a
  {
  }

  method MixColumns(state: array<byte>, off: nat)
    requires off + 16 <= state.Length
    modifies state
    ensures BlockAt(state, off) == AesSpec.MixColumns(old(BlockAt(state, off)))
    ensures OnlyBlock(state, off)
  {
    hide BlockAt, AesSpec.MixColumns, Mixed;
    ghost var was, target := BlockAt(state, off), AesSpec.MixColumns(BlockAt(state, off));
    for i := 0 to 4
      invariant OnlyBlock(state, off)
      invariant forall k :: 0 <= k < 16 ==> BlockAt(state, off)[k] == if k < 4 * i then target[k] else was[k]
    {
      var t := Get(state, off, 4 * i);
      var Tmp := Get(state, off, 4 * i) ^ Get(state, off, 4 * i + 1) ^ Get(state, off, 4 * i + 2) ^
                 Get(state, off, 4 * i + 3);
      MixedColumn(was, i, was[4 * i], was[4 * i + 1], was[4 * i + 2], was[4 * i + 3], Tmp);
      Put(state, off, 4 * i, Mixed(Get(state, off, 4 * i), Get(state, off, 4 * i + 1), Tmp));
      Put(state, off, 4 * i + 1, Mixed(Get(state, off, 4 * i + 1), Get(state, off, 4 * i + 2), Tmp));
      Put(state, off, 4 * i + 2, Mixed(Get(state, off, 4 * i + 2), Get(state, off, 4 * i + 3), Tmp));
      Put(state, off, 4 * i + 3, Mixed(Get(state, off, 4 * i + 3), t, Tmp));
    }
  }

  method InvSubBytes(state: array<byte>, off: nat)
    requires off + 16 <= state.Length
    modifies state
    ensures BlockAt(state, off) == AesSpec.InvSubBytes(old(BlockAt(state, off)))
    ensures OnlyBlock(state, off)
  {
    hide SBox.InvSub;
    ghost var was, target := BlockAt(state, off), AesSpec.InvSubBytes(BlockAt(state, off));
    for i := 0 to 4
      invariant OnlyBlock(state, off)
      invariant forall k :: 0 <= k < 16 ==> BlockAt(state, off)[k] == if k % 4 < i then target[k] else was[k]
    {
      for j := 0 to 4
        invariant OnlyBlock(state, off)
        invariant forall k :: 0 <= k < 16 ==>
          BlockAt(state, off)[k] == if k % 4 < i || (k % 4 == i && k < 4 * j) then target[k] else was[k]
      {
        Put(state, off, 4 * j + i, SBox.InvSub(Get(state, off, 4 * j + i)));
      }
    }
  }

  /** What Multiply adds up to for one row is the matrix product's byte. */
  lemma UnmixedByte(a: byte, b: byte, c: byte, d: byte)
    ensures Multiply(a, 0x0e) ^ Multiply(b, 0x0b) ^ Multiply(c, 0x0d) ^ Multiply(d, 0x09) ==
            Sum4(GMul(a, 0x0e), GMul(b, 0x0b), GMul(c, 0x0d), GMul(d, 0x09))
  {
    hide *;
    MultiplyLow(a, 0x0e);
    MultiplyLow(b, 0x0b);
    MultiplyLow(c, 0x0d);
    MultiplyLow(d, 0x09);
    SumIsXor(GMul(a, 0x0e), GMul(b, 0x0b), GMul(c, 0x0d), GMul(d, 0x09));
  }

  lemma SumIsXor(a: byte, b: byte, c: byte, d: byte)
    ensures a ^ b ^ c ^ d == Sum4(a, b, c, d)
  {
  }

  lemma UnmixedColumn(s: Block, i: nat, a: byte, b: byte, c: byte, d: byte)
    requires i < 4 && a == s[4 * i] && b == s[4 * i + 1] && c == s[4 * i + 2] && d == s[4 * i + 3]
    ensures var t := AesSpec.InvMixColumns(s);
      Multiply(a, 0x0e) ^ Multiply(b, 0x0b) ^ Multiply(c, 0x0d) ^ Multiply(d, 0x09) == t[4 * i] &&
      Multiply(a, 0x09) ^ Multiply(b, 0x0e) ^ Multiply(c, 0x0b) ^ Multiply(d, 0x0d) == t[4 * i + 1] &&
      Multiply(a, 0x0d) ^ Multiply(b, 0x09) ^ Multiply(c, 0x0e) ^ Multiply(d, 0x0b) == t[4 * i + 2] &&
      Multiply(a, 0x0b) ^ Multiply(b, 0x0d) ^ Multiply(c, 0x09) ^ Multiply(d, 0x0e) == t[4 * i + 3]
  {
    hide Multiply, GMul, Sum4, Below;
    ColumnIndices(i);
    UnmixedByte(a, b, c, d);
    UnmixedByte(b, c, d, a);
    UnmixedByte(c, d, a, b);
    UnmixedByte(d, a, b, c);
    XorRotate(Multiply(a, 0x09), Multiply(b, 0x0e), Multiply(c, 0x0b), Multiply(d, 0x0d));
    XorRotate(Multiply(a, 0x0d), Multiply(b, 0x09), Multiply(c, 0x0e), Multiply(d, 0x0b));
    XorRotate(Multiply(b, 0x09), Multiply(c, 0x0e), Multiply(d, 0x0b), Multiply(a, 0x0d));
    XorRotate(Multiply(d, 0x0e), Multiply(a, 0x0b), Multiply(b, 0x0d), Multiply(c, 0x09));
  }

  method InvMixColumns(state: array<byte>, off: nat)
    requires off + 16 <= state.Length
    modifies state
    ensures BlockAt(state, off) == AesSpec.InvMixColumns(old(BlockAt(state, off)))
    ensures OnlyBlock(state, off)
  {
    hide BlockAt, AesSpec.InvMixColumns, Multiply;
    ghost var was, target := BlockAt(state, off), AesSpec.InvMixColumns(BlockAt(state, off));
    for i := 0 to 4
      invariant OnlyBlock(state, off)
      invariant forall k :: 0 <= k < 16 ==> BlockAt(state, off)[k] == if k < 4 * i then target[k] else was[k]
    {
      var a := Get(state, off, 4 * i);
      var b := Get(state, off, 4 * i + 1);
      var c := Get(state, off, 4 * i + 2);
      var d := Get(state, off, 4 * i + 3);
      UnmixedColumn(was, i, a, b, c, d);
      Put(state, off, 4 * i, Multiply(a, 0x0e) ^ Multiply(b, 0x0b) ^ Multiply(c, 0x0d) ^ Multiply(d, 0x09));
      Put(state, off, 4 * i + 1, Multiply(a, 0x09) ^ Multiply(b, 0x0e) ^ Multiply(c, 0x0b) ^ Multiply(d, 0x0d));
      Put(state, off, 4 * i + 2, Multiply(a, 0x0d) ^ Multiply(b, 0x09) ^ Multiply(c, 0x0e) ^ Multiply(d, 0x0b));
      Put(state, off, 4 * i + 3, Multiply(a, 0x0b) ^ Multiply(b, 0x0d) ^ Multiply(c, 0x09) ^ Multiply(d, 0x0e));
    }
  }

  ghost function SecondRowRight(s: Block): Block {
    s[1 := s[13]][13 := s[9]][9 := s[5]][5 := s[1]]
  }

  ghost function ThirdRowRight(s: Block): Block {
    s[2 := s[10]][10 := s[2]][6 := s[14]][14 := s[6]]
  }

  ghost function FourthRowRight(s: Block): Block {
    s[3 := s[7]][7 := s[11]][11 := s[15]][15 := s[3]]
  }

  /** The second row, one column to the right. */
  method RotateSecondRowRight(state: array<byte>, off: nat)
    requires off + 16 <= state.Length
    modifies state
    ensures BlockAt(state, off) == SecondRowRight(old(BlockAt(state, off)))
    ensures OnlyBlock(state, off)
  {
    hide BlockAt;
    var temp := Get(state, off, 13);
    Put(state, off, 13, Get(state, off, 9));
    Put(state, off, 9, Get(state, off, 5));
    Put(state, off, 5, Get(state, off, 1));
    Put(state, off, 1, temp);
  }

  /** The third row, two columns. */
  method RotateThirdRowRight(state: array<byte>, off: nat)
    requires off + 16 <= state.Length
    modifies state
    ensures BlockAt(state, off) == ThirdRowRight(old(BlockAt(state, off)))
    ensures OnlyBlock(state, off)
  {
    hide BlockAt;
    var temp := Get(state, off, 2);
    Put(state, off, 2, Get(state, off, 10));
    Put(state, off, 10, temp);

    temp := Get(state, off, 6);
    Put(state, off, 6, Get(state, off, 14));
    Put(state, off, 14, temp);
  }

  /** The fourth row, three columns. */
  method RotateFourthRowRight(state: array<byte>, off: nat)
    requires off + 16 <= state.Length
    modifies state
    ensures BlockAt(state, off) == FourthRowRight(old(BlockAt(state, off)))
    ensures OnlyBlock(state, off)
  {
    hide BlockAt;
    var temp := Get(state, off, 3);
    Put(state, off, 3, Get(state, off, 7));
    Put(state, off, 7, Get(state, off, 11));
    Put(state, off, 11, Get(state, off, 15));
    Put(state, off, 15, temp);
  }

  lemma SecondRowRightTable(s: Block)
    ensures SecondRowRight(s) == [s[0], s[13], s[2], s[3], s[4], s[1], s[6], s[7],
                                  s[8], s[5], s[10], s[11], s[12], s[9], s[14], s[15]]
  {
  }

  lemma ThirdRowRightTable(s: Block)
    ensures ThirdRowRight(s) == [s[0], s[1], s[10], s[3], s[4], s[5], s[14], s[7],
                                 s[8], s[9], s[2], s[11], s[12], s[13], s[6], s[15]]
  {
  }

  lemma FourthRowRightTable(s: Block)
    ensures FourthRowRight(s) == [s[0], s[1], s[2], s[7], s[4], s[5], s[6], s[11],
                                  s[8], s[9], s[10], s[15], s[12], s[13], s[14], s[3]]
  {
  }

  lemma RowsUnshifted(s: Block)
    ensures FourthRowRight(ThirdRowRight(SecondRowRight(s))) == AesSpec.InvShiftRows(s)
  {
    SecondRowRightTable(s);
    ThirdRowRightTable(SecondRowRight(s));
    FourthRowRightTable(ThirdRowRight(SecondRowRight(s)));
    AesSpec.InvShiftRowsTable(s);
    hide SecondRowRight, ThirdRowRight, FourthRowRight, AesSpec.InvShiftRows;
  }

  method InvShiftRows(state: array<byte>, off: nat)
    requires off + 16 <= state.Length
    modifies state
    ensures BlockAt(state, off) == AesSpec.InvShiftRows(old(BlockAt(state, off)))
    ensures OnlyBlock(state, off)
  {
    hide BlockAt, AesSpec.InvShiftRows, SecondRowRight, ThirdRowRight, FourthRowRight;
    RowsUnshifted(BlockAt(state, off));
    RotateSecondRowRight(state, off);
    RotateThirdRowRight(state, off);
    RotateFourthRowRight(state, off);
  }

  method Cipher(state: array<byte>, off: nat, roundKey: array<byte>)
    requires off + 16 <= state.Length
    requires roundKey.Length == SCHEDULE_LENGTH && roundKey != state
    modifies state
    ensures BlockAt(state, off) == AesSpec.Cipher(old(BlockAt(state, off)), roundKey[..])
    ensures OnlyBlock(state, off)
  {
    hide BlockAt, AesSpec.AddRoundKey, AesSpec.SubBytes, AesSpec.ShiftRows, AesSpec.MixColumns;
    ghost var s, w := BlockAt(state, off), roundKey[..];
    AddRoundKey(0, state, off, roundKey);
    var round := 1;
    while true
      invariant 1 <= round <= ROUNDS && OnlyBlock(state, off)
      invariant BlockAt(state, off) == EncryptRounds(s, w, round - 1)
      decreases ROUNDS - round
    {
      SubBytes(state, off);
      ShiftRows(state, off);
      if round == ROUNDS {
        break;
      }
      MixColumns(state, off);
      AddRoundKey(round, state, off, roundKey);
      round := round + 1;
    }
    AddRoundKey(ROUNDS, state, off, roundKey);
  }

  method InvCipher(state: array<byte>, off: nat, roundKey: array<byte>)
    requires off + 16 <= state.Length
    requires roundKey.Length == SCHEDULE_LENGTH && roundKey != state
    modifies state
    ensures BlockAt(state, off) == AesSpec.InvCipher(old(BlockAt(state, off)), roundKey[..])
    ensures OnlyBlock(state, off)
  {
    hide BlockAt, AesSpec.AddRoundKey, AesSpec.InvSubBytes, AesSpec.InvShiftRows, AesSpec.InvMixColumns;
    ghost var s, w := BlockAt(state, off), roundKey[..];
    AddRoundKey(ROUNDS, state, off, roundKey);
    var round := ROUNDS - 1;
    while true
      invariant 0 <= round < ROUNDS && OnlyBlock(state, off)
      invariant BlockAt(state, off) == DecryptRounds(s, w, round + 1)
      decreases round
    {
      InvShiftRows(state, off);
      InvSubBytes(state, off);
      AddRoundKey(round, state, off, roundKey);
      if round == 0 {
        break;
      }
      InvMixColumns(state, off);
      round := round - 1;
    }
  }

  /** tempa, as the second loop of KeyExpansion computes it for word i. */
  method WordToAdd(roundKey: array<byte>, i: nat) returns (t0: byte, t1: byte, t2: byte, t3: byte)
    requires roundKey.Length == SCHEDULE_LENGTH && 4 <= i < 4 * (ROUNDS + 1)
    ensures t0 == AesKeys.Temp(roundKey[..], 4 * i) && t1 == AesKeys.Temp(roundKey[..], 4 * i + 1)
    ensures t2 == AesKeys.Temp(roundKey[..], 4 * i + 2) && t3 == AesKeys.Temp(roundKey[..], 4 * i + 3)
  {
    hide SBox.Sub, AesKeys.Rcon, AesKeys.Temp;
    var k := (i - 1) * 4;
    t0, t1, t2, t3 := roundKey[k + 0], roundKey[k + 1], roundKey[k + 2], roundKey[k + 3];
    if i % 4 == 0 {
      // RotWord, SubWord, round constant
      t0, t1, t2, t3 := t1, t2, t3, t0;
      t0, t1, t2, t3 := SBox.Sub(t0), SBox.Sub(t1), SBox.Sub(t2), SBox.Sub(t3);
      t0 := t0 ^ AesKeys.Rcon(i / 4);
    }
    AesKeys.TempWord(roundKey[..], i);
  }

  method PutWord(roundKey: array<byte>, j: nat, v0: byte, v1: byte, v2: byte, v3: byte)
    requires j + 4 <= roundKey.Length
    modifies roundKey
    ensures roundKey[..] == old(roundKey[..])[j := v0][j + 1 := v1][j + 2 := v2][j + 3 := v3]
  {
    roundKey[j + 0], roundKey[j + 1], roundKey[j + 2], roundKey[j + 3] := v0, v1, v2, v3;
  }

  /** One turn of that loop. */
  method ExpandWord(roundKey: array<byte>, i: nat)
    requires roundKey.Length == SCHEDULE_LENGTH && 4 <= i < 4 * (ROUNDS + 1)
    requires AesKeys.Recurrence(roundKey[..], 4 * i)
    modifies roundKey
    ensures AesKeys.Recurrence(roundKey[..], 4 * i + 4)
    ensures roundKey[..4 * i] == old(roundKey[..4 * i])
  {
    hide AesKeys.Temp, AesKeys.Recurrence;
    ghost var w := roundKey[..];
    var t0, t1, t2, t3 := WordToAdd(roundKey, i);
    var j := i * 4;
    var k := (i - 4) * 4;
    PutWord(roundKey, j, roundKey[k + 0] ^ t0, roundKey[k + 1] ^ t1, roundKey[k + 2] ^ t2, roundKey[k + 3] ^ t3);
    ghost var w' := roundKey[..];
    assert w'[..j] == w[..j];
    AesKeys.RecurrenceExtends(w, w', j);
  }

  /** The first round key is the key itself. */
  method CopyKey(roundKey: array<byte>, key: array<byte>)
    requires roundKey.Length == SCHEDULE_LENGTH && key.Length == 16 && roundKey != key
    modifies roundKey
    ensures roundKey[..16] == key[..]
  {
    for i := 0 to 4
      invariant forall k :: 0 <= k < 4 * i ==> roundKey[k] == key[k]
    {
      roundKey[i * 4 + 0] := key[i * 4 + 0];
      roundKey[i * 4 + 1] := key[i * 4 + 1];
      roundKey[i * 4 + 2] := key[i * 4 + 2];
      roundKey[i * 4 + 3] := key[i * 4 + 3];
    }
  }

  method KeyExpansion(roundKey: array<byte>, key: array<byte>)
    requires roundKey.Length == SCHEDULE_LENGTH && key.Length == 16 && roundKey != key
    modifies roundKey
    ensures AesKeys.IsExpansion(roundKey[..], key[..])
  {
    hide AesKeys.Recurrence;
    CopyKey(roundKey, key);
    AesKeys.RecurrenceStarts(roundKey[..]);
    for i := 4 to 4 * (ROUNDS + 1)
      invariant roundKey[..16] == key[..]
      invariant AesKeys.Recurrence(roundKey[..], 4 * i)
    {
      ghost var before := roundKey[..];
      ExpandWord(roundKey, i);
      assert roundKey[..16] == roundKey[..4 * i][..16] == before[..16];
    }
  }
}
