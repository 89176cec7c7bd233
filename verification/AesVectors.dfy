/** The examples of the standards: the key schedule of appendix A.1 and the encryption of appendix B of FIPS 197, and
    the first block of section F.2.1 of SP 800-38A. Blocks are taken as four columns of four bytes. */
module AesVectors {
  import opened AesKeys
  import opened AesModes
  import opened AesSpec
  import opened Gf256
  import SBox

  datatype Column = Column(a: byte, b: byte, c: byte, d: byte)
  datatype Columns = Columns(k0: Column, k1: Column, k2: Column, k3: Column)

  function Of(s: Block): Columns {
    Columns(Column(s[0], s[1], s[2], s[3]), Column(s[4], s[5], s[6], s[7]),
            Column(s[8], s[9], s[10], s[11]), Column(s[12], s[13], s[14], s[15]))
  }

  lemma OfInjective(s: Block, t: Block)
    requires Of(s) == Of(t)
    ensures s == t
  {
  }

  function Plus(x: Column, y: Column): Column {
    Column(Add(x.a, y.a), Add(x.b, y.b), Add(x.c, y.c), Add(x.d, y.d))
  }

  function Sums(x: Columns, y: Columns): Columns {
    Columns(Plus(x.k0, y.k0), Plus(x.k1, y.k1), Plus(x.k2, y.k2), Plus(x.k3, y.k3))
  }

  // The key schedule

  function NextKey(k: Columns, c: byte): Columns {
    var last := k.k3;
    var t := Column(Add(SBox.Sub(last.b), c), SBox.Sub(last.c), SBox.Sub(last.d), SBox.Sub(last.a));
    var n0 := Plus(k.k0, t);
    var n1 := Plus(k.k1, n0);
    var n2 := Plus(k.k2, n1);
    Columns(n0, n1, n2, Plus(k.k3, n2))
  }

  function KeyColumn(w: Schedule, i: nat): Column
    requires i < 44
  {
    Column(w[4 * i], w[4 * i + 1], w[4 * i + 2], w[4 * i + 3])
  }

  lemma KeyColumns(w: Schedule, r: nat)
    requires r <= ROUNDS
    ensures Of(RoundKey(w, r)) ==
            Columns(KeyColumn(w, 4 * r), KeyColumn(w, 4 * r + 1), KeyColumn(w, 4 * r + 2), KeyColumn(w, 4 * r + 3))
  {
  }

  lemma LaterColumn(w: Schedule, i: nat)
    requires Recurrence(w, SCHEDULE_LENGTH) && 4 <= i < 44 && i % 4 != 0
    ensures KeyColumn(w, i) == Plus(KeyColumn(w, i - 4), KeyColumn(w, i - 1))
  {
    hide Temp, SBox.Sub;
    LaterWord(w, i, 0);
    LaterWord(w, i, 1);
    LaterWord(w, i, 2);
    LaterWord(w, i, 3);
  }

  lemma FirstColumn(w: Schedule, r: nat)
    requires Recurrence(w, SCHEDULE_LENGTH) && 1 <= r <= ROUNDS
    ensures var k := KeyColumn(w, 4 * r - 1);
            KeyColumn(w, 4 * r) ==
            Plus(KeyColumn(w, 4 * r - 4),
                 Column(Add(SBox.Sub(k.b), PowerOfX(r - 1)), SBox.Sub(k.c), SBox.Sub(k.d), SBox.Sub(k.a)))
  {
    hide Temp, SBox.Sub, PowerOfX;
    TempFirst(w, r);
  }

  lemma KeyFollows(w: Schedule, r: nat)
    requires Recurrence(w, SCHEDULE_LENGTH) && 1 <= r <= ROUNDS
    ensures Of(RoundKey(w, r)) == NextKey(Of(RoundKey(w, r - 1)), Rcon(r))
  {
    hide SBox.Sub, Plus, KeyColumn, Rcon, RoundKey, PowerOfX, Add, Recurrence, Of;
    RconIsPowerOfX(r);
    KeyColumns(w, r - 1);
    KeyColumns(w, r);
    FirstColumn(w, r);
    LaterColumn(w, 4 * r + 1);
    LaterColumn(w, 4 * r + 2);
    LaterColumn(w, 4 * r + 3);
    KeyParts(w, r);
  }

  lemma KeyParts(w: Schedule, r: nat)
    requires 1 <= r <= ROUNDS
    ensures 4 * (r - 1) == 4 * r - 4
  {
  }

  // The round keys of appendix A.1, the key first.

  const K0: Columns :=
    Columns(Column(0x2b, 0x7e, 0x15, 0x16), Column(0x28, 0xae, 0xd2, 0xa6),
            Column(0xab, 0xf7, 0x15, 0x88), Column(0x09, 0xcf, 0x4f, 0x3c))
  const K1: Columns :=
    Columns(Column(0xa0, 0xfa, 0xfe, 0x17), Column(0x88, 0x54, 0x2c, 0xb1),
            Column(0x23, 0xa3, 0x39, 0x39), Column(0x2a, 0x6c, 0x76, 0x05))
  const K2: Columns :=
    Columns(Column(0xf2, 0xc2, 0x95, 0xf2), Column(0x7a, 0x96, 0xb9, 0x43),
            Column(0x59, 0x35, 0x80, 0x7a), Column(0x73, 0x59, 0xf6, 0x7f))
  const K3: Columns :=
    Columns(Column(0x3d, 0x80, 0x47, 0x7d), Column(0x47, 0x16, 0xfe, 0x3e),
            Column(0x1e, 0x23, 0x7e, 0x44), Column(0x6d, 0x7a, 0x88, 0x3b))
  const K4: Columns :=
    Columns(Column(0xef, 0x44, 0xa5, 0x41), Column(0xa8, 0x52, 0x5b, 0x7f),
            Column(0xb6, 0x71, 0x25, 0x3b), Column(0xdb, 0x0b, 0xad, 0x00))
  const K5: Columns :=
    Columns(Column(0xd4, 0xd1, 0xc6, 0xf8), Column(0x7c, 0x83, 0x9d, 0x87),
            Column(0xca, 0xf2, 0xb8, 0xbc), Column(0x11, 0xf9, 0x15, 0xbc))
  const K6: Columns :=
    Columns(Column(0x6d, 0x88, 0xa3, 0x7a), Column(0x11, 0x0b, 0x3e, 0xfd),
            Column(0xdb, 0xf9, 0x86, 0x41), Column(0xca, 0x00, 0x93, 0xfd))
  const K7: Columns :=
    Columns(Column(0x4e, 0x54, 0xf7, 0x0e), Column(0x5f, 0x5f, 0xc9, 0xf3),
            Column(0x84, 0xa6, 0x4f, 0xb2), Column(0x4e, 0xa6, 0xdc, 0x4f))
  const K8: Columns :=
    Columns(Column(0xea, 0xd2, 0x73, 0x21), Column(0xb5, 0x8d, 0xba, 0xd2),
            Column(0x31, 0x2b, 0xf5, 0x60), Column(0x7f, 0x8d, 0x29, 0x2f))
  const K9: Columns :=
    Columns(Column(0xac, 0x77, 0x66, 0xf3), Column(0x19, 0xfa, 0xdc, 0x21),
            Column(0x28, 0xd1, 0x29, 0x41), Column(0x57, 0x5c, 0x00, 0x6e))
  const K10: Columns :=
    Columns(Column(0xd0, 0x14, 0xf9, 0xa8), Column(0xc9, 0xee, 0x25, 0x89),
            Column(0xe1, 0x3f, 0x0c, 0xc8), Column(0xb6, 0x63, 0x0c, 0xa6))

  lemma Key1()
    ensures NextKey(K0, 0x01) == K1
  {
  }

  lemma Key2()
    ensures NextKey(K1, 0x02) == K2
  {
  }

  lemma Key3()
    ensures NextKey(K2, 0x04) == K3
  {
  }

  lemma Key4()
    ensures NextKey(K3, 0x08) == K4
  {
  }

  lemma Key5()
    ensures NextKey(K4, 0x10) == K5
  {
  }

  lemma Key6()
    ensures NextKey(K5, 0x20) == K6
  {
  }

  lemma Key7()
    ensures NextKey(K6, 0x40) == K7
  {
  }

  lemma Key8()
    ensures NextKey(K7, 0x80) == K8
  {
  }

  lemma Key9()
    ensures NextKey(K8, 0x1b) == K9
  {
  }

  lemma Key10()
    ensures NextKey(K9, 0x36) == K10
  {
  }

  lemma Constants()
    ensures Rcon(1) == 0x01 && Rcon(2) == 0x02 && Rcon(3) == 0x04 && Rcon(4) == 0x08 && Rcon(5) == 0x10
    ensures Rcon(6) == 0x20 && Rcon(7) == 0x40 && Rcon(8) == 0x80 && Rcon(9) == 0x1b && Rcon(10) == 0x36
  {
  }

  /** The round keys of a schedule, as columns. */
  function KeyOf(w: Schedule, r: nat): Columns
    requires r <= ROUNDS
  {
    Of(RoundKey(w, r))
  }

  /** The expansion of the key in appendix A.1. */
  lemma Expanded(w: Schedule)
    requires Recurrence(w, SCHEDULE_LENGTH) && KeyOf(w, 0) == K0
    ensures KeyOf(w, 1) == K1 && KeyOf(w, 2) == K2 && KeyOf(w, 3) == K3 && KeyOf(w, 4) == K4 && KeyOf(w, 5) == K5
    ensures KeyOf(w, 6) == K6 && KeyOf(w, 7) == K7 && KeyOf(w, 8) == K8 && KeyOf(w, 9) == K9 && KeyOf(w, 10) == K10
  {
    hide NextKey, Rcon, RoundKey, Recurrence, Of, K0, K1, K2, K3, K4, K5, K6, K7, K8, K9, K10;
    Constants();
    KeyFollows(w, 1);
    Key1();
    KeyFollows(w, 2);
    Key2();
    KeyFollows(w, 3);
    Key3();
    KeyFollows(w, 4);
    Key4();
    KeyFollows(w, 5);
    Key5();
    KeyFollows(w, 6);
    Key6();
    KeyFollows(w, 7);
    Key7();
    KeyFollows(w, 8);
    Key8();
    KeyFollows(w, 9);
    Key9();
    KeyFollows(w, 10);
    Key10();
  }

  // The rounds

  /** A column of the state after SubBytes and ShiftRows: one byte of each of four columns. */
  function Diagonal(x: Column, y: Column, z: Column, u: Column): Column {
    Column(SBox.Sub(x.a), SBox.Sub(y.b), SBox.Sub(z.c), SBox.Sub(u.d))
  }

  function Shifted(s: Columns): Columns {
    Columns(Diagonal(s.k0, s.k1, s.k2, s.k3), Diagonal(s.k1, s.k2, s.k3, s.k0),
            Diagonal(s.k2, s.k3, s.k0, s.k1), Diagonal(s.k3, s.k0, s.k1, s.k2))
  }

  function MixedByte(x: byte, y: byte, z: byte, u: byte): byte {
    Add(Add(Xtime(x), Add(Xtime(y), y)), Add(z, u))
  }

  function Mixed(x: Column): Column {
    Column(MixedByte(x.a, x.b, x.c, x.d), MixedByte(x.b, x.c, x.d, x.a),
           MixedByte(x.c, x.d, x.a, x.b), MixedByte(x.d, x.a, x.b, x.c))
  }

  function AllMixed(s: Columns): Columns {
    Columns(Mixed(s.k0), Mixed(s.k1), Mixed(s.k2), Mixed(s.k3))
  }

  lemma SumsOf(s: Block, k: Block, t: Block)
    requires forall i :: 0 <= i < 16 ==> t[i] == Add(s[i], k[i])
    ensures Of(t) == Sums(Of(s), Of(k))
  {
    hide Add;
  }

  lemma AddOf(s: Block, w: Schedule, r: nat)
    requires r <= ROUNDS
    ensures Of(AddRoundKey(s, w, r)) == Sums(Of(s), Of(RoundKey(w, r)))
  {
    hide Add, AddRoundKey, RoundKey, Of, Sums;
    forall i | 0 <= i < 16 ensures AddRoundKey(s, w, r)[i] == Add(s[i], RoundKey(w, r)[i]) {
      AddedByte(s, w, r, i);
    }
    SumsOf(s, RoundKey(w, r), AddRoundKey(s, w, r));
  }

  lemma ShiftedOf(s: Block)
    ensures Of(ShiftRows(SubBytes(s))) == Shifted(Of(s))
  {
    hide SBox.Sub, ShiftRows;
    ShiftRowsTable(SubBytes(s));
  }

  lemma CirculantIs(s: Block, i: nat)
    requires i < 16
    ensures Circulant(s, 0x02, 0x03, 0x01, 0x01, i) == MixedByte(s[i], s[Below(i, 1)], s[Below(i, 2)], s[Below(i, 3)])
  {
    hide GMul, Xtime, Add, Below;
    AsXtime(s[i]);
    AsXtime(s[Below(i, 1)]);
    AsXtime(s[Below(i, 2)]);
    AsXtime(s[Below(i, 3)]);
  }

  lemma MixedOf(s: Block)
    ensures Of(MixColumns(s)) == AllMixed(Of(s))
  {
    hide Circulant, MixedByte;
    forall i | 0 <= i < 16
      ensures MixColumns(s)[i] == MixedByte(s[i], s[Below(i, 1)], s[Below(i, 2)], s[Below(i, 3)])
    {
      CirculantIs(s, i);
    }
  }

  /** A full round on columns. */
  lemma RoundOf(s: Block, w: Schedule, n: nat)
    requires 1 <= n < ROUNDS
    ensures Of(EncryptRounds(s, w, n)) == Sums(AllMixed(Shifted(Of(EncryptRounds(s, w, n - 1)))), Of(RoundKey(w, n)))
  {
    hide Of, AddRoundKey, MixColumns, ShiftRows, SubBytes, Sums, AllMixed, Shifted, RoundKey;
    var before := EncryptRounds(s, w, n - 1);
    ShiftedOf(before);
    MixedOf(ShiftRows(SubBytes(before)));
    AddOf(MixColumns(ShiftRows(SubBytes(before))), w, n);
  }

  lemma LastRoundOf(s: Block, w: Schedule)
    ensures Of(Cipher(s, w)) == Sums(Shifted(Of(EncryptRounds(s, w, ROUNDS - 1))), Of(RoundKey(w, ROUNDS)))
  {
    hide Of, AddRoundKey, ShiftRows, SubBytes, Sums, Shifted, RoundKey, EncryptRounds;
    var before := EncryptRounds(s, w, ROUNDS - 1);
    ShiftedOf(before);
    AddOf(ShiftRows(SubBytes(before)), w, ROUNDS);
  }

  // The states of appendix B after each addition of a round key.

  const S0: Columns :=
    Columns(Column(0x19, 0x3d, 0xe3, 0xbe), Column(0xa0, 0xf4, 0xe2, 0x2b),
            Column(0x9a, 0xc6, 0x8d, 0x2a), Column(0xe9, 0xf8, 0x48, 0x08))
  const S1: Columns :=
    Columns(Column(0xa4, 0x9c, 0x7f, 0xf2), Column(0x68, 0x9f, 0x35, 0x2b),
            Column(0x6b, 0x5b, 0xea, 0x43), Column(0x02, 0x6a, 0x50, 0x49))
  const S2: Columns :=
    Columns(Column(0xaa, 0x8f, 0x5f, 0x03), Column(0x61, 0xdd, 0xe3, 0xef),
            Column(0x82, 0xd2, 0x4a, 0xd2), Column(0x68, 0x32, 0x46, 0x9a))
  const S3: Columns :=
    Columns(Column(0x48, 0x6c, 0x4e, 0xee), Column(0x67, 0x1d, 0x9d, 0x0d),
            Column(0x4d, 0xe3, 0xb1, 0x38), Column(0xd6, 0x5f, 0x58, 0xe7))
  const S4: Columns :=
    Columns(Column(0xe0, 0x92, 0x7f, 0xe8), Column(0xc8, 0x63, 0x63, 0xc0),
            Column(0xd9, 0xb1, 0x35, 0x50), Column(0x85, 0xb8, 0xbe, 0x01))
  const S5: Columns :=
    Columns(Column(0xf1, 0x00, 0x6f, 0x55), Column(0xc1, 0x92, 0x4c, 0xef),
            Column(0x7c, 0xc8, 0x8b, 0x32), Column(0x5d, 0xb5, 0xd5, 0x0c))
  const S6: Columns :=
    Columns(Column(0x26, 0x0e, 0x2e, 0x17), Column(0x3d, 0x41, 0xb7, 0x7d),
            Column(0xe8, 0x64, 0x72, 0xa9), Column(0xfd, 0xd2, 0x8b, 0x25))
  const S7: Columns :=
    Columns(Column(0x5a, 0x41, 0x42, 0xb1), Column(0x19, 0x49, 0xdc, 0x1f),
            Column(0xa3, 0xe0, 0x19, 0x65), Column(0x7a, 0x8c, 0x04, 0x0c))
  const S8: Columns :=
    Columns(Column(0xea, 0x83, 0x5c, 0xf0), Column(0x04, 0x45, 0x33, 0x2d),
            Column(0x65, 0x5d, 0x98, 0xad), Column(0x85, 0x96, 0xb0, 0xc5))
  const S9: Columns :=
    Columns(Column(0xeb, 0x40, 0xf2, 0x1e), Column(0x59, 0x2e, 0x38, 0x84),
            Column(0x8b, 0xa1, 0x13, 0xe7), Column(0x1b, 0xc3, 0x42, 0xd2))
  const S10: Columns :=
    Columns(Column(0x39, 0x25, 0x84, 0x1d), Column(0x02, 0xdc, 0x09, 0xfb),
            Column(0xdc, 0x11, 0x85, 0x97), Column(0x19, 0x6a, 0x0b, 0x32))

  lemma RoundS1()
    ensures Sums(AllMixed(Shifted(S0)), K1) == S1
  {
    SubstitutedS1();
    hide SBox.Sub;
  }

  lemma SubstitutedS1()
    ensures SBox.Sub(0x19) == 0xd4 && SBox.Sub(0x3d) == 0x27 && SBox.Sub(0xe3) == 0x11 && SBox.Sub(0xbe) == 0xae
    ensures SBox.Sub(0xa0) == 0xe0 && SBox.Sub(0xf4) == 0xbf && SBox.Sub(0xe2) == 0x98 && SBox.Sub(0x2b) == 0xf1
    ensures SBox.Sub(0x9a) == 0xb8 && SBox.Sub(0xc6) == 0xb4 && SBox.Sub(0x8d) == 0x5d && SBox.Sub(0x2a) == 0xe5
    ensures SBox.Sub(0xe9) == 0x1e && SBox.Sub(0xf8) == 0x41 && SBox.Sub(0x48) == 0x52 && SBox.Sub(0x08) == 0x30
  {
  }

  lemma RoundS2()
    ensures Sums(AllMixed(Shifted(S1)), K2) == S2
  {
    SubstitutedS2();
    hide SBox.Sub;
  }

  lemma SubstitutedS2()
    ensures SBox.Sub(0xa4) == 0x49 && SBox.Sub(0x9c) == 0xde && SBox.Sub(0x7f) == 0xd2 && SBox.Sub(0xf2) == 0x89
    ensures SBox.Sub(0x68) == 0x45 && SBox.Sub(0x9f) == 0xdb && SBox.Sub(0x35) == 0x96 && SBox.Sub(0x2b) == 0xf1
    ensures SBox.Sub(0x6b) == 0x7f && SBox.Sub(0x5b) == 0x39 && SBox.Sub(0xea) == 0x87 && SBox.Sub(0x43) == 0x1a
    ensures SBox.Sub(0x02) == 0x77 && SBox.Sub(0x6a) == 0x02 && SBox.Sub(0x50) == 0x53 && SBox.Sub(0x49) == 0x3b
  {
  }

  lemma RoundS3()
    ensures Sums(AllMixed(Shifted(S2)), K3) == S3
  {
    SubstitutedS3();
    hide SBox.Sub;
  }

  lemma SubstitutedS3()
    ensures SBox.Sub(0xaa) == 0xac && SBox.Sub(0x8f) == 0x73 && SBox.Sub(0x5f) == 0xcf && SBox.Sub(0x03) == 0x7b
    ensures SBox.Sub(0x61) == 0xef && SBox.Sub(0xdd) == 0xc1 && SBox.Sub(0xe3) == 0x11 && SBox.Sub(0xef) == 0xdf
    ensures SBox.Sub(0x82) == 0x13 && SBox.Sub(0xd2) == 0xb5 && SBox.Sub(0x4a) == 0xd6 && SBox.Sub(0xd2) == 0xb5
    ensures SBox.Sub(0x68) == 0x45 && SBox.Sub(0x32) == 0x23 && SBox.Sub(0x46) == 0x5a && SBox.Sub(0x9a) == 0xb8
  {
  }

  lemma RoundS4()
    ensures Sums(AllMixed(Shifted(S3)), K4) == S4
  {
    SubstitutedS4();
    hide SBox.Sub;
  }

  lemma SubstitutedS4()
    ensures SBox.Sub(0x48) == 0x52 && SBox.Sub(0x6c) == 0x50 && SBox.Sub(0x4e) == 0x2f && SBox.Sub(0xee) == 0x28
    ensures SBox.Sub(0x67) == 0x85 && SBox.Sub(0x1d) == 0xa4 && SBox.Sub(0x9d) == 0x5e && SBox.Sub(0x0d) == 0xd7
    ensures SBox.Sub(0x4d) == 0xe3 && SBox.Sub(0xe3) == 0x11 && SBox.Sub(0xb1) == 0xc8 && SBox.Sub(0x38) == 0x07
    ensures SBox.Sub(0xd6) == 0xf6 && SBox.Sub(0x5f) == 0xcf && SBox.Sub(0x58) == 0x6a && SBox.Sub(0xe7) == 0x94
  {
  }

  lemma RoundS5()
    ensures Sums(AllMixed(Shifted(S4)), K5) == S5
  {
    SubstitutedS5();
    hide SBox.Sub;
  }

  lemma SubstitutedS5()
    ensures SBox.Sub(0xe0) == 0xe1 && SBox.Sub(0x92) == 0x4f && SBox.Sub(0x7f) == 0xd2 && SBox.Sub(0xe8) == 0x9b
    ensures SBox.Sub(0xc8) == 0xe8 && SBox.Sub(0x63) == 0xfb && SBox.Sub(0x63) == 0xfb && SBox.Sub(0xc0) == 0xba
    ensures SBox.Sub(0xd9) == 0x35 && SBox.Sub(0xb1) == 0xc8 && SBox.Sub(0x35) == 0x96 && SBox.Sub(0x50) == 0x53
    ensures SBox.Sub(0x85) == 0x97 && SBox.Sub(0xb8) == 0x6c && SBox.Sub(0xbe) == 0xae && SBox.Sub(0x01) == 0x7c
  {
  }

  lemma RoundS6()
    ensures Sums(AllMixed(Shifted(S5)), K6) == S6
  {
    SubstitutedS6();
    hide SBox.Sub;
  }

  lemma SubstitutedS6()
    ensures SBox.Sub(0xf1) == 0xa1 && SBox.Sub(0x00) == 0x63 && SBox.Sub(0x6f) == 0xa8 && SBox.Sub(0x55) == 0xfc
    ensures SBox.Sub(0xc1) == 0x78 && SBox.Sub(0x92) == 0x4f && SBox.Sub(0x4c) == 0x29 && SBox.Sub(0xef) == 0xdf
    ensures SBox.Sub(0x7c) == 0x10 && SBox.Sub(0xc8) == 0xe8 && SBox.Sub(0x8b) == 0x3d && SBox.Sub(0x32) == 0x23
    ensures SBox.Sub(0x5d) == 0x4c && SBox.Sub(0xb5) == 0xd5 && SBox.Sub(0xd5) == 0x03 && SBox.Sub(0x0c) == 0xfe
  {
  }

  lemma RoundS7()
    ensures Sums(AllMixed(Shifted(S6)), K7) == S7
  {
    SubstitutedS7();
    hide SBox.Sub;
  }

  lemma SubstitutedS7()
    ensures SBox.Sub(0x26) == 0xf7 && SBox.Sub(0x0e) == 0xab && SBox.Sub(0x2e) == 0x31 && SBox.Sub(0x17) == 0xf0
    ensures SBox.Sub(0x3d) == 0x27 && SBox.Sub(0x41) == 0x83 && SBox.Sub(0xb7) == 0xa9 && SBox.Sub(0x7d) == 0xff
    ensures SBox.Sub(0xe8) == 0x9b && SBox.Sub(0x64) == 0x43 && SBox.Sub(0x72) == 0x40 && SBox.Sub(0xa9) == 0xd3
    ensures SBox.Sub(0xfd) == 0x54 && SBox.Sub(0xd2) == 0xb5 && SBox.Sub(0x8b) == 0x3d && SBox.Sub(0x25) == 0x3f
  {
  }

  lemma RoundS8()
    ensures Sums(AllMixed(Shifted(S7)), K8) == S8
  {
    SubstitutedS8();
    hide SBox.Sub;
  }

  lemma SubstitutedS8()
    ensures SBox.Sub(0x5a) == 0xbe && SBox.Sub(0x41) == 0x83 && SBox.Sub(0x42) == 0x2c && SBox.Sub(0xb1) == 0xc8
    ensures SBox.Sub(0x19) == 0xd4 && SBox.Sub(0x49) == 0x3b && SBox.Sub(0xdc) == 0x86 && SBox.Sub(0x1f) == 0xc0
    ensures SBox.Sub(0xa3) == 0x0a && SBox.Sub(0xe0) == 0xe1 && SBox.Sub(0x19) == 0xd4 && SBox.Sub(0x65) == 0x4d
    ensures SBox.Sub(0x7a) == 0xda && SBox.Sub(0x8c) == 0x64 && SBox.Sub(0x04) == 0xf2 && SBox.Sub(0x0c) == 0xfe
  {
  }

  lemma RoundS9()
    ensures Sums(AllMixed(Shifted(S8)), K9) == S9
  {
    SubstitutedS9();
    hide SBox.Sub;
  }

  lemma SubstitutedS9()
    ensures SBox.Sub(0xea) == 0x87 && SBox.Sub(0x83) == 0xec && SBox.Sub(0x5c) == 0x4a && SBox.Sub(0xf0) == 0x8c
    ensures SBox.Sub(0x04) == 0xf2 && SBox.Sub(0x45) == 0x6e && SBox.Sub(0x33) == 0xc3 && SBox.Sub(0x2d) == 0xd8
    ensures SBox.Sub(0x65) == 0x4d && SBox.Sub(0x5d) == 0x4c && SBox.Sub(0x98) == 0x46 && SBox.Sub(0xad) == 0x95
    ensures SBox.Sub(0x85) == 0x97 && SBox.Sub(0x96) == 0x90 && SBox.Sub(0xb0) == 0xe7 && SBox.Sub(0xc5) == 0xa6
  {
  }

  lemma RoundS10()
    ensures Sums(Shifted(S9), K10) == S10
  {
    SubstitutedS10();
    hide SBox.Sub;
  }

  lemma SubstitutedS10()
    ensures SBox.Sub(0xeb) == 0xe9 && SBox.Sub(0x40) == 0x09 && SBox.Sub(0xf2) == 0x89 && SBox.Sub(0x1e) == 0x72
    ensures SBox.Sub(0x59) == 0xcb && SBox.Sub(0x2e) == 0x31 && SBox.Sub(0x38) == 0x07 && SBox.Sub(0x84) == 0x5f
    ensures SBox.Sub(0x8b) == 0x3d && SBox.Sub(0xa1) == 0x32 && SBox.Sub(0x13) == 0x7d && SBox.Sub(0xe7) == 0x94
    ensures SBox.Sub(0x1b) == 0xaf && SBox.Sub(0xc3) == 0x2e && SBox.Sub(0x42) == 0x2c && SBox.Sub(0xd2) == 0xb5
  {
  }

  lemma RoundAt(s: Block, w: Schedule, n: nat, before: Columns, key: Columns, after: Columns)
    requires 1 <= n < ROUNDS && Of(EncryptRounds(s, w, n - 1)) == before && KeyOf(w, n) == key
    requires Sums(AllMixed(Shifted(before)), key) == after
    ensures Of(EncryptRounds(s, w, n)) == after
  {
    hide Of, EncryptRounds, RoundKey, Sums, AllMixed, Shifted;
    RoundOf(s, w, n);
  }

  /** The rounds of appendix B. */
  lemma Encrypted(s: Block, w: Schedule)
    requires Recurrence(w, SCHEDULE_LENGTH) && KeyOf(w, 0) == K0 && Of(AddRoundKey(s, w, 0)) == S0
    ensures Of(Cipher(s, w)) == S10
  {
    hide Cipher, EncryptRounds, AddRoundKey, Of, KeyOf, Sums, AllMixed, Shifted, Recurrence,
      K0, K1, K2, K3, K4, K5, K6, K7, K8, K9, K10, S0, S1, S2, S3, S4, S5, S6, S7, S8, S9, S10;
    Expanded(w);
    FirstOf(s, w);
    RoundS1();
    RoundAt(s, w, 1, S0, K1, S1);
    RoundS2();
    RoundAt(s, w, 2, S1, K2, S2);
    RoundS3();
    RoundAt(s, w, 3, S2, K3, S3);
    RoundS4();
    RoundAt(s, w, 4, S3, K4, S4);
    RoundS5();
    RoundAt(s, w, 5, S4, K5, S5);
    RoundS6();
    RoundAt(s, w, 6, S5, K6, S6);
    RoundS7();
    RoundAt(s, w, 7, S6, K7, S7);
    RoundS8();
    RoundAt(s, w, 8, S7, K8, S8);
    RoundS9();
    RoundAt(s, w, 9, S8, K9, S9);
    RoundS10();
    LastRoundAt(s, w, S9, K10, S10);
  }

  lemma LastRoundAt(s: Block, w: Schedule, before: Columns, key: Columns, after: Columns)
    requires Of(EncryptRounds(s, w, 9)) == before && KeyOf(w, 10) == key && Sums(Shifted(before), key) == after
    ensures Of(Cipher(s, w)) == after
  {
    hide Of, EncryptRounds, RoundKey, Sums, Shifted, Cipher;
    LastRoundOf(s, w);
  }

  lemma FirstOf(s: Block, w: Schedule)
    ensures EncryptRounds(s, w, 0) == AddRoundKey(s, w, 0)
  {
  }

  const KEY: Block :=
    [0x2b, 0x7e, 0x15, 0x16, 0x28, 0xae, 0xd2, 0xa6, 0xab, 0xf7, 0x15, 0x88, 0x09, 0xcf, 0x4f, 0x3c]
  const PLAINTEXT: Block :=
    [0x32, 0x43, 0xf6, 0xa8, 0x88, 0x5a, 0x30, 0x8d, 0x31, 0x31, 0x98, 0xa2, 0xe0, 0x37, 0x07, 0x34]

  lemma Start(w: Schedule)
    requires w[..16] == KEY
    ensures KeyOf(w, 0) == K0 && Of(AddRoundKey(PLAINTEXT, w, 0)) == S0
  {
    assert RoundKey(w, 0) == KEY;
    AddOf(PLAINTEXT, w, 0);
    hide AddRoundKey, RoundKey;
  }

  /** FIPS 197: the last round key of appendix A.1 and the ciphertext of appendix B. */
  lemma AppendixB(w: Schedule)
    requires IsExpansion(w, KEY)
    ensures w[160..] ==
      [0xd0, 0x14, 0xf9, 0xa8, 0xc9, 0xee, 0x25, 0x89, 0xe1, 0x3f, 0x0c, 0xc8, 0xb6, 0x63, 0x0c, 0xa6]
    ensures Cipher(PLAINTEXT, w) ==
      [0x39, 0x25, 0x84, 0x1d, 0x02, 0xdc, 0x09, 0xfb, 0xdc, 0x11, 0x85, 0x97, 0x19, 0x6a, 0x0b, 0x32]
  {
    hide Cipher, AddRoundKey, Recurrence;
    Start(w);
    Expanded(w);
    Encrypted(PLAINTEXT, w);
    var last: Block, c: Block :=
      [0xd0, 0x14, 0xf9, 0xa8, 0xc9, 0xee, 0x25, 0x89, 0xe1, 0x3f, 0x0c, 0xc8, 0xb6, 0x63, 0x0c, 0xa6],
      [0x39, 0x25, 0x84, 0x1d, 0x02, 0xdc, 0x09, 0xfb, 0xdc, 0x11, 0x85, 0x97, 0x19, 0x6a, 0x0b, 0x32];
    assert w[160..] == RoundKey(w, 10);
    assert Of(last) == K10 && Of(c) == S10;
    OfInjective(RoundKey(w, 10), last);
    OfInjective(Cipher(PLAINTEXT, w), c);
  }

}
