/** The AES-128 transformations as FIPS 197 defines them, on values.

    A state is a block of sixteen bytes; byte 4c + r is row r of column c, the layout of the state_t overlay in
    src/lib/algo/aes.c. The main result is that InvCipher and Cipher undo each other for every block and every
    schedule of eleven round keys. */
module AesSpec {
  import opened Gf256
  import SBox

  const BLOCK_LENGTH := 16
  const ROUNDS := 10
  const SCHEDULE_LENGTH := 176

  type Block = s: seq<byte> | |s| == 16 witness seq(16, i => 0)
  type Schedule = w: seq<byte> | |w| == 176 witness seq(176, i => 0)

  function SubBytes(s: Block): Block {
    seq(16, i requires 0 <= i < 16 => SBox.Sub(s[i]))
  }

  function InvSubBytes(s: Block): Block {
    seq(16, i requires 0 <= i < 16 => SBox.InvSub(s[i]))
  }

  /** Row r of column c comes from column (c + r) mod 4 (section 5.1.2). */
  function ShiftSource(i: nat): (j: nat)
    requires i < 16
    ensures j < 16
  {
    (i + 4 * (i % 4)) % 16
  }

  function UnshiftSource(i: nat): (j: nat)
    requires i < 16
    ensures j < 16
  {
    (i + 16 - 4 * (i % 4)) % 16
  }

  function ShiftRows(s: Block): Block {
    seq(16, i requires 0 <= i < 16 => s[ShiftSource(i)])
  }

  function InvShiftRows(s: Block): Block {
    seq(16, i requires 0 <= i < 16 => s[UnshiftSource(i)])
  }

  /** The permutation spelt out. */
  lemma ShiftRowsTable(s: Block)
    ensures ShiftRows(s) == [s[0], s[5], s[10], s[15], s[4], s[9], s[14], s[3],
                             s[8], s[13], s[2], s[7], s[12], s[1], s[6], s[11]]
  {
  }

  lemma InvShiftRowsTable(s: Block)
    ensures InvShiftRows(s) == [s[0], s[13], s[10], s[7], s[4], s[1], s[14], s[11],
                                s[8], s[5], s[2], s[15], s[12], s[9], s[6], s[3]]
  {
  }

  /** The byte k rows below byte i in the same column, wrapping round. */
  function Below(i: nat, k: nat): (j: nat)
    requires i < 16 && k < 4
    ensures j < 16
  {
    if i % 4 + k < 4 then i + k else i + k - 4
  }

  function Sum4(a: byte, b: byte, c: byte, d: byte): byte {
    Add(Add(a, b), Add(c, d))
  }

  /** Row i % 4 of the product of a circulant matrix, given by its first row, and the column of byte i. */
  function Circulant(s: Block, m0: byte, m1: byte, m2: byte, m3: byte, i: nat): byte
    requires i < 16
  {
    Sum4(GMul(s[i], m0), GMul(s[Below(i, 1)], m1), GMul(s[Below(i, 2)], m2), GMul(s[Below(i, 3)], m3))
  }

  /** Section 5.1.3. */
  function MixColumns(s: Block): Block {
    seq(16, i requires 0 <= i < 16 => Circulant(s, 0x02, 0x03, 0x01, 0x01, i))
  }

  /** Section 5.3.3. */
  function InvMixColumns(s: Block): Block {
    seq(16, i requires 0 <= i < 16 => Circulant(s, 0x0e, 0x0b, 0x0d, 0x09, i))
  }

  function AddRoundKey(s: Block, w: Schedule, round: nat): Block
    requires round <= ROUNDS
  {
    seq(16, i requires 0 <= i < 16 => s[i] ^ w[16 * round + i])
  }

  /** The state after the initial key addition and n full rounds. */
  function EncryptRounds(s: Block, w: Schedule, n: nat): Block
    requires n < ROUNDS
  {
    if n == 0 then AddRoundKey(s, w, 0)
    else AddRoundKey(MixColumns(ShiftRows(SubBytes(EncryptRounds(s, w, n - 1)))), w, n)
  }

  function Cipher(s: Block, w: Schedule): Block {
    AddRoundKey(ShiftRows(SubBytes(EncryptRounds(s, w, ROUNDS - 1))), w, ROUNDS)
  }

  /** The state after the first key addition and the full inverse rounds down to and including round n. */
  function DecryptRounds(s: Block, w: Schedule, n: nat): Block
    requires 1 <= n <= ROUNDS
    decreases ROUNDS - n
  {
    if n == ROUNDS then AddRoundKey(s, w, ROUNDS)
    else InvMixColumns(AddRoundKey(InvSubBytes(InvShiftRows(DecryptRounds(s, w, n + 1))), w, n))
  }

  function InvCipher(s: Block, w: Schedule): Block {
    AddRoundKey(InvSubBytes(InvShiftRows(DecryptRounds(s, w, 1))), w, 0)
  }

  // Each step has an inverse.

  lemma SubBytesInverse(s: Block)
    ensures InvSubBytes(SubBytes(s)) == s && SubBytes(InvSubBytes(s)) == s
  {
    hide SBox.Sub, SBox.InvSub;
    forall i | 0 <= i < 16
      ensures InvSubBytes(SubBytes(s))[i] == s[i] && SubBytes(InvSubBytes(s))[i] == s[i]
    {
      SBox.InvSubUndoesSub(s[i]);
      SBox.SubUndoesInvSub(s[i]);
    }
  }

  lemma SourceByRow(c: nat, r: nat)
    requires c < 4 && r < 4
    ensures ShiftSource(4 * c + r) == 4 * (if c + r < 4 then c + r else c + r - 4) + r
    ensures UnshiftSource(4 * c + r) == 4 * (if c < r then c + 4 - r else c - r) + r
  {
    assert (4 * c + r) % 4 == r;
  }

  lemma UnshiftShift(i: nat)
    requires i < 16
    ensures UnshiftSource(ShiftSource(i)) == i && ShiftSource(UnshiftSource(i)) == i
  {
    hide ShiftSource, UnshiftSource;
    var c, r := i / 4, i % 4;
    SourceByRow(c, r);
    SourceByRow(if c + r < 4 then c + r else c + r - 4, r);
    SourceByRow(if c < r then c + 4 - r else c - r, r);
  }

  lemma ShiftRowsInverse(s: Block)
    ensures InvShiftRows(ShiftRows(s)) == s && ShiftRows(InvShiftRows(s)) == s
  {
    hide ShiftSource, UnshiftSource;
    forall i | 0 <= i < 16
      ensures InvShiftRows(ShiftRows(s))[i] == s[i] && ShiftRows(InvShiftRows(s))[i] == s[i]
    {
      UnshiftShift(i);
    }
  }

  lemma AddRoundKeyInverse(s: Block, w: Schedule, round: nat)
    requires round <= ROUNDS
    ensures AddRoundKey(AddRoundKey(s, w, round), w, round) == s
  {
  }

  // A column operation is linear, so it is enough to follow each byte of a column by itself.

  lemma AsXtime(x: byte)
    ensures GMul(x, 0x01) == x && GMul(x, 0x02) == Xtime(x) && GMul(x, 0x03) == Add(Xtime(x), x)
  {
  }

  lemma AsXtimePowers(x: byte)
    ensures var x2 := Xtime(x); var x4 := Xtime(x2); var x8 := Xtime(x4);
            GMul(x, 0x09) == Add(x8, x) && GMul(x, 0x0b) == Add(Add(x8, x2), x) &&
            GMul(x, 0x0d) == Add(Add(x8, x4), x) && GMul(x, 0x0e) == Add(Add(x8, x4), x2)
  {
  }

  predicate IsCoefficient(k: byte) {
    k == 0x01 || k == 0x02 || k == 0x03 || k == 0x09 || k == 0x0b || k == 0x0d || k == 0x0e
  }

  lemma CoefficientLinear(x: byte, y: byte, k: byte)
    requires IsCoefficient(k)
    ensures GMul(Add(x, y), k) == Add(GMul(x, k), GMul(y, k))
  {
    hide Add, Xtime, GMul;
    var x2, y2 := Xtime(x), Xtime(y);
    var x4, y4 := Xtime(x2), Xtime(y2);
    var x8, y8 := Xtime(x4), Xtime(y4);
    XtimeLinear(x, y);
    XtimeLinear(x2, y2);
    XtimeLinear(x4, y4);
    AsXtime(x);
    AsXtime(y);
    AsXtime(Add(x, y));
    AsXtimePowers(x);
    AsXtimePowers(y);
    AsXtimePowers(Add(x, y));
    AddInterchange(x2, y2, x, y);
    AddInterchange(x8, y8, x, y);
    AddInterchange(x8, y8, x2, y2);
    AddInterchange(x8, y8, x4, y4);
    AddInterchange(Add(x8, x2), Add(y8, y2), x, y);
    AddInterchange(Add(x8, x4), Add(y8, y4), x, y);
    AddInterchange(Add(x8, x4), Add(y8, y4), x2, y2);
  }

  lemma CoefficientLinear4(a: byte, b: byte, c: byte, d: byte, k: byte)
    requires IsCoefficient(k)
    ensures GMul(Sum4(a, b, c, d), k) == Sum4(GMul(a, k), GMul(b, k), GMul(c, k), GMul(d, k))
  {
    hide Add, GMul;
    CoefficientLinear(a, b, k);
    CoefficientLinear(c, d, k);
    CoefficientLinear(Add(a, b), Add(c, d), k);
  }

  lemma AddSums(a: byte, b: byte, c: byte, d: byte, a': byte, b': byte, c': byte, d': byte)
    ensures Add(Sum4(a, b, c, d), Sum4(a', b', c', d')) == Sum4(Add(a, a'), Add(b, b'), Add(c, c'), Add(d, d'))
  {
    hide Add;
    AddInterchange(Add(a, b), Add(c, d), Add(a', b'), Add(c', d'));
    AddInterchange(a, b, a', b');
    AddInterchange(c, d, c', d');
  }

  lemma Transpose(a0: byte, a1: byte, a2: byte, a3: byte, b0: byte, b1: byte, b2: byte, b3: byte,
                  c0: byte, c1: byte, c2: byte, c3: byte, d0: byte, d1: byte, d2: byte, d3: byte)
    ensures Sum4(Sum4(a0, a1, a2, a3), Sum4(b0, b1, b2, b3), Sum4(c0, c1, c2, c3), Sum4(d0, d1, d2, d3)) ==
            Sum4(Sum4(a0, b0, c0, d0), Sum4(a1, b1, c1, d1), Sum4(a2, b2, c2, d2), Sum4(a3, b3, c3, d3))
  {
    hide Add;
    AddSums(a0, a1, a2, a3, b0, b1, b2, b3);
    AddSums(c0, c1, c2, c3, d0, d1, d2, d3);
    AddSums(Add(a0, b0), Add(a1, b1), Add(a2, b2), Add(a3, b3), Add(c0, d0), Add(c1, d1), Add(c2, d2), Add(c3, d3));
  }

  // What one byte x of a column contributes to its own row after mixing and unmixing, and to the other rows. The
  // products with the coefficients are sums of x, x2, x4, x8 and x16, each twice the one before.

  lemma OwnRow(x: byte, x2: byte, x4: byte, x8: byte, x16: byte)
    ensures Sum4(Add(Add(x16, x8), x4), Add(Add(x8, x2), x), Add(Add(x8, x4), x), Add(Add(x16, x2), Add(x8, x))) == x
  {
    hide Add;
    SharedOne(x16, x8, x4, x2, x);
    AddSwap(x8, x4, x);
    AddCommutes(Add(x16, x2), Add(x8, x));
    AddThrough(x4, Add(x8, x), Add(x16, x2));
    AddInterchange(x16, x4, x2, x);
    AddCommutes(Add(x16, x2), Add(x4, x));
    AddCommutes(x4, Add(x16, x2));
    AddThrough(Add(x4, x), Add(x16, x2), x4);
    AddBack(x4, x);
  }

  lemma OtherRow1(x: byte, x2: byte, x4: byte, x8: byte, x16: byte)
    ensures Sum4(Add(Add(Add(x16, x8), x4), Add(Add(x8, x4), x2)), Add(Add(x16, x4), x2), Add(Add(x8, x4), x),
                 Add(x8, x)) == 0
  {
    hide Add;
    var p, q := Add(x16, x2), Add(x8, x);
    AddCommutes(x8, x16);
    AddSwap(x8, x16, x4);
    AddThrough(x16, Add(x8, x4), x2);
    AddSwap(x16, x4, x2);
    AddCommutes(x4, p);
    AddCommutes(p, Add(p, x4));
    AddBack(p, x4);
    AddSwap(x8, x4, x);
    AddCommutes(x4, q);
    AddBack(q, x4);
  }

  lemma OtherRow2(x: byte, x2: byte, x4: byte, x8: byte, x16: byte)
    ensures Sum4(Add(Add(x8, x4), x2), Add(Add(Add(x16, x4), x2), Add(Add(x8, x2), x)), Add(Add(x16, x8), x2),
                 Add(x8, x)) == 0
  {
    hide Add;
    var a, c, p, q := Add(Add(x8, x4), x2), Add(Add(x16, x8), x2), Add(x16, x4), Add(x8, x);
    AddSwap(x16, x4, x2);
    AddCommutes(x8, x2);
    SharedOne(x16, x2, x4, x8, x);
    AddSwap(p, a, q);
    AddCommutes(c, q);
    AddThrough(Add(p, a), q, c);
    AddSwap(x8, x4, x2);
    AddThrough(x16, x4, Add(x8, x2));
    AddCommutes(x8, x16);
    AddSwap(x8, x16, x2);
    AddBack(c, c);
  }

  lemma OtherRow3(x: byte, x2: byte, x4: byte, x8: byte, x16: byte)
    ensures Sum4(Add(Add(x8, x4), x2), Add(Add(x8, x2), x), Add(Add(Add(x16, x8), x2), Add(Add(x8, x4), x)),
                 Add(x16, x2)) == 0
  {
    hide Add;
    SharedTwo(x8, x4, x2, x);
    SharedOne(x16, x8, x2, x4, x);
    AddBack(Add(x16, x2), Add(x4, x));
  }

  lemma SharedTwo(a: byte, b: byte, c: byte, d: byte)
    ensures Add(Add(Add(a, b), c), Add(Add(a, c), d)) == Add(b, d)
  {
    hide Add;
    AddSwap(a, b, c);
    AddThrough(b, Add(a, c), d);
  }

  lemma SharedOne(a: byte, b: byte, c: byte, d: byte, e: byte)
    ensures Add(Add(Add(a, b), c), Add(Add(b, d), e)) == Add(Add(a, c), Add(d, e))
  {
    hide Add;
    AddSwap(a, b, c);
    AddSwap(d, b, e);
    AddCommutes(b, d);
    AddThrough(Add(a, c), b, Add(d, e));
  }

  lemma AddSwap(a: byte, b: byte, c: byte)
    ensures Add(Add(a, b), c) == Add(Add(a, c), b) == Add(b, Add(a, c))
  {
  }

  lemma AddThrough(a: byte, b: byte, c: byte)
    ensures Add(Add(a, b), Add(b, c)) == Add(a, c)
  {
  }

  lemma AddBack(a: byte, b: byte)
    ensures Add(Add(a, b), a) == b && Add(b, b) == 0
  {
  }

  lemma AddCommutes(a: byte, b: byte)
    ensures Add(a, b) == Add(b, a)
  {
  }

  lemma TimesThree(x: byte, k: byte)
    requires IsCoefficient(k)
    ensures GMul(GMul(x, 3), k) == Add(GMul(Xtime(x), k), GMul(x, k))
  {
    hide Add, GMul, Xtime;
    AsXtime(x);
    CoefficientLinear(Xtime(x), x, k);
  }

  lemma MixedAndBack(x: byte)
    ensures Sum4(GMul(GMul(x, 2), 0xe), GMul(GMul(x, 1), 0xb), GMul(GMul(x, 1), 0xd), GMul(GMul(x, 3), 0x9)) == x
  {
    hide Add, GMul, Xtime;
    var x2 := Xtime(x);
    AsXtime(x);
    AsXtimePowers(x);
    AsXtimePowers(x2);
    TimesThree(x, 0x9);
    OwnRow(x, x2, Xtime(x2), Xtime(Xtime(x2)), Xtime(Xtime(Xtime(x2))));
  }

  lemma MixedAndGone(x: byte)
    ensures Sum4(GMul(GMul(x, 3), 0xe), GMul(GMul(x, 2), 0xb), GMul(GMul(x, 1), 0xd), GMul(GMul(x, 1), 0x9)) == 0
    ensures Sum4(GMul(GMul(x, 1), 0xe), GMul(GMul(x, 3), 0xb), GMul(GMul(x, 2), 0xd), GMul(GMul(x, 1), 0x9)) == 0
    ensures Sum4(GMul(GMul(x, 1), 0xe), GMul(GMul(x, 1), 0xb), GMul(GMul(x, 3), 0xd), GMul(GMul(x, 2), 0x9)) == 0
  {
    hide Add, GMul, Xtime, Sum4;
    var x2 := Xtime(x);
    AsXtime(x);
    AsXtimePowers(x);
    AsXtimePowers(x2);
    TimesThree(x, 0xe);
    TimesThree(x, 0xb);
    TimesThree(x, 0xd);
    OtherRow1(x, x2, Xtime(x2), Xtime(Xtime(x2)), Xtime(Xtime(Xtime(x2))));
    OtherRow2(x, x2, Xtime(x2), Xtime(Xtime(x2)), Xtime(Xtime(Xtime(x2))));
    OtherRow3(x, x2, Xtime(x2), Xtime(Xtime(x2)), Xtime(Xtime(Xtime(x2))));
  }

  /** The coefficients of the two maps commute, so the other order contributes the same. */
  lemma Commute(x: byte, k: byte)
    requires IsCoefficient(k)
    ensures GMul(GMul(x, k), 1) == GMul(GMul(x, 1), k)
    ensures GMul(GMul(x, k), 2) == GMul(GMul(x, 2), k)
    ensures GMul(GMul(x, k), 3) == GMul(GMul(x, 3), k)
  {
    hide Add, GMul, Xtime;
    var x2 := Xtime(x);
    var x4, x8 := Xtime(x2), Xtime(Xtime(x2));
    AsXtime(x);
    AsXtime(x2);
    AsXtime(GMul(x, k));
    AsXtimePowers(x);
    AsXtimePowers(x2);
    TimesThree(x, k);
    XtimeLinear(x2, x);
    XtimeLinear(x8, x);
    XtimeLinear(x8, x2);
    XtimeLinear(Add(x8, x2), x);
    XtimeLinear(x8, x4);
    XtimeLinear(Add(x8, x4), x);
    XtimeLinear(Add(x8, x4), x2);
  }

  lemma SumPermute(a: byte, b: byte, c: byte, d: byte)
    ensures Sum4(a, d, c, b) == Sum4(a, b, c, d) && Sum4(b, a, d, c) == Sum4(a, b, c, d)
    ensures Sum4(c, b, a, d) == Sum4(a, b, c, d) && Sum4(d, c, b, a) == Sum4(a, b, c, d)
  {
    hide Add;
    AddCommutes(a, b);
    AddCommutes(c, d);
    AddCommutes(Add(a, b), Add(c, d));
    AddCommutes(b, d);
    AddCommutes(a, c);
    AddInterchange(a, b, c, d);
    AddInterchange(a, d, c, b);
    AddInterchange(c, b, a, d);
  }

  lemma UnmixedAndBack(x: byte)
    ensures Sum4(GMul(GMul(x, 0xe), 2), GMul(GMul(x, 0x9), 3), GMul(GMul(x, 0xd), 1), GMul(GMul(x, 0xb), 1)) == x
  {
    hide GMul, Sum4;
    Commute(x, 0xe);
    Commute(x, 0x9);
    Commute(x, 0xd);
    Commute(x, 0xb);
    MixedAndBack(x);
    SumPermute(GMul(GMul(x, 2), 0xe), GMul(GMul(x, 1), 0xb), GMul(GMul(x, 1), 0xd), GMul(GMul(x, 3), 0x9));
  }

  lemma UnmixedAndGone(x: byte)
    ensures Sum4(GMul(GMul(x, 0xb), 2), GMul(GMul(x, 0xe), 3), GMul(GMul(x, 0x9), 1), GMul(GMul(x, 0xd), 1)) == 0
    ensures Sum4(GMul(GMul(x, 0xd), 2), GMul(GMul(x, 0xb), 3), GMul(GMul(x, 0xe), 1), GMul(GMul(x, 0x9), 1)) == 0
    ensures Sum4(GMul(GMul(x, 0x9), 2), GMul(GMul(x, 0xd), 3), GMul(GMul(x, 0xb), 1), GMul(GMul(x, 0xe), 1)) == 0
  {
    hide GMul, Sum4;
    Commute(x, 0xe);
    Commute(x, 0x9);
    Commute(x, 0xd);
    Commute(x, 0xb);
    MixedAndGone(x);
    SumPermute(GMul(GMul(x, 3), 0xe), GMul(GMul(x, 2), 0xb), GMul(GMul(x, 1), 0xd), GMul(GMul(x, 1), 0x9));
    SumPermute(GMul(GMul(x, 1), 0xe), GMul(GMul(x, 3), 0xb), GMul(GMul(x, 2), 0xd), GMul(GMul(x, 1), 0x9));
    SumPermute(GMul(GMul(x, 1), 0xe), GMul(GMul(x, 1), 0xb), GMul(GMul(x, 3), 0xd), GMul(GMul(x, 2), 0x9));
  }

  lemma UnmixMixedColumn(a: byte, b: byte, c: byte, d: byte)
    ensures var a' := Sum4(GMul(a, 2), GMul(b, 3), GMul(c, 1), GMul(d, 1));
            var b' := Sum4(GMul(b, 2), GMul(c, 3), GMul(d, 1), GMul(a, 1));
            var c' := Sum4(GMul(c, 2), GMul(d, 3), GMul(a, 1), GMul(b, 1));
            var d' := Sum4(GMul(d, 2), GMul(a, 3), GMul(b, 1), GMul(c, 1));
            Sum4(GMul(a', 0xe), GMul(b', 0xb), GMul(c', 0xd), GMul(d', 0x9)) == a
  {
    hide Add, GMul;
    SumRotate(GMul(a, 1), GMul(b, 2), GMul(c, 3), GMul(d, 1));
    SumRotate(GMul(a, 1), GMul(b, 1), GMul(c, 2), GMul(d, 3));
    SumRotate(GMul(b, 1), GMul(c, 2), GMul(d, 3), GMul(a, 1));
    SumRotate(GMul(d, 2), GMul(a, 3), GMul(b, 1), GMul(c, 1));
    CoefficientLinear4(GMul(a, 2), GMul(b, 3), GMul(c, 1), GMul(d, 1), 0xe);
    CoefficientLinear4(GMul(a, 1), GMul(b, 2), GMul(c, 3), GMul(d, 1), 0xb);
    CoefficientLinear4(GMul(a, 1), GMul(b, 1), GMul(c, 2), GMul(d, 3), 0xd);
    CoefficientLinear4(GMul(a, 3), GMul(b, 1), GMul(c, 1), GMul(d, 2), 0x9);
    Transpose(GMul(GMul(a, 2), 0xe), GMul(GMul(b, 3), 0xe), GMul(GMul(c, 1), 0xe), GMul(GMul(d, 1), 0xe),
              GMul(GMul(a, 1), 0xb), GMul(GMul(b, 2), 0xb), GMul(GMul(c, 3), 0xb), GMul(GMul(d, 1), 0xb),
              GMul(GMul(a, 1), 0xd), GMul(GMul(b, 1), 0xd), GMul(GMul(c, 2), 0xd), GMul(GMul(d, 3), 0xd),
              GMul(GMul(a, 3), 0x9), GMul(GMul(b, 1), 0x9), GMul(GMul(c, 1), 0x9), GMul(GMul(d, 2), 0x9));
    MixedAndBack(a);
    MixedAndGone(b);
    MixedAndGone(c);
    MixedAndGone(d);
    AddZero(a);
    AddZero(0);
  }

  lemma MixUnmixedColumn(a: byte, b: byte, c: byte, d: byte)
    ensures var a' := Sum4(GMul(a, 0xe), GMul(b, 0xb), GMul(c, 0xd), GMul(d, 0x9));
            var b' := Sum4(GMul(b, 0xe), GMul(c, 0xb), GMul(d, 0xd), GMul(a, 0x9));
            var c' := Sum4(GMul(c, 0xe), GMul(d, 0xb), GMul(a, 0xd), GMul(b, 0x9));
            var d' := Sum4(GMul(d, 0xe), GMul(a, 0xb), GMul(b, 0xd), GMul(c, 0x9));
            Sum4(GMul(a', 2), GMul(b', 3), GMul(c', 1), GMul(d', 1)) == a
  {
    hide Add, GMul;
    SumRotate(GMul(a, 0x9), GMul(b, 0xe), GMul(c, 0xb), GMul(d, 0xd));
    SumRotate(GMul(a, 0xd), GMul(b, 0x9), GMul(c, 0xe), GMul(d, 0xb));
    SumRotate(GMul(b, 0x9), GMul(c, 0xe), GMul(d, 0xb), GMul(a, 0xd));
    SumRotate(GMul(d, 0xe), GMul(a, 0xb), GMul(b, 0xd), GMul(c, 0x9));
    CoefficientLinear4(GMul(a, 0xe), GMul(b, 0xb), GMul(c, 0xd), GMul(d, 0x9), 2);
    CoefficientLinear4(GMul(a, 0x9), GMul(b, 0xe), GMul(c, 0xb), GMul(d, 0xd), 3);
    CoefficientLinear4(GMul(a, 0xd), GMul(b, 0x9), GMul(c, 0xe), GMul(d, 0xb), 1);
    CoefficientLinear4(GMul(a, 0xb), GMul(b, 0xd), GMul(c, 0x9), GMul(d, 0xe), 1);
    Transpose(GMul(GMul(a, 0xe), 2), GMul(GMul(b, 0xb), 2), GMul(GMul(c, 0xd), 2), GMul(GMul(d, 0x9), 2),
              GMul(GMul(a, 0x9), 3), GMul(GMul(b, 0xe), 3), GMul(GMul(c, 0xb), 3), GMul(GMul(d, 0xd), 3),
              GMul(GMul(a, 0xd), 1), GMul(GMul(b, 0x9), 1), GMul(GMul(c, 0xe), 1), GMul(GMul(d, 0xb), 1),
              GMul(GMul(a, 0xb), 1), GMul(GMul(b, 0xd), 1), GMul(GMul(c, 0x9), 1), GMul(GMul(d, 0xe), 1));
    UnmixedAndBack(a);
    UnmixedAndGone(b);
    UnmixedAndGone(c);
    UnmixedAndGone(d);
    AddZero(a);
    AddZero(0);
  }

  lemma SumRotate(a: byte, b: byte, c: byte, d: byte)
    ensures Sum4(a, b, c, d) == Sum4(b, c, d, a)
  {
    AddInterchange(a, b, c, d);
  }

  lemma AddZero(x: byte)
    ensures Add(x, 0) == x
  {
  }

  lemma BelowBelow(i: nat, k: nat, l: nat)
    requires i < 16 && k < 4 && l < 4
    ensures Below(Below(i, k), l) == Below(i, (k + l) % 4)
  {
  }

  lemma MixColumnsInverse(s: Block)
    ensures InvMixColumns(MixColumns(s)) == s && MixColumns(InvMixColumns(s)) == s
  {
    hide Add, GMul, Below;
    forall i | 0 <= i < 16
      ensures InvMixColumns(MixColumns(s))[i] == s[i] && MixColumns(InvMixColumns(s))[i] == s[i]
    {
      BelowZero(i);
      forall k, l | 1 <= k < 4 && 1 <= l < 4 ensures Below(Below(i, k), l) == Below(i, (k + l) % 4) {
        BelowBelow(i, k, l);
      }
      UnmixMixedColumn(s[i], s[Below(i, 1)], s[Below(i, 2)], s[Below(i, 3)]);
      MixUnmixedColumn(s[i], s[Below(i, 1)], s[Below(i, 2)], s[Below(i, 3)]);
    }
  }

  lemma BelowZero(i: nat)
    requires i < 16
    ensures Below(i, 0) == i
  {
  }

  // The whole cipher.

  /** Going back down, each full inverse round meets the state the cipher had before that round's mixing. */
  lemma {:induction false} DecryptMeetsEncrypt(s: Block, w: Schedule, n: nat)
    requires 1 <= n <= ROUNDS
    ensures DecryptRounds(Cipher(s, w), w, n) == ShiftRows(SubBytes(EncryptRounds(s, w, n - 1)))
    decreases ROUNDS - n
  {
    hide AddRoundKey, SubBytes, InvSubBytes, ShiftRows, InvShiftRows, MixColumns, InvMixColumns;
    if n == ROUNDS {
      AddRoundKeyInverse(ShiftRows(SubBytes(EncryptRounds(s, w, n - 1))), w, n);
    } else {
      DecryptMeetsEncrypt(s, w, n + 1);
      var before := ShiftRows(SubBytes(EncryptRounds(s, w, n - 1)));
      ShiftRowsInverse(SubBytes(EncryptRounds(s, w, n)));
      SubBytesInverse(EncryptRounds(s, w, n));
      AddRoundKeyInverse(MixColumns(before), w, n);
      MixColumnsInverse(before);
    }
  }

  /** Section 5.3: InvCipher undoes Cipher, whatever the round keys. */
  lemma InvCipherUndoesCipher(s: Block, w: Schedule)
    ensures InvCipher(Cipher(s, w), w) == s
  {
    hide AddRoundKey, SubBytes, InvSubBytes, ShiftRows, InvShiftRows, Cipher, DecryptRounds;
    DecryptMeetsEncrypt(s, w, 1);
    ShiftRowsInverse(SubBytes(EncryptRounds(s, w, 0)));
    SubBytesInverse(EncryptRounds(s, w, 0));
    AddRoundKeyInverse(s, w, 0);
  }

  lemma {:induction false} EncryptMeetsDecrypt(s: Block, w: Schedule, n: nat)
    requires n < ROUNDS
    ensures EncryptRounds(InvCipher(s, w), w, n) == InvSubBytes(InvShiftRows(DecryptRounds(s, w, n + 1)))
  {
    hide AddRoundKey, SubBytes, InvSubBytes, ShiftRows, InvShiftRows, MixColumns, InvMixColumns;
    if n == 0 {
      AddRoundKeyInverse(InvSubBytes(InvShiftRows(DecryptRounds(s, w, 1))), w, 0);
    } else {
      EncryptMeetsDecrypt(s, w, n - 1);
      var above := DecryptRounds(s, w, n + 1);
      var after := AddRoundKey(InvSubBytes(InvShiftRows(above)), w, n);
      SubBytesInverse(InvShiftRows(DecryptRounds(s, w, n)));
      ShiftRowsInverse(DecryptRounds(s, w, n));
      MixColumnsInverse(after);
      AddRoundKeyInverse(InvSubBytes(InvShiftRows(above)), w, n);
    }
  }

  lemma CipherUndoesInvCipher(s: Block, w: Schedule)
    ensures Cipher(InvCipher(s, w), w) == s
  {
    hide AddRoundKey, SubBytes, InvSubBytes, ShiftRows, InvShiftRows, InvCipher, EncryptRounds;
    EncryptMeetsDecrypt(s, w, ROUNDS - 1);
    var last := DecryptRounds(s, w, ROUNDS);
    SubBytesInverse(InvShiftRows(last));
    ShiftRowsInverse(last);
    AddRoundKeyInverse(s, w, ROUNDS);
  }

  /** A schedule permutes the blocks: no two of them have the same ciphertext. */
  lemma CipherInjective(s: Block, s': Block, w: Schedule)
    ensures Cipher(s, w) == Cipher(s', w) <==> s == s'
  {
    hide *;
    InvCipherUndoesCipher(s, w);
    InvCipherUndoesCipher(s', w);
  }

  // The schedule: every round key is used.

  const ZERO: Block := seq(16, i => 0)

  function RoundKey(w: Schedule, round: nat): Block
    requires round <= ROUNDS
  {
    w[16 * round..16 * round + 16]
  }

  lemma AddedByte(s: Block, w: Schedule, round: nat, i: nat)
    requires round <= ROUNDS && i < 16
    ensures AddRoundKey(s, w, round)[i] == Add(s[i], RoundKey(w, round)[i])
  {
  }

  /** In the round that bears its number a round key is what is added. */
  lemma AddedToZero(w: Schedule, round: nat)
    requires round <= ROUNDS
    ensures AddRoundKey(ZERO, w, round) == w[16 * round..16 * round + 16]
  {
    hide AddRoundKey, Add;
    forall i | 0 <= i < 16 ensures AddRoundKey(ZERO, w, round)[i] == RoundKey(w, round)[i] {
      AddedByte(ZERO, w, round, i);
      AddCommutes(0, RoundKey(w, round)[i]);
      AddZero(RoundKey(w, round)[i]);
    }
  }

  /** Adding a round key tells blocks apart, and round keys. */
  lemma AddedAlike(s: Block, s': Block, w: Schedule, w': Schedule, round: nat)
    requires round <= ROUNDS && RoundKey(w, round) == RoundKey(w', round)
    ensures AddRoundKey(s, w, round) == AddRoundKey(s', w', round) <==> s == s'
  {
    hide AddRoundKey, RoundKey, Add;
    forall i | 0 <= i < 16
      ensures AddRoundKey(s, w, round)[i] == AddRoundKey(s', w', round)[i] <==> s[i] == s'[i]
    {
      AddedByte(s, w, round, i);
      AddedByte(s', w', round, i);
      AddCommutes(s[i], RoundKey(w, round)[i]);
      AddCommutes(s'[i], RoundKey(w, round)[i]);
      AddDetermines(RoundKey(w, round)[i], s[i], s'[i]);
    }
  }

  lemma KeyCounts(s: Block, w: Schedule, w': Schedule, round: nat)
    requires round <= ROUNDS
    ensures AddRoundKey(s, w, round) == AddRoundKey(s, w', round) <==> RoundKey(w, round) == RoundKey(w', round)
  {
    hide AddRoundKey, RoundKey, Add;
    forall i | 0 <= i < 16
      ensures AddRoundKey(s, w, round)[i] == AddRoundKey(s, w', round)[i] <==>
              RoundKey(w, round)[i] == RoundKey(w', round)[i]
    {
      AddedByte(s, w, round, i);
      AddedByte(s, w', round, i);
      AddDetermines(s[i], RoundKey(w, round)[i], RoundKey(w', round)[i]);
    }
  }

  lemma AddDetermines(a: byte, b: byte, c: byte)
    ensures Add(a, b) == Add(a, c) <==> b == c
  {
  }

  lemma SubShiftInjective(s: Block, s': Block)
    ensures ShiftRows(SubBytes(s)) == ShiftRows(SubBytes(s')) <==> s == s'
  {
    hide ShiftRows, SubBytes, InvShiftRows, InvSubBytes;
    ShiftRowsInverse(SubBytes(s));
    ShiftRowsInverse(SubBytes(s'));
    SubBytesInverse(s);
    SubBytesInverse(s');
  }

  lemma MixInjective(s: Block, s': Block)
    ensures MixColumns(s) == MixColumns(s') <==> s == s'
  {
    hide MixColumns, InvMixColumns;
    MixColumnsInverse(s);
    MixColumnsInverse(s');
  }

  /** The schedules differ at most in one round key. */
  ghost predicate AlikeBut(w: Schedule, w': Schedule, round: nat) {
    forall n :: 0 <= n <= ROUNDS && n != round ==> RoundKey(w, n) == RoundKey(w', n)
  }

  lemma {:induction false} RoundsBefore(s: Block, w: Schedule, w': Schedule, round: nat, n: nat)
    requires AlikeBut(w, w', round) && n < ROUNDS && n < round
    ensures EncryptRounds(s, w, n) == EncryptRounds(s, w', n)
  {
    hide AddRoundKey, MixColumns, ShiftRows, SubBytes;
    assert RoundKey(w, n) == RoundKey(w', n);
    if n == 0 {
      KeyCounts(s, w, w', 0);
    } else {
      RoundsBefore(s, w, w', round, n - 1);
      KeyCounts(MixColumns(ShiftRows(SubBytes(EncryptRounds(s, w, n - 1)))), w, w', n);
    }
  }

  lemma {:induction false} RoundsAfter(s: Block, w: Schedule, w': Schedule, round: nat, n: nat)
    requires AlikeBut(w, w', round) && round <= n < ROUNDS
    ensures EncryptRounds(s, w, n) == EncryptRounds(s, w', n) <==> RoundKey(w, round) == RoundKey(w', round)
  {
    hide AddRoundKey, MixColumns, ShiftRows, SubBytes, AlikeBut;
    if n == round {
      if n > 0 {
        RoundsBefore(s, w, w', round, n - 1);
      }
      var before := if n == 0 then s else MixColumns(ShiftRows(SubBytes(EncryptRounds(s, w, n - 1))));
      KeyCounts(before, w, w', n);
    } else {
      var x, x' := EncryptRounds(s, w, n - 1), EncryptRounds(s, w', n - 1);
      RoundsAfter(s, w, w', round, n - 1);
      SubShiftInjective(x, x');
      MixInjective(ShiftRows(SubBytes(x)), ShiftRows(SubBytes(x')));
      AlikeAt(w, w', round, n);
      AddedAlike(MixColumns(ShiftRows(SubBytes(x))), MixColumns(ShiftRows(SubBytes(x'))), w, w', n);
    }
  }

  lemma AlikeAt(w: Schedule, w': Schedule, round: nat, n: nat)
    requires AlikeBut(w, w', round) && n <= ROUNDS && n != round
    ensures RoundKey(w, n) == RoundKey(w', n)
  {
  }

  lemma AreAlike(w: Schedule, w': Schedule, round: nat)
    requires forall n :: 0 <= n <= ROUNDS && n != round ==> w[16 * n..16 * n + 16] == w'[16 * n..16 * n + 16]
    ensures AlikeBut(w, w', round)
  {
  }

  /** Every round key counts: schedules that differ in just one of the eleven encrypt no block alike. */
  lemma EveryRoundKeyCounts(s: Block, w: Schedule, w': Schedule, round: nat)
    requires round <= ROUNDS
    requires forall n :: 0 <= n <= ROUNDS && n != round ==> w[16 * n..16 * n + 16] == w'[16 * n..16 * n + 16]
    ensures Cipher(s, w) == Cipher(s, w') <==> w[16 * round..16 * round + 16] == w'[16 * round..16 * round + 16]
  {
    AreAlike(w, w', round);
    hide AddRoundKey, ShiftRows, SubBytes, EncryptRounds, AlikeBut;
    var x, x' := EncryptRounds(s, w, ROUNDS - 1), EncryptRounds(s, w', ROUNDS - 1);
    if round == ROUNDS {
      RoundsBefore(s, w, w', round, ROUNDS - 1);
      KeyCounts(ShiftRows(SubBytes(x)), w, w', ROUNDS);
    } else {
      RoundsAfter(s, w, w', round, ROUNDS - 1);
      SubShiftInjective(x, x');
      AlikeAt(w, w', round, ROUNDS);
      AddedAlike(ShiftRows(SubBytes(x)), ShiftRows(SubBytes(x')), w, w', ROUNDS);
    }
  }
}
