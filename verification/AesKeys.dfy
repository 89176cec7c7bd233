/** The key schedule of AES-128: the word recurrence of section 5.2 of FIPS 197, and what one round key says about
    the others. */
module AesKeys {
  import opened AesSpec
  import opened Arithmetic
  import opened Gf256
  import SBox

  /** Rcon */
  const RCON: seq<byte> := [0x8d, 0x01, 0x02, 0x04, 0x08, 0x10, 0x20, 0x40, 0x80, 0x1b, 0x36]

  function Rcon(i: nat): byte
    requires i <= ROUNDS
  {
    RCON[i]
  }

  /** x to the power n in the field. */
  function PowerOfX(n: nat): byte {
    if n == 0 then 1 else GMul(PowerOfX(n - 1), 0x02)
  }

  /** The table holds the powers of x (section 5.2); entry 0 is not used. */
  lemma RconIsPowerOfX(i: nat)
    requires 1 <= i <= ROUNDS
    ensures Rcon(i) == PowerOfX(i - 1)
  {
    assert PowerOfX(0) == 0x01 && PowerOfX(1) == 0x02 && PowerOfX(2) == 0x04 && PowerOfX(3) == 0x08;
    assert PowerOfX(4) == 0x10 && PowerOfX(5) == 0x20 && PowerOfX(6) == 0x40 && PowerOfX(7) == 0x80;
    assert PowerOfX(8) == 0x1b && PowerOfX(9) == 0x36;
  }

  /** The round constant falls on the first byte of a round key. */
  function Offset(k: nat): byte
    requires k >= 16
  {
    if k % 16 == 0 then PowerOfX(k / 16 - 1) else 0
  }

  /** The byte added to byte k - 16 to give byte k: the byte of the word before, which for the first word of a round
      key is rotated, substituted and offset by the round constant. */
  function Temp(w: seq<byte>, k: nat): byte
    requires 16 <= k <= |w|
  {
    if k % 16 >= 4 then w[k - 4]
    else SBox.Sub(w[if k % 4 == 3 then k - 7 else k - 3]) ^ Offset(k)
  }

  /** The recurrence of section 5.2, byte by byte, up to byte n. */
  ghost predicate Recurrence(w: seq<byte>, n: nat)
    requires n <= |w|
  {
    forall k :: 16 <= k < n ==> w[k] == w[k - 16] ^ Temp(w, k)
  }

  ghost predicate IsExpansion(w: Schedule, key: Block) {
    w[..16] == key && Recurrence(w, SCHEDULE_LENGTH)
  }

  ghost predicate Agree(w: Schedule, w': Schedule, lo: nat, hi: nat)
    requires lo <= hi <= SCHEDULE_LENGTH
  {
    forall k :: lo <= k < hi ==> w[k] == w'[k]
  }

  lemma XorCancels(a: byte, b: byte, t: byte)
    requires a ^ t == b ^ t
    ensures a == b
  {
  }

  lemma TempAgrees(w: Schedule, w': Schedule, lo: nat, k: nat)
    requires lo <= k < SCHEDULE_LENGTH && lo + 7 <= k && 16 <= k && Agree(w, w', lo, k)
    ensures Temp(w, k) == Temp(w', k)
  {
    hide SBox.Sub, PowerOfX;
  }

  /** Sixteen bytes in a row determine the next one and the one before, and so all the others. */
  lemma {:induction false} AgreementSpreads(w: Schedule, w': Schedule, lo: nat, hi: nat)
    requires Recurrence(w, SCHEDULE_LENGTH) && Recurrence(w', SCHEDULE_LENGTH)
    requires lo + 16 <= hi <= SCHEDULE_LENGTH && Agree(w, w', lo, hi)
    ensures w == w'
    decreases lo, SCHEDULE_LENGTH - hi
  {
    hide Temp;
    if hi < SCHEDULE_LENGTH {
      TempAgrees(w, w', lo, hi);
      assert w[hi] == w[hi - 16] ^ Temp(w, hi) == w'[hi];
      AgreementSpreads(w, w', lo, hi + 1);
    } else if lo > 0 {
      var k := lo + 15;
      TempAgrees(w, w', lo, k);
      XorCancels(w[k - 16], w'[k - 16], Temp(w, k));
      AgreementSpreads(w, w', lo - 1, hi);
    }
  }

  lemma SameSlice(w: Schedule, w': Schedule, lo: nat, hi: nat)
    requires lo <= hi <= SCHEDULE_LENGTH
    ensures w[lo..hi] == w'[lo..hi] <==> Agree(w, w', lo, hi)
  {
    if w[lo..hi] == w'[lo..hi] {
      forall k | lo <= k < hi ensures w[k] == w'[k] {
        assert w[k] == w[lo..hi][k - lo] == w'[lo..hi][k - lo];
      }
    }
  }

  /** Any one of the eleven round keys determines the key, and with it the whole schedule. */
  lemma RoundKeyDeterminesSchedule(w: Schedule, w': Schedule, key: Block, key': Block, round: nat)
    requires IsExpansion(w, key) && IsExpansion(w', key') && round <= ROUNDS
    ensures w[16 * round..16 * round + 16] == w'[16 * round..16 * round + 16] <==> key == key'
    ensures key == key' ==> w == w'
  {
    hide Recurrence, Agree;
    SameSlice(w, w', 16 * round, 16 * round + 16);
    SameSlice(w, w', 0, 16);
    if w[16 * round..16 * round + 16] == w'[16 * round..16 * round + 16] {
      AgreementSpreads(w, w', 16 * round, 16 * round + 16);
    }
    if key == key' {
      AgreementSpreads(w, w', 0, 16);
    }
  }

  lemma TempUnchanged(w: seq<byte>, w': seq<byte>, j: nat, k: nat)
    requires 16 <= k < j + 4 && j % 4 == 0 && j + 4 <= |w| == |w'|
    requires forall n :: 0 <= n < j ==> w'[n] == w[n]
    ensures Temp(w, k) == Temp(w', k)
  {
    hide SBox.Sub, Offset;
  }

  /** Four more bytes computed as in KeyExpansion carry the recurrence one word further. */
  lemma RecurrenceExtends(w: seq<byte>, w': seq<byte>, j: nat)
    requires 16 <= j && j % 4 == 0 && j + 4 <= |w| == |w'| && Recurrence(w, j)
    requires forall k :: 0 <= k < j ==> w'[k] == w[k]
    requires w'[j] == w[j - 16] ^ Temp(w, j) && w'[j + 1] == w[j - 15] ^ Temp(w, j + 1)
    requires w'[j + 2] == w[j - 14] ^ Temp(w, j + 2) && w'[j + 3] == w[j - 13] ^ Temp(w, j + 3)
    ensures Recurrence(w', j + 4)
  {
    hide Temp;
    forall k | 16 <= k < j + 4 ensures Temp(w, k) == Temp(w', k) {
      TempUnchanged(w, w', j, k);
    }
  }

  lemma RecurrenceStarts(w: seq<byte>)
    requires |w| >= 16
    ensures Recurrence(w, 16)
  {
  }

  /** The four bytes of Temp that go into word i. */
  lemma TempWord(w: seq<byte>, i: nat)
    requires 4 <= i < 44 && 4 * i + 4 <= |w|
    ensures var k := 4 * (i - 1);
            if i % 4 == 0 then
              Temp(w, 4 * i) == SBox.Sub(w[k + 1]) ^ Rcon(i / 4) && Temp(w, 4 * i + 1) == SBox.Sub(w[k + 2]) &&
              Temp(w, 4 * i + 2) == SBox.Sub(w[k + 3]) && Temp(w, 4 * i + 3) == SBox.Sub(w[k])
            else
              Temp(w, 4 * i) == w[k] && Temp(w, 4 * i + 1) == w[k + 1] &&
              Temp(w, 4 * i + 2) == w[k + 2] && Temp(w, 4 * i + 3) == w[k + 3]
  {
    hide SBox.Sub, PowerOfX, Rcon, Temp;
    if i % 4 == 0 {
      RconIsPowerOfX(i / 4);
      TempFirst(w, i / 4);
    } else {
      LaterWord(w, i, 0);
      LaterWord(w, i, 1);
      LaterWord(w, i, 2);
      LaterWord(w, i, 3);
    }
  }

  /** In the first word of round key r. */
  lemma TempFirst(w: seq<byte>, r: nat)
    requires 1 <= r && 16 * r + 4 <= |w|
    ensures var k := 16 * r - 4;
            Temp(w, 16 * r) == SBox.Sub(w[k + 1]) ^ PowerOfX(r - 1) && Temp(w, 16 * r + 1) == SBox.Sub(w[k + 2]) &&
            Temp(w, 16 * r + 2) == SBox.Sub(w[k + 3]) && Temp(w, 16 * r + 3) == SBox.Sub(w[k])
  {
    hide SBox.Sub, PowerOfX, Temp;
    TempLead(w, r);
    TempOther(w, r, 1);
    TempOther(w, r, 2);
    TempOther(w, r, 3);
  }

  lemma TempLead(w: seq<byte>, r: nat)
    requires 1 <= r && 16 * r + 4 <= |w|
    ensures Temp(w, 16 * r) == SBox.Sub(w[16 * r - 3]) ^ PowerOfX(r - 1)
  {
    hide SBox.Sub, PowerOfX;
  }

  lemma TempOther(w: seq<byte>, r: nat, b: nat)
    requires 1 <= r && 1 <= b < 4 && 16 * r + 4 <= |w|
    ensures Temp(w, 16 * r + b) == SBox.Sub(w[if b == 3 then 16 * r - 4 else 16 * r + b - 3])
  {
    hide SBox.Sub, Offset;
    NoOffset(r, b);
    XorNothing(SBox.Sub(w[if b == 3 then 16 * r - 4 else 16 * r + b - 3]));
  }

  lemma NoOffset(r: nat, b: nat)
    requires 1 <= r && 1 <= b < 4
    ensures Offset(16 * r + b) == 0 && (16 * r + b) % 16 == b && (16 * r + b) % 4 == b
  {
    hide PowerOfX;
    ModuloOf(16 * r + b, 16, r, b);
    ModuloOf(16 * r + b, 4, 4 * r, b);
  }

  lemma XorNothing(b: byte)
    ensures b ^ 0 == b
  {
  }

  lemma LaterWord(w: seq<byte>, i: nat, b: nat)
    requires 4 <= i && i % 4 != 0 && b < 4 && 4 * i + b <= |w|
    ensures Temp(w, 4 * i + b) == w[4 * i + b - 4]
  {
    hide SBox.Sub, Offset;
    assert 4 * i + b == 16 * (i / 4) + (4 * (i % 4) + b);
  }
}
