/** What the sender makes of the replies, said of the events alone: when it gives up and with which code, and what a
    whole transfer looks like on the line. The numbers of the protocol are written out: 0x01 SOH, 0x04 EOT, 0x06 ACK,
    0x15 NAK, 0x18 CAN, 0x43 C. */
module XmodemReplies {
  import opened Gf256
  import opened Crc16
  import opened XmodemPort
  import opened XmodemReceiver
  import opened XmodemReception
  import opened XmodemSender
  import opened XmodemPadding
  import opened XmodemLink

  /** The replies that matter in a state; after a CAN the sender looks at the next byte, too. */
  predicate Matters(s: Tx, e: Event) {
    match s
    case Syncing(_, _) => e == Byte(0x43) || e == Byte(0x15) || e == Byte(0x18)
    case Sending(_, _, _, _, _) => e == Byte(0x06) || e == Byte(0x18)
    case Ending(_, _) => e == Byte(0x06)
    case Finished(_) => false
  }

  function Tries(s: Tx): nat {
    match s
    case Syncing(tries, _) => tries
    case Sending(_, _, _, tries, _) => tries
    case Ending(_, tries) => tries
    case Finished(_) => 0
  }

  /** The state some tries later. */
  function Tried(s: Tx, n: nat): Tx {
    match s
    case Syncing(tries, stale) => Syncing(tries + n, stale)
    case Sending(crc, packetno, len, tries, stale) => Sending(crc, packetno, len, tries + n, stale)
    case Ending(len, tries) => Ending(len, tries + n)
    case Finished(_) => s
  }

  /** How often it is tried, and the code and the last bytes when that did not help. */
  function Most(s: Tx): nat {
    if s.Syncing? then 16 else if s.Sending? then 128 else 10
  }

  function GivenUp(s: Tx): int {
    if s.Syncing? then -2 else if s.Sending? then -4 else -5
  }

  function LastBytes(s: Tx): seq<byte> {
    if s.Ending? then [] else [0x18, 0x18, 0x18]
  }

  function Copies(s: seq<byte>, n: nat): seq<byte> {
    if n == 0 then [] else s + Copies(s, n - 1)
  }

  lemma Follows(e: Event, rest: seq<Event>)
    ensures Head([e] + rest) == e && Tail([e] + rest) == rest
  {
  }

  lemma Reaction(kind: CheckField, src: seq<byte>, s: Tx, e: Event, rest: seq<Event>)
    requires Waiting(src, s) && !Matters(s, e)
    ensures TxReact(kind, src, s, [e] + rest) == TryAgain(s, rest)
  {
    hide NextStale, StartBlock, Flushed;
    Follows(e, rest);
  }

  lemma Again(src: seq<byte>, s: Tx, rest: seq<Event>)
    requires Waiting(src, s)
    ensures Waiting(src, Tried(s, 1)) <==> Tries(s) + 1 < Most(s)
    ensures TryAgain(s, rest) == if Tries(s) + 1 < Most(s) then TxStep(Tried(s, 1), [], rest)
                                 else TxStep(Finished(GivenUp(s)), LastBytes(s), Flushed(rest))
  {
    hide Flushed;
  }

  /** A reply that does not matter costs a try; the last try ends the transfer. */
  lemma OneTry(kind: CheckField, src: seq<byte>, s: Tx, e: Event, rest: seq<Event>)
    requires Waiting(src, s) && !Matters(s, e)
    ensures Waiting(src, Tried(s, 1)) <==> Tries(s) + 1 < Most(s)
    ensures if Tries(s) + 1 < Most(s) then
              var r := TxRun(kind, src, Tried(s, 1), rest);
              TxRun(kind, src, s, [e] + rest) == r.(out := TxOutput(kind, src, s) + r.out)
            else
              TxRun(kind, src, s, [e] + rest) ==
              TxRunResult(GivenUp(s), TxOutput(kind, src, s) + LastBytes(s), Flushed(rest))
  {
    hide TxOutput, TxReact, TryAgain, Flushed, Matters, Tries, Tried, Most, GivenUp, LastBytes;
    Reaction(kind, src, s, e, rest);
    Again(src, s, rest);
    Unfolds(kind, src, s, [e] + rest);
    NothingMore(TxOutput(kind, src, s));
  }

  lemma NothingMore(o: seq<byte>)
    ensures o + [] == o
  {
  }

  lemma Unfolds(kind: CheckField, src: seq<byte>, s: Tx, ev: seq<Event>)
    requires Waiting(src, s)
    ensures var st, o := TxReact(kind, src, s, ev), TxOutput(kind, src, s);
            if st.next.Finished? then TxRun(kind, src, s, ev) == TxRunResult(st.next.code, o + st.out, st.rest)
            else
              Waiting(src, st.next) &&
              var r := TxRun(kind, src, st.next, st.rest);
              TxRun(kind, src, s, ev) == r.(out := o + st.out + r.out)
  {
    hide TxReact, TxOutput;
    StillWaiting(kind, src, s, ev);
  }

  lemma SameOutput(kind: CheckField, src: seq<byte>, s: Tx, n: nat)
    requires Waiting(src, s) && Waiting(src, Tried(s, n))
    ensures TxOutput(kind, src, Tried(s, n)) == TxOutput(kind, src, s)
  {
  }

  lemma {:induction false} SomeTries(kind: CheckField, src: seq<byte>, s: Tx, a: seq<Event>, rest: seq<Event>)
    requires Waiting(src, s) && Tries(s) + |a| < Most(s)
    requires forall i :: 0 <= i < |a| ==> !Matters(s, a[i])
    ensures Waiting(src, Tried(s, |a|))
    ensures var r := TxRun(kind, src, Tried(s, |a|), rest);
            TxRun(kind, src, s, a + rest) == r.(out := Copies(TxOutput(kind, src, s), |a|) + r.out)
    decreases |a|
  {
    hide TxRun, TxOutput;
    if a == [] {
      assert a + rest == rest;
      NoTries(s);
    } else {
      OneTry(kind, src, s, a[0], a[1..] + rest);
      assert [a[0]] + (a[1..] + rest) == a + rest;
      SomeTries(kind, src, Tried(s, 1), a[1..], rest);
      SameOutput(kind, src, s, 1);
      MoreTries(s, |a| - 1);
      var o := TxOutput(kind, src, s);
      var r := TxRun(kind, src, Tried(s, |a|), rest);
      assert o + (Copies(o, |a| - 1) + r.out) == Copies(o, |a|) + r.out;
    }
  }

  lemma NoTries(s: Tx)
    ensures Tried(s, 0) == s
    ensures forall r: TxRunResult :: [] + r.out == r.out
  {
  }

  lemma MoreTries(s: Tx, n: nat)
    ensures Tried(Tried(s, 1), n) == Tried(s, n + 1)
  {
  }

  lemma {:induction false} CopiesEnd(s: seq<byte>, n: nat, last: seq<byte>)
    ensures Copies(s, n) + (s + last) == Copies(s, n + 1) + last
    decreases n
  {
    if n == 0 {
      assert Copies(s, 1) == s;
    } else {
      CopiesEnd(s, n - 1, last);
      assert Copies(s, n) + (s + last) == s + (Copies(s, n - 1) + (s + last));
      assert Copies(s, n + 1) + last == s + (Copies(s, n) + last);
    }
  }

  lemma Exhausted(kind: CheckField, src: seq<byte>, s: Tx, a: seq<Event>, rest: seq<Event>)
    requires Waiting(src, s) && !s.Finished? && Tries(s) == 0 && |a| == Most(s)
    requires forall i :: 0 <= i < |a| ==> !Matters(s, a[i])
    ensures TxRun(kind, src, s, a + rest) ==
            TxRunResult(GivenUp(s), Copies(TxOutput(kind, src, s), |a|) + LastBytes(s), Flushed(rest))
  {
    hide TxRun, TxOutput, Copies, Waiting;
    var n := |a| - 1;
    var last := Tried(s, n);
    SomeTries(kind, src, s, a[..n], [a[n]] + rest);
    assert a[..n] + ([a[n]] + rest) == a + rest;
    SameOutput(kind, src, s, n);
    LateTry(s, n);
    OneTry(kind, src, last, a[n], rest);
    CopiesEnd(TxOutput(kind, src, s), n, LastBytes(s));
  }

  lemma LateTry(s: Tx, n: nat)
    requires !s.Finished?
    ensures Tries(Tried(s, n)) == Tries(s) + n && Most(Tried(s, n)) == Most(s) && GivenUp(Tried(s, n)) == GivenUp(s)
    ensures LastBytes(Tried(s, n)) == LastBytes(s) && forall e :: Matters(Tried(s, n), e) <==> Matters(s, e)
  {
  }

  // Giving up

  /** Sixteen replies without a request: -2, and nothing was sent but the CANs. */
  lemma NoRequest(kind: CheckField, src: seq<byte>, stale: byte, a: seq<Event>, rest: seq<Event>)
    requires |a| == 16 && forall i :: 0 <= i < 16 ==> a[i] != Byte(0x43) && a[i] != Byte(0x15) && a[i] != Byte(0x18)
    ensures TxRun(kind, src, Syncing(0, stale), a + rest) == TxRunResult(-2, [0x18, 0x18, 0x18], Flushed(rest))
  {
    hide TxRun;
    Exhausted(kind, src, Syncing(0, stale), a, rest);
    NoCopies(16);
    assert [] + [0x18 as byte, 0x18, 0x18] == [0x18, 0x18, 0x18];
  }

  lemma {:induction false} NoCopies(n: nat)
    ensures Copies([], n) == []
  {
    if n > 0 {
      NoCopies(n - 1);
    }
  }

  /** 128 replies to a packet without an ACK: -4, after 128 times the packet and the CANs. */
  lemma NoAcknowledgement(kind: CheckField, src: seq<byte>, s: Tx, a: seq<Event>, rest: seq<Event>)
    requires s.Sending? && s.tries == 0 && s.len <= |src|
    requires |a| == 128 && forall i :: 0 <= i < 128 ==> a[i] != Byte(0x06) && a[i] != Byte(0x18)
    ensures TxRun(kind, src, s, a + rest) ==
            var packet := Frame(kind, s.crc, s.packetno, Block(src, s.len), s.stale);
            TxRunResult(-4, Copies(packet, 128) + [0x18, 0x18, 0x18], Flushed(rest))
  {
    hide TxRun, Frame, Block, Copies;
    Exhausted(kind, src, s, a, rest);
  }

  /** Ten replies to the EOT without an ACK: -5, after ten EOTs. */
  lemma NoEndAcknowledged(kind: CheckField, src: seq<byte>, len: nat, a: seq<Event>, rest: seq<Event>)
    requires |a| == 10 && forall i :: 0 <= i < 10 ==> a[i] != Byte(0x06)
    ensures TxRun(kind, src, Ending(len, 0), a + rest) == TxRunResult(-5, Copies([0x04], 10), Flushed(rest))
  {
    hide TxRun, Copies;
    Exhausted(kind, src, Ending(len, 0), a, rest);
    NothingMore(Copies([0x04], 10));
  }

  /** Before any of these limits two CANs end the transfer with -1 and an ACK. */
  lemma Cancelled(kind: CheckField, src: seq<byte>, s: Tx, a: seq<Event>, rest: seq<Event>)
    requires Waiting(src, s) && (s.Syncing? || s.Sending?) && Tries(s) == 0 && |a| < Most(s)
    requires forall i :: 0 <= i < |a| ==> !Matters(s, a[i])
    ensures TxRun(kind, src, s, a + ([Byte(0x18), Byte(0x18)] + rest)) ==
            TxRunResult(-1, Copies(TxOutput(kind, src, s), |a| + 1) + [0x06], Flushed(rest))
  {
    var ev := [Byte(0x18), Byte(0x18)] + rest;
    var t := Tried(s, |a|);
    SomeTries(kind, src, s, a, ev);
    SameOutput(kind, src, s, |a|);
    StopRead(kind, src, t, rest);
    Unfolds(kind, src, t, ev);
    CopiesEnd(TxOutput(kind, src, s), |a|, [0x06]);
    hide TxRun, TxOutput, Copies, TxReact;
  }

  lemma StopRead(kind: CheckField, src: seq<byte>, s: Tx, rest: seq<Event>)
    requires Waiting(src, s) && (s.Syncing? || s.Sending?)
    ensures TxReact(kind, src, s, [Byte(0x18), Byte(0x18)] + rest) == TxStep(Finished(-1), [0x06], Flushed(rest))
  {
    hide NextStale, StartBlock, Flushed;
    var ev := [Byte(0x18), Byte(0x18)] + rest;
    assert Tail(ev) == [Byte(0x18)] + rest;
    Follows(Byte(0x18), rest);
  }

  /** A CAN by itself costs a try together with the reply after it. */
  lemma SingleCan(kind: CheckField, src: seq<byte>, s: Tx, e: Event, rest: seq<Event>)
    requires Waiting(src, s) && (s.Syncing? || s.Sending?) && e != Byte(0x18)
    ensures Waiting(src, Tried(s, 1)) <==> Tries(s) + 1 < Most(s)
    ensures var ev := [Byte(0x18), e] + rest;
            if Tries(s) + 1 < Most(s) then
              var r := TxRun(kind, src, Tried(s, 1), rest);
              TxRun(kind, src, s, ev) == r.(out := TxOutput(kind, src, s) + r.out)
            else
              TxRun(kind, src, s, ev) ==
              TxRunResult(GivenUp(s), TxOutput(kind, src, s) + LastBytes(s), Flushed(rest))
  {
    hide TxOutput, TxReact, TryAgain, Flushed, Tries, Tried, Most, GivenUp, LastBytes;
    CanRead(kind, src, s, e, rest);
    Again(src, s, rest);
    Unfolds(kind, src, s, [Byte(0x18), e] + rest);
    NothingMore(TxOutput(kind, src, s));
  }

  lemma CanRead(kind: CheckField, src: seq<byte>, s: Tx, e: Event, rest: seq<Event>)
    requires Waiting(src, s) && (s.Syncing? || s.Sending?) && e != Byte(0x18)
    ensures TxReact(kind, src, s, [Byte(0x18), e] + rest) == TryAgain(s, rest)
  {
    hide NextStale, StartBlock, Flushed, TryAgain;
    var ev := [Byte(0x18), e] + rest;
    assert Tail(ev) == [e] + rest;
    Follows(e, rest);
  }

  // A whole transfer

  /** The j-th packet: its header, its number with the complement, its data, and the check: the CRC of the data as the
      mode was meant, the sum of the data modulo 256, or the bit that the code stores. */
  predicate IsPacket(kind: CheckField, src: seq<byte>, stale: byte, crc: bool, j: nat, f: seq<byte>)
    requires j < Blocks(src)
  {
    && |f| == (if crc then 133 else 132)
    && f[0] == 0x01 && f[1] as nat == (j + 1) % 256 && f[2] as nat == 255 - (j + 1) % 256
    && f[3..131] == Padded(src)[128 * j..128 * j + 128]
    && if !crc then Value(f[131]) == TotalOf(f[3..131]) % 256
       else if kind == Intended then Crc(0, f[3..]) == 0
       else f[131] == 0 &&
            f[132] == if TotalOf(f[3..131]) % 256 == (if j == 0 then Value(stale) else 0) then 1 else 0
  }

  function Joined(fs: seq<seq<byte>>): seq<byte> {
    if fs == [] then [] else fs[0] + Joined(fs[1..])
  }

  function Acks(n: nat): (ev: seq<Event>)
    ensures |ev| == n
  {
    seq(n, i => Byte(0x06))
  }

  lemma ComplementIs(b: byte)
    ensures Complement(b) as nat == 255 - b as nat
  {
    assert b + Complement(b) == 0xff;
  }

  lemma FrameParts(kind: CheckField, crc: bool, n: byte, block: seq<byte>, stale: byte)
    requires |block| == 128
    ensures var f, c := Frame(kind, crc, n, block, stale), CheckBytes(kind, crc, block, stale);
            && |f| == 131 + |c| && f[0] == 0x01 && f[1] == n && f[2] == Complement(n) && f[3..131] == block
            && f[131] == c[0] && (crc ==> f[132] == c[1]) && f[3..] == block + c
  {
    hide CheckBytes, Complement;
  }

  lemma IsThePacket(kind: CheckField, src: seq<byte>, first: byte, crc: bool, j: nat, stale: byte)
    requires j < Blocks(src) && (kind == AsCoded && crc ==> stale == if j == 0 then first else 0)
    ensures 128 * j <= |src|
    ensures IsPacket(kind, src, first, crc, j, Frame(kind, crc, SeqOf(j), Block(src, 128 * j), stale))
  {
    hide Crc, Sum, Block, Frame, Complement, SeqOf, Padded, High, Low, TotalOf;
    MoreBlocksIff(src, j);
    BlockOfPadded(src, j);
    var block := Block(src, 128 * j);
    FrameParts(kind, crc, SeqOf(j), block, stale);
    SeqOfIsModulo(j);
    ComplementIs(SeqOf(j));
    SumIsModulo(0, block);
    ResidueIsZero(block, Crc(0, block));
  }

  lemma AckRead(kind: CheckField, src: seq<byte>, s: Tx, rest: seq<Event>)
    requires Waiting(src, s) && s.Sending?
    ensures TxReact(kind, src, s, [Byte(0x06)] + rest) == TxStep(Acknowledged(kind, src, s), [], rest)
  {
    hide NextStale, StartBlock, Flushed;
    Follows(Byte(0x06), rest);
  }

  lemma EndRead(kind: CheckField, src: seq<byte>, s: Tx, rest: seq<Event>)
    requires Waiting(src, s) && s.Ending?
    ensures TxReact(kind, src, s, [Byte(0x06)] + rest) == TxStep(Finished(s.len), [], Flushed(rest))
  {
    hide Flushed;
    Follows(Byte(0x06), rest);
  }

  lemma NextIs(kind: CheckField, src: seq<byte>, crc: bool, j: nat, stale: byte) returns (next: byte)
    requires j < Blocks(src)
    ensures 128 * j <= |src|
    ensures Acknowledged(kind, src, Sending(crc, SeqOf(j), 128 * j, 0, stale)) ==
            if j + 1 < Blocks(src) then Sending(crc, SeqOf(j + 1), 128 * (j + 1), 0, next)
            else Ending(128 * Blocks(src), 0)
    ensures kind == AsCoded && crc ==> next == 0
  {
    hide Block, Succ, SeqOf, Sum, Crc;
    MoreBlocksIff(src, j);
    MoreBlocksIff(src, j + 1);
    SeqOfUnfolds(j + 1);
    next := NextStale(kind, src, Sending(crc, SeqOf(j), 128 * j, 0, stale));
  }

  lemma EndSent(kind: CheckField, src: seq<byte>, len: nat, later: seq<Event>)
    ensures TxRun(kind, src, Ending(len, 0), [Byte(0x06), Timeout] + later) == TxRunResult(len, [0x04], later)
  {
    var ev := [Byte(0x06), Timeout] + later;
    assert ev == [Byte(0x06)] + ([Timeout] + later);
    EndRead(kind, src, Ending(len, 0), [Timeout] + later);
    Unfolds(kind, src, Ending(len, 0), ev);
    NothingMore([0x04]);
    Follows(Timeout, later);
    hide TxReact, TxRun;
  }

  lemma {:induction false} BlocksSent(kind: CheckField, src: seq<byte>, first: byte, crc: bool, j: nat, stale: byte,
                                      later: seq<Event>) returns (fs: seq<seq<byte>>)
    requires j < Blocks(src) && (kind == AsCoded && crc ==> stale == if j == 0 then first else 0)
    ensures |fs| == Blocks(src) - j && 128 * j <= |src|
    ensures forall i :: 0 <= i < |fs| ==> IsPacket(kind, src, first, crc, j + i, fs[i])
    ensures TxRun(kind, src, Sending(crc, SeqOf(j), 128 * j, 0, stale),
                  Acks(Blocks(src) - j) + ([Byte(0x06), Timeout] + later)) ==
            TxRunResult(128 * Blocks(src), Joined(fs) + [0x04], later)
    decreases Blocks(src) - j
  {
    hide TxRun, Frame, Block, SeqOf, TxReact, Acknowledged, IsPacket, Blocks;
    IsThePacket(kind, src, first, crc, j, stale);
    var s := Sending(crc, SeqOf(j), 128 * j, 0, stale);
    var f := Frame(kind, crc, SeqOf(j), Block(src, 128 * j), stale);
    var ending := [Byte(0x06), Timeout] + later;
    var rest := Acks(Blocks(src) - j - 1) + ending;
    assert Acks(Blocks(src) - j) + ending == [Byte(0x06)] + rest;
    AckRead(kind, src, s, rest);
    Unfolds(kind, src, s, [Byte(0x06)] + rest);
    var next := NextIs(kind, src, crc, j, stale);
    if j + 1 < Blocks(src) {
      var more := BlocksSent(kind, src, first, crc, j + 1, next, later);
      fs := [f] + more;
      FirstJoined(f, more);
    } else {
      assert rest == ending;
      EndSent(kind, src, 128 * Blocks(src), later);
      fs := [f];
      FirstJoined(f, []);
    }
  }

  lemma FirstJoined(f: seq<byte>, more: seq<seq<byte>>)
    ensures Joined([f] + more) == f + Joined(more) && [f] + [] == [f]
    ensures f + [] + (Joined(more) + [0x04]) == Joined([f] + more) + [0x04]
    ensures more == [] ==> f + [] + [0x04] == Joined([f]) + [0x04]
  {
    assert ([f] + more)[1..] == more;
  }

  /** A transfer with nothing lost: a request, an ACK for each packet and one for the EOT. The packets of the padded
      source go out once each and in order, and its length is returned. A C asks for the CRC, a NAK for the sum. */
  lemma PlainTransfer(kind: CheckField, src: seq<byte>, stale: byte, crc: bool, later: seq<Event>)
    returns (fs: seq<seq<byte>>)
    ensures |fs| == Blocks(src) && forall j :: 0 <= j < |fs| ==> IsPacket(kind, src, stale, crc, j, fs[j])
    ensures TxRun(kind, src, Syncing(0, stale),
                  [Byte(if crc then 0x43 else 0x15)] + (Acks(Blocks(src)) + ([Byte(0x06), Timeout] + later))) ==
            TxRunResult(128 * Blocks(src), Joined(fs) + [0x04], later)
  {
    var s := Syncing(0, stale);
    var rest := Acks(Blocks(src)) + ([Byte(0x06), Timeout] + later);
    var ev := [Byte(if crc then 0x43 else 0x15)] + rest;
    RequestRead(kind, src, stale, crc, rest);
    Unfolds(kind, src, s, ev);
    hide TxRun, TxReact, IsPacket, Frame, SeqOf, Blocks;
    fs := BlocksSent(kind, src, stale, crc, 0, stale, later);
    NothingBefore(Joined(fs) + [0x04]);
  }

  lemma NothingBefore(o: seq<byte>)
    ensures [] + [] + o == o
  {
  }

  lemma RequestRead(kind: CheckField, src: seq<byte>, stale: byte, crc: bool, rest: seq<Event>)
    ensures 0 < Blocks(src)
    ensures TxReact(kind, src, Syncing(0, stale), [Byte(if crc then 0x43 else 0x15)] + rest) ==
            TxStep(Sending(crc, SeqOf(0), 128 * 0, 0, stale), [], rest)
  {
    Follows(Byte(if crc then 0x43 else 0x15), rest);
  }
}
