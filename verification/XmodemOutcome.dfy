/** What the composed runs say about the two programs, and when a transfer can succeed at all. */
module XmodemOutcome {
  import opened Gf256
  import opened Crc16
  import opened XmodemPort
  import opened XmodemReceiver
  import opened XmodemReception
  import opened XmodemSender
  import opened XmodemPadding
  import opened XmodemLink

  /** All that the receiver read. */
  function Arrived(moves: seq<Move>): seq<Event> {
    if moves == [] then [] else Arrived(moves[..|moves| - 1]) + moves[|moves| - 1].f
  }

  /** All that the sender read. */
  function Answered(moves: seq<Move>): seq<Event> {
    if moves == [] then [] else Answered(moves[..|moves| - 1]) + moves[|moves| - 1].a
  }

  ghost predicate SameEnd(r: Run, s: Run) {
    r.status == s.status && r.calls == s.calls
  }

  /** The receiver's part of a composed run is the run of the receiver on what it read. */
  ghost predicate IsReceiverRun(l: Link, read: seq<Event>, more: seq<Event>) {
    var r := RxRun(START, read + more);
    if l.status.Running? || l.status.RetryExceeded? then SameEnd(r, RxRun(l.rx, more))
    else r.status == l.status && r.calls == l.rx.calls
  }

  lemma NoExhaustionInTurn(rx: Rx, f: seq<Event>)
    requires rx.retry > 0
    ensures RxStep(rx, f).status != RetryExceeded
  {
    hide ReadInput, Intact, Total;
  }

  lemma ReceiverTurn(rx: Rx, f: seq<Event>, more: seq<Event>)
    requires rx.retry > 0 && RxReads(rx, f)
    ensures var st := RxStep(rx, f);
            if st.status.Running? then SameEnd(RxRun(rx, f + more), RxRun(st.next, more))
            else RxRun(rx, f + more).status == st.status && RxRun(rx, f + more).calls == rx.calls
  {
    hide RxStep;
    assert RxStep(rx, f + more) == RxStep(rx, f).(rest := more);
  }

  lemma {:induction false} ReceiverRuns(kind: CheckField, src: seq<byte>, stack: byte, moves: seq<Move>, l: Link,
                                        more: seq<Event>)
    requires Reaches(kind, src, stack, moves, l)
    ensures IsReceiverRun(l, Arrived(moves), more)
  {
    hide RxRun, RxStep, RxReads, Arrival, TxReact, TxReads, Answer, RoundOutput;
    if moves == [] {
      assert [] + more == more;
    } else {
      var front, m := moves[..|moves| - 1], moves[|moves| - 1];
      var mid :| Reaches(kind, src, stack, front, mid) && Round(kind, src, mid, m.a, m.f, l);
      ReceiverRuns(kind, src, stack, front, mid, m.f + more);
      assert Arrived(front) + (m.f + more) == Arrived(moves) + more;
      RunningMeans(kind, src, stack, front, mid);
      if mid.status.Running? {
        ReceiverTurn(mid.rx, m.f, more);
        NoExhaustionInTurn(mid.rx, m.f);
      } else {
        assert m.f + more == more;
      }
    }
  }

  lemma RunningMeans(kind: CheckField, src: seq<byte>, stack: byte, moves: seq<Move>, l: Link)
    requires Reaches(kind, src, stack, moves, l)
    ensures l.status.Running? ==> l.rx.retry > 0
  {
    ReachesInv(kind, src, stack, moves, l);
    hide Prefix, Abreast, AckMeans;
  }

  lemma SenderTurn(kind: CheckField, src: seq<byte>, tx: Tx, a: seq<Event>, more: seq<Event>)
    requires Waiting(src, tx) && TxReads(kind, src, tx, a)
    ensures var st := TxReact(kind, src, tx, a);
            if st.next.Finished? then TxRun(kind, src, tx, a + more).code == st.next.code
            else Waiting(src, st.next) && TxRun(kind, src, tx, a + more).code == TxRun(kind, src, st.next, more).code
  {
    hide TxReact, TxOutput, Waiting;
    StillWaiting(kind, src, tx, a);
    assert TxReact(kind, src, tx, a + more) == TxReact(kind, src, tx, a).(rest := more);
  }

  /** The sender's part of a composed run is the run of the sender on what it read. */
  ghost predicate IsSenderRun(kind: CheckField, src: seq<byte>, stack: byte, l: Link, read: seq<Event>,
                              more: seq<Event>)
  {
    var r := TxRun(kind, src, Syncing(0, stack), read + more);
    if l.tx.Finished? then r.code == l.tx.code
    else Waiting(src, l.tx) && r.code == TxRun(kind, src, l.tx, more).code
  }

  lemma {:induction false} SenderRuns(kind: CheckField, src: seq<byte>, stack: byte, moves: seq<Move>, l: Link,
                                      more: seq<Event>)
    requires Reaches(kind, src, stack, moves, l)
    ensures IsSenderRun(kind, src, stack, l, Answered(moves), more)
  {
    hide TxRun, RxStep, RxReads, Arrival, TxReact, TxReads, Answer, RoundOutput;
    if moves == [] {
      assert [] + more == more;
    } else {
      var front, m := moves[..|moves| - 1], moves[|moves| - 1];
      var mid :| Reaches(kind, src, stack, front, mid) && Round(kind, src, mid, m.a, m.f, l);
      SenderRuns(kind, src, stack, front, mid, m.a + more);
      assert Answered(front) + (m.a + more) == Answered(moves) + more;
      if mid.tx.Finished? {
        assert m.a + more == more;
      } else {
        SenderTurn(kind, src, mid.tx, m.a, more);
        ForwardKeepsSender(mid, TxReact(kind, src, mid.tx, m.a).next, l);
      }
    }
  }

  lemma ForwardKeepsSender(l: Link, tx: Tx, l': Link)
    requires exists out, f :: Forward(l, tx, out, f, l')
    ensures l'.tx == tx
  {
    hide RxStep, Arrival, RxReads;
  }

  /** The composed results hold of the two programs: in any composed run in which the sender reports success, the
      receiver program on what it read, and whatever comes later, returns the same length and has delivered the padded
      source. */
  lemma ProgramsAgree(kind: CheckField, src: seq<byte>, stack: byte, moves: seq<Move>, l: Link, later: seq<Event>)
    requires Reaches(kind, src, stack, moves, l) && l.tx.Finished? && l.tx.code >= 0
    ensures TxRun(kind, src, Syncing(0, stack), Answered(moves) + later).code == |Padded(src)|
    ensures var r := RxRun(START, Arrived(moves) + later);
            r.status == Received(|Padded(src)|) && Delivered(r.calls) == Padded(src)
  {
    hide TxRun, RxRun;
    SuccessMeansDelivered(kind, src, stack, moves, l, src);
    ReceiverRuns(kind, src, stack, moves, l, later);
    SenderRuns(kind, src, stack, moves, l, later);
  }

  // When a transfer can succeed

  lemma AckReads(kind: CheckField, src: seq<byte>, tx: Tx)
    requires Waiting(src, tx) && tx.Sending?
    ensures Answer([ACK], [Byte(ACK)]) && TxReads(kind, src, tx, [Byte(ACK)])
    ensures TxReact(kind, src, tx, [Byte(ACK)]) == TxStep(Acknowledged(kind, src, tx), [], [])
  {
    hide NextStale, StartBlock;
    assert [Byte(ACK)] == Events([ACK]) + Silence(0);
    forall more: seq<Event> ensures Head([Byte(ACK)] + more) == Byte(ACK) && Tail([Byte(ACK)] + more) == more {
    }
  }

  lemma LetterReads(kind: CheckField, src: seq<byte>, tx: Tx)
    requires Waiting(src, tx) && tx.Syncing?
    ensures Answer([LETTER_C], [Byte(LETTER_C)]) && TxReads(kind, src, tx, [Byte(LETTER_C)])
    ensures TxReact(kind, src, tx, [Byte(LETTER_C)]) == TxStep(StartBlock(src, true, 1, 0, tx.stale), [], [])
  {
    hide StartBlock;
    assert [Byte(LETTER_C)] == Events([LETTER_C]) + Silence(0);
    forall more: seq<Event>
      ensures Head([Byte(LETTER_C)] + more) == Byte(LETTER_C) && Tail([Byte(LETTER_C)] + more) == more
    {
    }
  }

  lemma PacketReads(rx: Rx, kind: CheckField, packetno: byte, block: seq<byte>, stale: byte)
    requires rx.retry > 0 && UsesCrc(rx) && |block| == BLOCK && FieldRight(kind, block, stale)
    requires packetno == rx.seqnum || packetno == Pred(rx.seqnum)
    ensures RxReads(rx, Events(Frame(kind, true, packetno, block, stale)))
  {
    hide ReadInput, Intact, Total, Frame, FieldRight, Succ, Pred, UsesCrc;
    var frame := Frame(kind, true, packetno, block, stale);
    var ev := Events(frame);
    FrameIntact(kind, packetno, block, stale);
    assert ev + [] == ev;
    CrcFrameRead(rx, kind, packetno, block, stale, []);
    forall more: seq<Event> ensures RxStep(rx, ev + more) == RxStep(rx, ev).(rest := more) {
      CrcFrameRead(rx, kind, packetno, block, stale, more);
    }
  }

  /** Block j is being sent, has been taken and its acknowledgement is on the way. */
  ghost predicate AtBlock(kind: CheckField, src: seq<byte>, stack: byte, l: Link, j: nat) {
    && j < Blocks(src) && l.status.Running? && l.pending == [ACK] && |l.rx.calls| == j + 1
    && l.tx == Sending(true, SeqOf(j), BLOCK * j, 0, StaleAt(kind, src, stack, j))
  }

  /** A round in which a packet with the right field gets through. */
  lemma PacketRound(kind: CheckField, src: seq<byte>, l: Link, a: seq<Event>, tx: Tx)
    returns (f: seq<Event>, l': Link)
    requires l.status.Running? && l.rx.retry > 0 && UsesCrc(l.rx)
    requires Waiting(src, l.tx) && Answer(l.pending, a) && TxReads(kind, src, l.tx, a)
    requires TxReact(kind, src, l.tx, a) == TxStep(tx, [], []) && Waiting(src, tx) && tx.Sending? && tx.crc
    requires FieldRight(kind, Block(src, tx.len), tx.stale)
    requires tx.packetno == l.rx.seqnum || tx.packetno == Pred(l.rx.seqnum)
    ensures f == Events(TxOutput(kind, src, tx)) + Silence(0)
    ensures Round(kind, src, l, a, f, l')
    ensures l'.tx == tx && l'.status == Running && UsesCrc(l'.rx) && l'.rx.retry > 0 && l'.pending == [ACK]
    ensures if tx.packetno == l.rx.seqnum then
              |l'.rx.calls| == |l.rx.calls| + 1 && l'.rx.seqnum == Succ(l.rx.seqnum) && l'.rx.retry == RETRY_LIMIT
            else l'.rx == l.rx.(response := l'.rx.response, crcflag := l'.rx.crcflag, pktsize := l'.rx.pktsize)
  {
    hide Frame, Events, Receive, Answer, TxReads, RxReads, TxReact, Intact, FieldRight, Block, UsesCrc, Succ, Pred;
    var block := Block(src, tx.len);
    OutputOf(kind, src, tx);
    f := Events(Frame(kind, true, tx.packetno, block, tx.stale));
    PacketReads(l.rx, kind, tx.packetno, block, tx.stale);
    NoSilence(f);
    PacketArrives(l, tx, kind, true, tx.packetno, block, tx.stale, f, 0);
    l' := Receive(l, tx, f);
    assert Arrival(l.rx, Frame(kind, true, tx.packetno, block, tx.stale), f);
  }

  /** A round on a perfect line in which block j is sent for the first time and taken. */
  lemma SendsBlock(kind: CheckField, src: seq<byte>, stack: byte, moves: seq<Move>, l: Link, a: seq<Event>, j: nat)
    returns (l': Link)
    requires Reaches(kind, src, stack, moves, l) && l.status.Running? && |l.rx.calls| == j && j < Blocks(src)
    requires PacketRight(kind, src, stack, j)
    requires Waiting(src, l.tx) && Answer(l.pending, a) && TxReads(kind, src, l.tx, a)
    requires TxReact(kind, src, l.tx, a) ==
             TxStep(Sending(true, SeqOf(j), BLOCK * j, 0, StaleAt(kind, src, stack, j)), [], [])
    ensures exists f :: Reaches(kind, src, stack, moves + [Move(a, f)], l')
    ensures AtBlock(kind, src, stack, l', j)
  {
    hide SeqOf, StaleAt, Answer, TxReads, TxReact, FieldRight, Padded, Block, UsesCrc, Succ, Pred, Round;
    MoreBlocksIff(src, j);
    var tx := Sending(true, SeqOf(j), BLOCK * j, 0, StaleAt(kind, src, stack, j));
    ReachesFacts(kind, src, stack, moves, l);
    var f;
    f, l' := PacketRound(kind, src, l, a, tx);
    OneMore(kind, src, stack, moves, l, Move(a, f), l');
  }

  lemma NoSilence(f: seq<Event>)
    ensures f == f + Silence(0)
  {
  }

  lemma OutputOf(kind: CheckField, src: seq<byte>, tx: Tx)
    requires tx.Sending? && Waiting(src, tx)
    ensures [] + TxOutput(kind, src, tx) == Frame(kind, tx.crc, tx.packetno, Block(src, tx.len), tx.stale)
  {
    hide Frame, Block;
  }

  lemma OneMore(kind: CheckField, src: seq<byte>, stack: byte, moves: seq<Move>, l: Link, m: Move, l': Link)
    requires Reaches(kind, src, stack, moves, l) && Round(kind, src, l, m.a, m.f, l')
    ensures Reaches(kind, src, stack, moves + [m], l')
  {
    hide Round;
    var all := moves + [m];
    assert all[..|all| - 1] == moves && all[|all| - 1] == m;
    assert Reaches(kind, src, stack, all[..|all| - 1], l);
  }

  lemma ReachesFacts(kind: CheckField, src: seq<byte>, stack: byte, moves: seq<Move>, l: Link)
    requires Reaches(kind, src, stack, moves, l)
    ensures l.status.Running? ==> UsesCrc(l.rx) && l.rx.retry > 0
    ensures l.rx.seqnum == SeqOf(|l.rx.calls|)
  {
    ReachesInv(kind, src, stack, moves, l);
    hide Abreast, AckMeans, PacketRight, Padded, UsesCrc, SeqOf;
  }

  lemma {:induction false} ReachesBlock(kind: CheckField, src: seq<byte>, stack: byte, j: nat)
    returns (moves: seq<Move>, l: Link)
    requires j < Blocks(src) && forall i :: 0 <= i <= j ==> PacketRight(kind, src, stack, i)
    ensures Reaches(kind, src, stack, moves, l) && AtBlock(kind, src, stack, l, j)
  {
    hide PacketRight, TxReact, TxReads, Answer, Reaches, CheckBytes, Block, SeqOf, StaleAt;
    var before, front: seq<Move>, a;
    if j == 0 {
      front, before, a := [], InitLink(stack), [Byte(LETTER_C)];
      Starts(kind, src, stack);
      LetterReads(kind, src, Syncing(0, stack));
    } else {
      front, before := ReachesBlock(kind, src, stack, j - 1);
      a := [Byte(ACK)];
      MoreBlocksIff(src, j);
      AckReads(kind, src, before.tx);
      NextBlock(kind, src, stack, j);
    }
    l := SendsBlock(kind, src, stack, front, before, a, j);
    var f :| Reaches(kind, src, stack, front + [Move(a, f)], l);
    moves := front + [Move(a, f)];
  }

  lemma Starts(kind: CheckField, src: seq<byte>, stack: byte)
    ensures Reaches(kind, src, stack, [], InitLink(stack))
    ensures StartBlock(src, true, 1, 0, stack) == Sending(true, SeqOf(0), BLOCK * 0, 0, StaleAt(kind, src, stack, 0))
  {
  }

  lemma NextBlock(kind: CheckField, src: seq<byte>, stack: byte, j: nat)
    requires 0 < j < Blocks(src)
    ensures var tx := Sending(true, SeqOf(j - 1), BLOCK * (j - 1), 0, StaleAt(kind, src, stack, j - 1));
            tx.len <= |src| &&
            Acknowledged(kind, src, tx) == Sending(true, SeqOf(j), BLOCK * j, 0, StaleAt(kind, src, stack, j))
  {
    hide CheckBytes, Block, Succ;
    MoreBlocksIff(src, j - 1);
    MoreBlocksIff(src, j);
    SeqOfUnfolds(j);
  }

  /** Every packet the sender builds has the CRC of its block in it. */
  ghost predicate AllRight(kind: CheckField, src: seq<byte>, stack: byte) {
    forall j :: 0 <= j < Blocks(src) ==> PacketRight(kind, src, stack, j)
  }

  /** Some behaviour of the line lets the sender report success. */
  ghost predicate CanSucceed(kind: CheckField, src: seq<byte>, stack: byte) {
    exists moves, l :: Reaches(kind, src, stack, moves, l) && l.tx.Finished? && l.tx.code >= 0
  }

  lemma SuccessNeedsAllRight(kind: CheckField, src: seq<byte>, stack: byte, moves: seq<Move>, l: Link)
    requires Reaches(kind, src, stack, moves, l) && l.tx.Finished? && l.tx.code >= 0
    ensures AllRight(kind, src, stack)
  {
    ReachesInv(kind, src, stack, moves, l);
    hide PacketRight, Padded;
  }

  lemma EotReads(rx: Rx)
    requires rx.retry > 0
    ensures RxReads(rx, Events([EOT]) + Silence(1))
  {
    hide Total;
    var ev := Events([EOT]) + Silence(1);
    assert ev == [Byte(EOT), Timeout];
    forall more: seq<Event> ensures RxStep(rx, ev + more) == RxStep(rx, ev).(rest := more) {
      EotThenSilence(rx, more);
      EotThenSilence(rx, []);
      assert ev + [] == ev;
    }
  }

  lemma EotThenSilence(rx: Rx, more: seq<Event>)
    requires rx.retry > 0
    ensures RxStep(rx, [Byte(EOT), Timeout] + more) == Step(rx, Received(Total(rx.calls)), [ACK], more)
  {
    hide Total;
    var ev := [Byte(EOT), Timeout] + more;
    assert Tail(ev) == [Timeout] + more;
    assert Tail([Timeout] + more) == more;
  }

  lemma LastAckReads(kind: CheckField, src: seq<byte>, tx: Tx)
    requires Waiting(src, tx) && tx.Ending?
    ensures Answer([ACK], [Byte(ACK), Timeout]) && TxReads(kind, src, tx, [Byte(ACK), Timeout])
    ensures TxReact(kind, src, tx, [Byte(ACK), Timeout]).next == Finished(tx.len)
  {
    var a := [Byte(ACK), Timeout];
    assert a == Events([ACK]) + Silence(1);
    forall more: seq<Event> ensures TxReact(kind, src, tx, a + more) == TxReact(kind, src, tx, a).(rest := more) {
      assert Tail(a + more) == [Timeout] + more && Tail([Timeout] + more) == more;
      assert Tail(a) == [Timeout] && Tail([Timeout]) == [];
    }
  }

  /** A round in which the EOT gets through. */
  lemma EotRound(kind: CheckField, src: seq<byte>, l: Link, a: seq<Event>, tx: Tx) returns (f: seq<Event>, l': Link)
    requires l.status.Running? && l.rx.retry > 0
    requires Waiting(src, l.tx) && Answer(l.pending, a) && TxReads(kind, src, l.tx, a)
    requires TxReact(kind, src, l.tx, a) == TxStep(tx, [], []) && Waiting(src, tx) && tx.Ending?
    ensures f == Events([EOT]) + Silence(1)
    ensures Round(kind, src, l, a, f, l') && l' == Link(tx, l.rx, Received(Total(l.rx.calls)), [ACK])
  {
    hide TxReact, TxReads, RxReads, Answer, Receive, Total;
    f := Events([EOT]) + Silence(1);
    EotReads(l.rx);
    EndArrives(l, tx, f, 1);
    l' := Receive(l, tx, f);
    assert Arrival(l.rx, [EOT], f);
    assert [] + TxOutput(kind, src, tx) == [EOT];
  }

  /** The round in which the last acknowledgement is read. */
  lemma LastRound(kind: CheckField, src: seq<byte>, l: Link) returns (l': Link)
    requires Waiting(src, l.tx) && l.tx.Ending? && l.status.Received? && l.pending == [ACK]
    ensures Round(kind, src, l, [Byte(ACK), Timeout], [], l') && l' == Link(Finished(l.tx.len), l.rx, l.status, [])
  {
    hide TxReact, TxReads, Answer;
    LastAckReads(kind, src, l.tx);
    l' := Link(Finished(l.tx.len), l.rx, l.status, []);
  }

  /** After the last block: the end is announced and acknowledged. */
  lemma Ends(kind: CheckField, src: seq<byte>, stack: byte, moves: seq<Move>, l: Link)
    requires Reaches(kind, src, stack, moves, l) && AtBlock(kind, src, stack, l, Blocks(src) - 1)
    ensures CanSucceed(kind, src, stack)
  {
    hide Reaches, Round, TxReact, TxReads, Answer, SeqOf, StaleAt, CheckBytes, Block, Total, Padded;
    var n := Blocks(src);
    MoreBlocksIff(src, n - 1);
    MoreBlocksIff(src, n);
    ReachesFacts(kind, src, stack, moves, l);
    AckReads(kind, src, l.tx);
    var tx := Acknowledged(kind, src, l.tx);
    var f, l1 := EotRound(kind, src, l, [Byte(ACK)], tx);
    OneMore(kind, src, stack, moves, l, Move([Byte(ACK)], f), l1);
    var moves1 := moves + [Move([Byte(ACK)], f)];
    var l2 := LastRound(kind, src, l1);
    OneMore(kind, src, stack, moves1, l1, Move([Byte(ACK), Timeout], []), l2);
    assert Reaches(kind, src, stack, moves1 + [Move([Byte(ACK), Timeout], [])], l2);
  }

  /** A transfer can succeed exactly when every packet carries the CRC of its block, and then it does on a line that
      loses nothing. */
  lemma SucceedsIffAllRight(kind: CheckField, src: seq<byte>, stack: byte)
    ensures CanSucceed(kind, src, stack) <==> AllRight(kind, src, stack)
  {
    hide Reaches, PacketRight, AtBlock;
    if CanSucceed(kind, src, stack) {
      var moves, l :| Reaches(kind, src, stack, moves, l) && l.tx.Finished? && l.tx.code >= 0;
      SuccessNeedsAllRight(kind, src, stack, moves, l);
    }
    if AllRight(kind, src, stack) {
      var moves, l := ReachesBlock(kind, src, stack, Blocks(src) - 1);
      Ends(kind, src, stack, moves, l);
    }
  }

  /** With the CRC that crc_xmodem_update computes in the field, every source can be sent. */
  lemma IntendedSucceeds(src: seq<byte>, stack: byte)
    ensures CanSucceed(Intended, src, stack)
  {
    forall j | 0 <= j < Blocks(src) ensures PacketRight(Intended, src, stack, j) {
      MoreBlocksIff(src, j);
      IntendedIsRight(Block(src, BLOCK * j), StaleAt(Intended, src, stack, j));
    }
    SucceedsIffAllRight(Intended, src, stack);
  }

  /** What the code puts in the field is 0 or 1, so it is right for block j exactly when the CRC of the block is 1 and
      its 8-bit sum equals the byte the buffer held behind it (0 from the second block on), or the CRC is 0 and it does
      not. */
  lemma AsCodedRightIff(src: seq<byte>, stack: byte, j: nat)
    requires j < Blocks(src)
    ensures StaleAt(AsCoded, src, stack, j) == if j == 0 then stack else 0
    ensures BLOCK * j <= |src| &&
            var block := Block(src, BLOCK * j);
            PacketRight(AsCoded, src, stack, j) <==>
              Crc(0, block) == if Sum(0, block) == (if j == 0 then stack else 0) then 1 else 0
  {
    hide Crc, Sum, Block;
    MoreBlocksIff(src, j);
    SmallWords();
  }

  /** The CRC of block j is 1 and its 8-bit sum the byte the buffer held behind it, or the CRC is 0 and the sum is not;
      that byte is what lay on the stack for the first block and 0 for the others. */
  predicate CrcIsBit(src: seq<byte>, stack: byte, j: nat)
    requires j < Blocks(src)
  {
    var block, stale := Padded(src)[BLOCK * j..BLOCK * (j + 1)], if j == 0 then stack else 0;
    Crc(0, block) == if Sum(0, block) == stale then 1 else 0
  }

  lemma CodedRightIff(src: seq<byte>, stack: byte, j: nat)
    requires j < Blocks(src)
    ensures PacketRight(AsCoded, src, stack, j) <==> CrcIsBit(src, stack, j)
  {
    hide Crc, Sum, Block, Padded, PacketRight;
    MoreBlocksIff(src, j);
    BlockOfPadded(src, j);
    AsCodedRightIff(src, stack, j);
  }

  /** The code as it is can send a source exactly when that holds of each of its blocks. */
  lemma AsCodedSucceedsIff(src: seq<byte>, stack: byte)
    ensures CanSucceed(AsCoded, src, stack) <==> forall j :: 0 <= j < Blocks(src) ==> CrcIsBit(src, stack, j)
  {
    hide CanSucceed, CrcIsBit, PacketRight;
    SucceedsIffAllRight(AsCoded, src, stack);
    forall j | 0 <= j < Blocks(src) ensures PacketRight(AsCoded, src, stack, j) <==> CrcIsBit(src, stack, j) {
      CodedRightIff(src, stack, j);
    }
  }

  lemma SmallWords()
    ensures Word(0, 0) == 0 && Word(0, 1) == 1
  {
  }

  lemma {:induction false} CrcOfZeros(n: nat)
    ensures Crc(0, ZeroBytes(n)) == 0
  {
    if n > 0 {
      assert ZeroBytes(n)[1..] == ZeroBytes(n - 1);
      UpdateZero();
      CrcOfZeros(n - 1);
    }
  }

  lemma UpdateZero()
    ensures Update(0, 0) == 0 && Update(0, 1) == 0x1021
  {
  }

  /** One block of zeros that ends in 1 cannot be sent by the code as it is, whatever the stack held. */
  lemma AsCodedFails(stack: byte)
    ensures !CanSucceed(AsCoded, ZeroBytes(127) + [1], stack)
  {
    var src := ZeroBytes(127) + [1];
    var block := Block(src, 0);
    assert block == src;
    CrcOfZeros(127);
    CrcJoin(0, ZeroBytes(127), [1]);
    UpdateZero();
    assert Crc(0, [1]) == Crc(Update(0, 1), []) by { CrcOne(); }
    hide Crc, Sum, Update;
    AsCodedRightIff(src, stack, 0);
    SucceedsIffAllRight(AsCoded, src, stack);
  }

  lemma CrcOne()
    ensures Crc(0, [1]) == Crc(Update(0, 1), []) == Update(0, 1)
  {
    hide Update;
    assert [1 as byte][1..] == [];
  }
}
