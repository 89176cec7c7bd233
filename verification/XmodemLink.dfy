/** The two ends joined by a line that may lose or detectably damage what either of them sends, but does not delay it.

    In one round the sender reads an answer and sends; the receiver takes what arrives and answers. The events each end
    reads are those of its own program: a round is one step of TxRun and one of RxRun. */
module XmodemLink {
  import opened Gf256
  import opened Crc16
  import opened XmodemPort
  import opened XmodemReceiver
  import opened XmodemReception
  import opened XmodemSender
  import opened XmodemPadding

  /** pending is what the receiver has sent since the sender last read. */
  datatype Link = Link(tx: Tx, rx: Rx, status: Status, pending: seq<byte>)

  function InitLink(stack: byte): Link {
    Link(Syncing(0, stack), START, Running, Sent(START.response))
  }

  function Events(bytes: seq<byte>): (ev: seq<Event>)
    ensures |ev| == |bytes|
  {
    seq(|bytes|, i requires 0 <= i < |bytes| => Byte(bytes[i]))
  }

  function Silence(n: nat): (ev: seq<Event>)
    ensures |ev| == n
  {
    seq(n, i => Timeout)
  }

  /** Damage that shows: an answer becomes a byte that is none of the protocol's answers. */
  predicate Harmless(b: byte) {
    b != ACK && b != NAK && b != CAN && b != LETTER_C
  }

  /** What the sender may read after the receiver has sent some bytes: these, nothing, or something damaged. */
  ghost predicate Answer(pending: seq<byte>, ev: seq<Event>) {
    || (exists n :: ev == Events(pending) + Silence(n))
    || (exists n :: ev == Silence(n))
    || (Head(ev).Byte? && Harmless(Head(ev).b))
  }

  /** Damage to a packet that shows: it does not get through, or fails its checks. */
  predicate Rejected(rx: Rx, ev: seq<Event>) {
    match ReadInput(rx, ev)
    case Cut(_, _) => true
    case Packet(size, packet, _) => !Intact(packet, size, UsesCrc(rx))
    case _ => false
  }

  ghost predicate Arrival(rx: Rx, out: seq<byte>, ev: seq<Event>) {
    || (exists n :: ev == Events(out) + Silence(n))
    || (exists n :: ev == Silence(n))
    || Rejected(rx, ev)
  }

  /** The end reads exactly these events and nothing that comes later. */
  ghost predicate TxReads(kind: CheckField, src: seq<byte>, tx: Tx, ev: seq<Event>)
    requires Waiting(src, tx)
  {
    forall more :: TxReact(kind, src, tx, ev + more) == TxReact(kind, src, tx, ev).(rest := more)
  }

  ghost predicate RxReads(rx: Rx, ev: seq<Event>)
    requires rx.retry > 0
  {
    forall more :: RxStep(rx, ev + more) == RxStep(rx, ev).(rest := more)
  }

  /** The receiver after one turn, with what it sends before it reads again. */
  function Receive(l: Link, tx: Tx, ev: seq<Event>): Link
    requires l.rx.retry > 0
  {
    var st := RxStep(l.rx, ev);
    if !st.status.Running? then Link(tx, l.rx, st.status, st.out)
    else if st.next.retry == 0 then Link(tx, st.next, RetryExceeded, st.out + [CAN, CAN, CAN])
    else Link(tx, st.next, Running, st.out + Sent(st.next.response))
  }

  /** What the sender sends in a round in which it goes from waiting to next. */
  function RoundOutput(kind: CheckField, src: seq<byte>, st: TxStep): seq<byte>
    requires Waiting(src, st.next) || st.next.Finished?
  {
    st.out + if st.next.Finished? then [] else TxOutput(kind, src, st.next)
  }

  /** One round: a is read by the sender, f by the receiver. An end that has finished reads nothing. */
  ghost predicate Round(kind: CheckField, src: seq<byte>, l: Link, a: seq<Event>, f: seq<Event>, l': Link) {
    || (&& Waiting(src, l.tx) && Answer(l.pending, a) && TxReads(kind, src, l.tx, a)
        && var st := TxReact(kind, src, l.tx, a);
           (StillWaiting(kind, src, l.tx, a);
            Forward(l, st.next, RoundOutput(kind, src, st), f, l')))
    || (l.tx.Finished? && a == [] && Forward(l, l.tx, [], f, l'))
  }

  ghost predicate Forward(l: Link, tx: Tx, out: seq<byte>, f: seq<Event>, l': Link) {
    if l.status.Running? && l.rx.retry > 0 then
      Arrival(l.rx, out, f) && RxReads(l.rx, f) && l' == Receive(l, tx, f)
    else f == [] && l' == Link(tx, l.rx, l.status, [])
  }

  datatype Move = Move(a: seq<Event>, f: seq<Event>)

  /** The links reached by a sequence of rounds. */
  ghost predicate Reaches(kind: CheckField, src: seq<byte>, stack: byte, moves: seq<Move>, l: Link) {
    if moves == [] then l == InitLink(stack)
    else
      var m := moves[|moves| - 1];
      exists mid :: Reaches(kind, src, stack, moves[..|moves| - 1], mid) && Round(kind, src, mid, m.a, m.f, l)
  }

  // What a packet that gets through does

  lemma {:induction false} CollectEvents(bytes: seq<byte>, rest: seq<Event>, m: nat)
    requires m <= |bytes|
    ensures Collect(Events(bytes) + rest, m) == All(bytes[..m], Events(bytes[m..]) + rest)
    decreases m
  {
    if m == 0 {
      assert bytes[0..] == bytes;
    } else {
      assert (Events(bytes) + rest)[1..] == Events(bytes[1..]) + rest;
      CollectEvents(bytes[1..], rest, m - 1);
      assert bytes[1..][m - 1..] == bytes[m..];
      assert [bytes[0]] + bytes[1..][..m - 1] == bytes[..m];
    }
  }

  lemma {:induction false} CollectShort(bytes: seq<byte>, n: nat, m: nat)
    requires m > |bytes|
    ensures Collect(Events(bytes) + Silence(n), m).Missing?
    decreases m
  {
    if bytes != [] {
      assert (Events(bytes) + Silence(n))[1..] == Events(bytes[1..]) + Silence(n);
      CollectShort(bytes[1..], n, m - 1);
    } else {
      assert Events(bytes) + Silence(n) == Silence(n);
    }
  }

  lemma EventsTail(bytes: seq<byte>, n: nat)
    requires bytes != []
    ensures Head(Events(bytes) + Silence(n)) == Byte(bytes[0])
    ensures Tail(Events(bytes) + Silence(n)) == Events(bytes[1..]) + Silence(n)
  {
  }

  /** With the CRC the packet is read whole, whatever follows. */
  lemma CrcFrameRead(rx: Rx, kind: CheckField, packetno: byte, block: seq<byte>, stale: byte, rest: seq<Event>)
    requires |block| == BLOCK && UsesCrc(rx)
    ensures var frame := Frame(kind, true, packetno, block, stale);
            ReadInput(rx, Events(frame) + rest) == Packet(BLOCK, frame, rest)
  {
    hide CheckBytes, Collect, Complement;
    var frame := Frame(kind, true, packetno, block, stale);
    var ev := Events(frame) + rest;
    assert Head(ev) == Byte(SOH) && Tail(ev) == Events(frame[1..]) + rest;
    CollectEvents(frame[1..], rest, 132);
    assert frame[1..][..132] == frame[1..] && frame[1..][132..] == [];
    assert Events([]) + rest == rest;
    assert [frame[0]] + frame[1..] == frame;
  }

  /** Without it one byte is missing. */
  lemma FrameRead(rx: Rx, kind: CheckField, crc: bool, packetno: byte, block: seq<byte>, stale: byte, n: nat)
    requires |block| == BLOCK && UsesCrc(rx)
    ensures var frame := Frame(kind, crc, packetno, block, stale);
            var r := ReadInput(rx, Events(frame) + Silence(n));
            if crc then r == Packet(BLOCK, frame, Silence(n)) else r.Cut? && r.size == BLOCK
  {
    hide CheckBytes, Collect, Complement;
    if crc {
      CrcFrameRead(rx, kind, packetno, block, stale, Silence(n));
    } else {
      var frame := Frame(kind, crc, packetno, block, stale);
      EventsTail(frame, n);
      CollectShort(frame[1..], n, 132);
    }
  }

  /** The two bytes behind the block are its CRC. */
  predicate FieldRight(kind: CheckField, block: seq<byte>, stale: byte) {
    var c := CheckBytes(kind, true, block, stale);
    Crc(0, block) == Word(c[0], c[1])
  }

  lemma ComplementTwice(b: byte)
    ensures Complement(Complement(b)) == b
  {
  }

  lemma FrameIntact(kind: CheckField, packetno: byte, block: seq<byte>, stale: byte)
    requires |block| == BLOCK
    ensures var frame := Frame(kind, true, packetno, block, stale);
            frame[1] == packetno && frame[3..131] == block &&
            (Intact(frame, BLOCK, true) <==> FieldRight(kind, block, stale))
  {
    hide CheckBytes, Crc, Word, Complement;
    var frame := Frame(kind, true, packetno, block, stale);
    var c := CheckBytes(kind, true, block, stale);
    assert frame[3..] == block + c;
    assert frame[3..][..BLOCK] == block && frame[3..][BLOCK] == c[0] && frame[3..][BLOCK + 1] == c[1];
    assert frame[2] == Complement(packetno);
    ComplementTwice(packetno);
  }

  /** In the intended mode every block's field is right. */
  lemma IntendedIsRight(block: seq<byte>, stale: byte)
    ensures FieldRight(Intended, block, stale)
  {
    hide Crc, High, Low, Word;
    WordOfBytes(Crc(0, block));
  }

  // What every reachable link satisfies

  /** What the buffer holds behind the block when packet j is built. */
  function StaleAt(kind: CheckField, src: seq<byte>, stack: byte, j: nat): byte
    requires j < Blocks(src)
  {
    if j == 0 then stack
    else
      MoreBlocksIff(src, j - 1);
      CheckBytes(kind, true, Block(src, BLOCK * (j - 1)), StaleAt(kind, src, stack, j - 1))[0]
  }

  predicate PacketRight(kind: CheckField, src: seq<byte>, stack: byte, j: nat)
    requires j < Blocks(src)
  {
    MoreBlocksIff(src, j);
    FieldRight(kind, Block(src, BLOCK * j), StaleAt(kind, src, stack, j))
  }

  ghost predicate AckPending(l: Link) {
    l.pending != [] && l.pending[0] == ACK
  }

  /** What the receiver has delivered. */
  ghost predicate Prefix(kind: CheckField, src: seq<byte>, stack: byte, rx: Rx) {
    var k := |rx.calls|;
    && k <= Blocks(src) && Delivered(rx.calls) == Padded(src)[..BLOCK * k] && rx.seqnum == SeqOf(k)
    && forall j :: 0 <= j < k ==> PacketRight(kind, src, stack, j)
  }

  /** What the receiver's outcome says. */
  ghost predicate StatusOk(src: seq<byte>, l: Link) {
    match l.status
    case Running => UsesCrc(l.rx) && l.rx.retry > 0
    case Received(total) =>
      |l.rx.calls| == Blocks(src) && total == BLOCK * Blocks(src) && (l.tx.Ending? || l.tx.Finished?)
    case RemoteCancel => l.tx.Finished?
    case OutOfSync => false
    case RetryExceeded => true
  }

  /** How far the sender and the receiver may be apart. */
  ghost predicate Abreast(kind: CheckField, src: seq<byte>, stack: byte, tx: Tx, rx: Rx, status: Status) {
    var k := |rx.calls|;
    match tx
    case Syncing(tries, stale) => tries < SYNC_TRIES && stale == stack && k == 0
    case Sending(crc, packetno, len, tries, stale) =>
      var j := len / BLOCK;
      && tries < RETRY_LIMIT && len == BLOCK * j && j < Blocks(src)
      && packetno == SeqOf(j) && stale == StaleAt(kind, src, stack, j)
      && (k == j || k == j + 1) && (!crc ==> k == 0)
    case Ending(len, tries) => tries < END_TRIES && len == BLOCK * Blocks(src) && k == Blocks(src)
    case Finished(code) => code >= 0 ==> status.Received? && code == BLOCK * Blocks(src)
  }

  /** An acknowledgement on its way is for what the sender is waiting to have acknowledged. */
  ghost predicate AckMeans(l: Link) {
    AckPending(l) ==>
      match l.tx
      case Syncing(_, _) => false
      case Sending(_, _, len, _, _) => |l.rx.calls| == len / BLOCK + 1
      case Ending(_, _) => l.status.Received?
      case Finished(_) => true
  }

  ghost predicate Inv(kind: CheckField, src: seq<byte>, stack: byte, l: Link) {
    && Prefix(kind, src, stack, l.rx) && StatusOk(src, l)
    && Abreast(kind, src, stack, l.tx, l.rx, l.status) && AckMeans(l)
  }

  lemma InitInv(kind: CheckField, src: seq<byte>, stack: byte)
    ensures Inv(kind, src, stack, InitLink(stack))
  {
    hide Block, PacketRight;
    assert Padded(src)[..0] == [];
  }

  lemma EventsHead(bytes: seq<byte>, n: nat)
    ensures Head(Events(bytes) + Silence(n)) == if bytes == [] then Timeout else Byte(bytes[0])
  {
  }

  /** An acknowledgement is read only if one was sent. */
  lemma AckWasSent(l: Link, a: seq<Event>)
    requires Answer(l.pending, a) && Head(a) == Byte(ACK)
    ensures AckPending(l)
  {
    if n :| a == Events(l.pending) + Silence(n) {
      EventsHead(l.pending, n);
    }
  }

  /** The sender's end of l, with the receiver's data as it was and an answer that is not ACK. */
  ghost predicate Unchanged(l: Link, tx: Tx, l': Link) {
    && l'.tx == tx && l'.rx.calls == l.rx.calls && l'.rx.seqnum == l.rx.seqnum && !AckPending(l')
    && (l'.status == RetryExceeded || (l'.status == Running && UsesCrc(l'.rx) && l'.rx.retry > 0))
  }

  lemma SilenceArrives(l: Link, tx: Tx, f: seq<Event>, n: nat)
    requires UsesCrc(l.rx) && l.rx.retry > 0 && f == Silence(n)
    ensures Unchanged(l, tx, Receive(l, tx, f))
  {
    hide ReadPacket, Flushed;
    assert Head(f) == Timeout;
  }

  lemma DamageArrives(l: Link, tx: Tx, f: seq<Event>)
    requires UsesCrc(l.rx) && l.rx.retry > 0 && Rejected(l.rx, f)
    ensures Unchanged(l, tx, Receive(l, tx, f))
  {
    hide Intact, ReadInput, Flushed;
  }

  lemma EndArrives(l: Link, tx: Tx, f: seq<Event>, n: nat)
    requires l.rx.retry > 0 && f == Events([EOT]) + Silence(n)
    ensures Receive(l, tx, f) == Link(tx, l.rx, Received(Total(l.rx.calls)), [ACK])
  {
    assert Head(f) == Byte(EOT);
  }

  lemma SeqOfDiffers(k: nat)
    ensures Pred(SeqOf(k + 1)) == SeqOf(k) && SeqOf(k) != SeqOf(k + 1)
  {
    hide SeqOf;
    SeqOfUnfolds(k + 1);
    PredSucc(SeqOf(k));
  }

  lemma PredSucc(b: byte)
    ensures Pred(Succ(b)) == b && Succ(b) != b
  {
  }

  /** A packet that gets through unchanged is refused, accepted or, when it is a repeat, acknowledged again. */
  lemma PacketArrives(l: Link, tx: Tx, kind: CheckField, crc: bool, packetno: byte, block: seq<byte>, stale: byte,
                      f: seq<Event>, n: nat)
    requires UsesCrc(l.rx) && l.rx.retry > 0 && |block| == BLOCK
    requires f == Events(Frame(kind, crc, packetno, block, stale)) + Silence(n)
    requires packetno == l.rx.seqnum || packetno == Pred(l.rx.seqnum)
    ensures !crc || !FieldRight(kind, block, stale) ==> Rejected(l.rx, f)
    ensures crc && FieldRight(kind, block, stale) ==>
              var l' := Receive(l, tx, f);
              && l'.tx == tx && l'.status == Running && UsesCrc(l'.rx) && l'.rx.retry > 0 && l'.pending == [ACK]
              && if packetno == l.rx.seqnum then
                   |l'.rx.calls| == |l.rx.calls| + 1 && l'.rx.calls[..|l.rx.calls|] == l.rx.calls &&
                   l'.rx.calls[|l.rx.calls|].data == block && l'.rx.seqnum == Succ(l.rx.seqnum) &&
                   l'.rx.retry == RETRY_LIMIT
                 else l'.rx.calls == l.rx.calls && l'.rx.seqnum == l.rx.seqnum && l'.rx.retry == l.rx.retry
  {
    hide Intact, ReadInput, Frame, FieldRight, Total, Succ, Pred;
    var frame := Frame(kind, crc, packetno, block, stale);
    FrameRead(l.rx, kind, crc, packetno, block, stale, n);
    if crc {
      FrameIntact(kind, packetno, block, stale);
      if FieldRight(kind, block, stale) && packetno == l.rx.seqnum {
        var d := Delivery(Total(l.rx.calls), frame[3..131], frame);
        assert (l.rx.calls + [d])[..|l.rx.calls|] == l.rx.calls;
      }
    }
  }

  /** After its reaction the sender is still in step with the receiver, whatever it read. */
  lemma SenderStep(kind: CheckField, src: seq<byte>, stack: byte, l: Link, a: seq<Event>)
    requires Inv(kind, src, stack, l) && Waiting(src, l.tx) && Answer(l.pending, a)
    ensures var tx := TxReact(kind, src, l.tx, a).next;
            Abreast(kind, src, stack, tx, l.rx, l.status) && StatusOk(src, l.(tx := tx))
  {
    hide Prefix, Padded, SeqOf, Succ, CheckBytes, Block, StaleAt, Answer, Flushed, UsesCrc;
    if Head(a) == Byte(ACK) {
      AckWasSent(l, a);
      if l.tx.Sending? {
        BlockAcknowledged(kind, src, stack, l, a);
      }
    } else if l.tx.Syncing? {
      SyncStep(kind, src, stack, l, a);
    }
  }

  lemma SyncStep(kind: CheckField, src: seq<byte>, stack: byte, l: Link, a: seq<Event>)
    requires Inv(kind, src, stack, l) && l.tx.Syncing?
    ensures var tx := TxReact(kind, src, l.tx, a).next;
            Abreast(kind, src, stack, tx, l.rx, l.status) && StatusOk(src, l.(tx := tx))
  {
    hide Prefix, Padded, CheckBytes, Block, Flushed, UsesCrc;
    MoreBlocksIff(src, 0);
  }

  lemma BlockAcknowledged(kind: CheckField, src: seq<byte>, stack: byte, l: Link, a: seq<Event>)
    requires Inv(kind, src, stack, l) && l.tx.Sending? && Head(a) == Byte(ACK) && AckPending(l)
    ensures var tx := TxReact(kind, src, l.tx, a).next;
            Waiting(src, l.tx) && Abreast(kind, src, stack, tx, l.rx, l.status) && StatusOk(src, l.(tx := tx))
  {
    hide Prefix, Padded, CheckBytes, Block, Flushed, UsesCrc, Succ;
    var j := l.tx.len / BLOCK;
    MoreBlocksIff(src, j);
    MoreBlocksIff(src, j + 1);
    SeqOfUnfolds(j + 1);
    assert l.tx.len + BLOCK == BLOCK * (j + 1);
    assert (l.tx.len + BLOCK) / BLOCK == j + 1;
  }

  /** What a sender that stops sends last. */
  lemma LastWords(kind: CheckField, src: seq<byte>, tx: Tx, a: seq<Event>)
    requires Waiting(src, tx)
    ensures var st := TxReact(kind, src, tx, a);
            if st.next.Finished? then st.out == [] || st.out == [ACK] || st.out == [CAN, CAN, CAN] else st.out == []
  {
    hide CheckBytes, Block, Flushed;
  }

  lemma NoAckRead(rx: Rx, n: nat)
    requires UsesCrc(rx)
    ensures Rejected(rx, Events([ACK]) + Silence(n))
  {
    hide Intact;
    var f := Events([ACK]) + Silence(n);
    EventsTail([ACK], n);
    assert Tail(f) == Silence(n);
    assert Head(Silence(n)) == Timeout;
  }

  lemma CancelArrives(l: Link, tx: Tx, n: nat)
    requires l.rx.retry > 0
    ensures Receive(l, tx, Events([CAN, CAN, CAN]) + Silence(n)) == Link(tx, l.rx, RemoteCancel, [ACK])
  {
    var f := Events([CAN, CAN, CAN]) + Silence(n);
    assert Head(f) == Byte(CAN) && Head(Tail(f)) == Byte(CAN);
  }

  ghost predicate Outgoing(kind: CheckField, src: seq<byte>, tx: Tx, out: seq<byte>) {
    if tx.Finished? then out == [] || out == [ACK] || out == [CAN, CAN, CAN]
    else Waiting(src, tx) && out == TxOutput(kind, src, tx)
  }

  /** Nothing new has arrived: everything stays in step. */
  lemma UnchangedInv(kind: CheckField, src: seq<byte>, stack: byte, l: Link, tx: Tx, l': Link)
    requires Prefix(kind, src, stack, l.rx) && l.status.Running? && StatusOk(src, l.(tx := tx))
    requires Abreast(kind, src, stack, tx, l.rx, l.status) && Unchanged(l, tx, l')
    ensures Inv(kind, src, stack, l')
  {
    hide PacketRight, Padded, StaleAt, UsesCrc;
  }

  lemma PacketInv(kind: CheckField, src: seq<byte>, stack: byte, l: Link, tx: Tx, f: seq<Event>, n: nat)
    requires Prefix(kind, src, stack, l.rx) && l.status.Running? && StatusOk(src, l.(tx := tx))
    requires Abreast(kind, src, stack, tx, l.rx, l.status) && tx.Sending? && Waiting(src, tx)
    requires f == Events(TxOutput(kind, src, tx)) + Silence(n)
    ensures Inv(kind, src, stack, Receive(l, tx, f))
  {
    hide Prefix, Padded, SeqOf, Succ, Pred, StaleAt, UsesCrc, FieldRight, Frame, Rejected, Block, Receive, Unchanged;
    var j, k := tx.len / BLOCK, |l.rx.calls|;
    var block := Block(src, tx.len);
    PrefixSeq(kind, src, stack, l.rx);
    if k == j + 1 {
      SeqOfDiffers(j);
    }
    PacketArrives(l, tx, kind, tx.crc, tx.packetno, block, tx.stale, f, n);
    if Rejected(l.rx, f) {
      DamageArrives(l, tx, f);
      UnchangedInv(kind, src, stack, l, tx, Receive(l, tx, f));
    } else {
      PacketTaken(kind, src, stack, l, tx, Receive(l, tx, f), j);
    }
  }

  lemma PrefixSeq(kind: CheckField, src: seq<byte>, stack: byte, rx: Rx)
    requires Prefix(kind, src, stack, rx)
    ensures rx.seqnum == SeqOf(|rx.calls|)
  {
  }

  /** The packet of block j, its field right, has been taken, as a new block or as a repeat. */
  lemma PacketTaken(kind: CheckField, src: seq<byte>, stack: byte, l: Link, tx: Tx, l': Link, j: nat)
    requires Prefix(kind, src, stack, l.rx) && Abreast(kind, src, stack, tx, l.rx, Running)
    requires tx.Sending? && j == tx.len / BLOCK && tx.len <= |src| && tx.crc
    requires FieldRight(kind, Block(src, tx.len), tx.stale)
    requires l'.tx == tx && l'.status == Running && UsesCrc(l'.rx) && l'.rx.retry > 0
    requires if |l.rx.calls| == j then
               |l'.rx.calls| == j + 1 && l'.rx.calls[..j] == l.rx.calls &&
               l'.rx.calls[j].data == Block(src, tx.len) && l'.rx.seqnum == Succ(l.rx.seqnum)
             else l'.rx.calls == l.rx.calls && l'.rx.seqnum == l.rx.seqnum
    ensures Inv(kind, src, stack, l')
  {
    hide Padded, SeqOf, Succ, StaleAt, UsesCrc, FieldRight, Block;
    if |l.rx.calls| == j {
      BlockOfPadded(src, j);
      SeqOfUnfolds(j + 1);
      assert Delivered(l'.rx.calls) == Delivered(l'.rx.calls[..j]) + l'.rx.calls[j].data;
      assert Padded(src)[..BLOCK * (j + 1)] == Padded(src)[..BLOCK * j] + Padded(src)[BLOCK * j..BLOCK * j + BLOCK];
      assert PacketRight(kind, src, stack, j);
    }
  }

  lemma ForwardInv(kind: CheckField, src: seq<byte>, stack: byte, l: Link, tx: Tx, out: seq<byte>, f: seq<Event>,
                   l': Link)
    requires Prefix(kind, src, stack, l.rx) && StatusOk(src, l.(tx := tx))
    requires Abreast(kind, src, stack, tx, l.rx, l.status)
    requires Outgoing(kind, src, tx, out) && Forward(l, tx, out, f, l')
    ensures Inv(kind, src, stack, l')
  {
    hide Prefix, Padded, TxOutput, Receive, Rejected, Events, Silence, Unchanged, UsesCrc;
    if l.status.Running? {
      if n :| f == Silence(n) {
        SilenceArrives(l, tx, f, n);
        UnchangedInv(kind, src, stack, l, tx, l');
      } else if Rejected(l.rx, f) {
        DamageArrives(l, tx, f);
        UnchangedInv(kind, src, stack, l, tx, l');
      } else {
        var n :| f == Events(out) + Silence(n);
        IntactInv(kind, src, stack, l, tx, out, f, n);
      }
    }
  }

  lemma IntactInv(kind: CheckField, src: seq<byte>, stack: byte, l: Link, tx: Tx, out: seq<byte>, f: seq<Event>, n: nat)
    requires Prefix(kind, src, stack, l.rx) && StatusOk(src, l.(tx := tx)) && l.status.Running?
    requires Abreast(kind, src, stack, tx, l.rx, l.status)
    requires Outgoing(kind, src, tx, out) && f == Events(out) + Silence(n) && !Rejected(l.rx, f)
    ensures Inv(kind, src, stack, Receive(l, tx, f))
  {
    hide Prefix, Padded, Receive, Rejected, Events, Silence, Unchanged, UsesCrc, Frame, Total;
    if out == [] {
      NoEvents(n);
      SilenceArrives(l, tx, f, n);
      UnchangedInv(kind, src, stack, l, tx, Receive(l, tx, f));
    } else if tx.Sending? {
      PacketInv(kind, src, stack, l, tx, f, n);
    } else if tx.Ending? {
      EndArrives(l, tx, f, n);
      TotalIs(kind, src, stack, l.rx);
    } else if out == [ACK] {
      NoAckRead(l.rx, n);
    } else {
      CancelArrives(l, tx, n);
    }
  }

  lemma NoEvents(n: nat)
    ensures Events([]) + Silence(n) == Silence(n)
  {
  }

  lemma TotalIs(kind: CheckField, src: seq<byte>, stack: byte, rx: Rx)
    requires Prefix(kind, src, stack, rx)
    ensures Total(rx.calls) == BLOCK * |rx.calls|
  {
    hide PacketRight;
    DeliveredLength(rx.calls);
  }

  lemma RoundInv(kind: CheckField, src: seq<byte>, stack: byte, l: Link, a: seq<Event>, f: seq<Event>, l': Link)
    requires Inv(kind, src, stack, l) && Round(kind, src, l, a, f, l')
    ensures Inv(kind, src, stack, l')
  {
    hide Prefix, StatusOk, Abreast, Answer, TxReads, TxReact, Forward, TxOutput;
    if l.tx.Finished? {
      ForwardInv(kind, src, stack, l, l.tx, [], f, l');
    } else {
      var st := TxReact(kind, src, l.tx, a);
      StillWaiting(kind, src, l.tx, a);
      SenderStep(kind, src, stack, l, a);
      LastWords(kind, src, l.tx, a);
      ForwardInv(kind, src, stack, l, st.next, RoundOutput(kind, src, st), f, l');
    }
  }

  lemma {:induction false} ReachesInv(kind: CheckField, src: seq<byte>, stack: byte, moves: seq<Move>, l: Link)
    requires Reaches(kind, src, stack, moves, l)
    ensures Inv(kind, src, stack, l)
  {
    hide Inv, Round;
    if moves == [] {
      InitInv(kind, src, stack);
    } else {
      var front, m := moves[..|moves| - 1], moves[|moves| - 1];
      var mid :| Reaches(kind, src, stack, front, mid) && Round(kind, src, mid, m.a, m.f, l);
      ReachesInv(kind, src, stack, front, mid);
      RoundInv(kind, src, stack, mid, m.a, m.f, l);
    }
  }

  // The main results

  /** Whatever the line does, the two ends never fall out of step and what has been delivered is a prefix of the padded
      source; a receiver that saw EOT has all of it. */
  lemma DeliveryIsPrefix(kind: CheckField, src: seq<byte>, stack: byte, moves: seq<Move>, l: Link)
    requires Reaches(kind, src, stack, moves, l)
    ensures l.status != OutOfSync
    ensures Delivered(l.rx.calls) <= Padded(src)
    ensures l.status.Received? ==> Delivered(l.rx.calls) == Padded(src) && l.status.total == |Padded(src)|
  {
    ReachesInv(kind, src, stack, moves, l);
    hide PacketRight, Abreast;
    assert l.status.Received? ==> Padded(src)[..|Padded(src)|] == Padded(src);
  }

  /** A sender that reports success reports the padded length, the receiver has returned the same number, everything has
      been delivered, and no other source could have been sent. */
  lemma SuccessMeansDelivered(kind: CheckField, src: seq<byte>, stack: byte, moves: seq<Move>, l: Link,
                              other: seq<byte>)
    requires Reaches(kind, src, stack, moves, l) && l.tx.Finished? && l.tx.code >= 0
    ensures l.tx.code == BLOCK * (|src| / BLOCK + 1) && l.status == Received(l.tx.code)
    ensures Delivered(l.rx.calls) == Padded(src)
    ensures Padded(other) == Delivered(l.rx.calls) <==> other == src
  {
    ReachesInv(kind, src, stack, moves, l);
    DeliveryIsPrefix(kind, src, stack, moves, l);
    PaddedInjective(other, src);
  }
}
