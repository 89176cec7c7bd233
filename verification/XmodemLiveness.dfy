/** When a transfer is bound to succeed: a line that lets an exchange through before a phase has failed too often. */
module XmodemLiveness {
  import opened Gf256
  import opened Crc16
  import opened XmodemPort
  import opened XmodemReceiver
  import opened XmodemReception
  import opened XmodemSender
  import opened XmodemPadding
  import opened XmodemLink
  import opened XmodemOutcome

  /** How often the exchange of one block, the packet and its answer, can fail without harm. Failures after a block has
      been taken and failures before the next one is taken come out of the same tries of the receiver. */
  const FAILURES: nat := 64

  ghost predicate GetsThrough(bytes: seq<byte>, ev: seq<Event>) {
    exists n :: ev == Events(bytes) + Silence(n)
  }

  /** The try that has to succeed when a block's exchange may fail so many times. */
  predicate LastChance(failures: nat, tx: Tx) {
    match tx
    case Syncing(tries, _) => tries == SYNC_TRIES - 1
    case Sending(_, _, _, tries, _) => tries == failures
    case Ending(_, tries) => tries == END_TRIES - 1
    case Finished(_) => false
  }

  /** What the line grants in a round: both directions of a last chance and the answer to the EOT get through, and no
      noise comes before the first packet. */
  ghost predicate Spares(failures: nat, kind: CheckField, src: seq<byte>, l: Link, m: Move, l': Link) {
    && (LastChance(failures, l.tx) || (l.tx.Ending? && l.status.Received?) ==> GetsThrough(l.pending, m.a))
    && (l'.tx.Syncing? ==> GetsThrough([], m.f))
    && (LastChance(failures, l'.tx) && Waiting(src, l'.tx) ==> GetsThrough(TxOutput(kind, src, l'.tx), m.f))
  }

  /** The links reached over a line that grants this in every round. */
  ghost predicate Spared(failures: nat, kind: CheckField, src: seq<byte>, stack: byte, moves: seq<Move>, l: Link) {
    if moves == [] then l == InitLink(stack)
    else
      var m := moves[|moves| - 1];
      exists mid :: Spared(failures, kind, src, stack, moves[..|moves| - 1], mid) &&
                    Round(kind, src, mid, m.a, m.f, l) && Spares(failures, kind, src, mid, m, l)
  }

  // What such a line keeps

  /** An answer that asks for something to be sent, or none. */
  predicate Asks(pending: seq<byte>) {
    pending == [] || pending == [LETTER_C] || pending == [NAK]
  }

  /** No phase has used up its tries, and the receiver has enough of its own left for the failures still to come. */
  predicate Fair(failures: nat, l: Link) {
    match l.tx
    case Syncing(tries, _) =>
      l.status.Running? && l.pending == [LETTER_C] && l.rx.response == LETTER_C && l.rx.retry == RETRY_LIMIT - tries
    case Sending(crc, _, len, tries, _) =>
      && crc && l.status.Running? && tries <= failures
      && if l.pending == [ACK] then |l.rx.calls| == len / BLOCK + 1 && l.rx.retry >= RETRY_LIMIT - Max(tries - 1, 0)
         else
           && Asks(l.pending) && tries < failures
           && l.rx.retry >= RETRY_LIMIT - tries - (if |l.rx.calls| == len / BLOCK then FAILURES else 0)
    case Ending(_, tries) =>
      if l.status.Received? then l.pending == [ACK]
      else l.status.Running? && Asks(l.pending) && tries < END_TRIES - 1 && l.rx.retry >= RETRY_LIMIT - tries - FAILURES
    case Finished(code) => code >= 0
  }

  function Max(a: int, b: int): int {
    if a > b then a else b
  }

  lemma InitFair(failures: nat, stack: byte)
    ensures Fair(failures, InitLink(stack))
  {
  }

  // The answer

  lemma AnswerHead(pending: seq<byte>, a: seq<Event>)
    requires Answer(pending, a) && |pending| <= 1
    ensures Head(a).Byte? ==> Harmless(Head(a).b) || pending == [Head(a).b]
    ensures GetsThrough(pending, a) && pending != [] ==> Head(a) == Byte(pending[0])
  {
    if n :| a == Events(pending) + Silence(n) {
      EventsHead(pending, n);
    }
  }

  function NextTry(tx: Tx): Tx {
    match tx
    case Syncing(tries, stale) => Syncing(tries + 1, stale)
    case Sending(crc, packetno, len, tries, stale) => Sending(crc, packetno, len, tries + 1, stale)
    case Ending(len, tries) => Ending(len, tries + 1)
    case Finished(_) => tx
  }

  lemma ReactSyncing(failures: nat, kind: CheckField, src: seq<byte>, l: Link, a: seq<Event>)
    requires l.tx.Syncing? && Waiting(src, l.tx) && Fair(failures, l) && Answer(l.pending, a)
    requires LastChance(failures, l.tx) ==> GetsThrough(l.pending, a)
    ensures var tx := TxReact(kind, src, l.tx, a).next;
            tx == StartBlock(src, true, 1, 0, l.tx.stale) || (tx == NextTry(l.tx) && Waiting(src, tx))
  {
    AnswerHead(l.pending, a);
    hide Answer, GetsThrough;
  }

  lemma ReactSending(failures: nat, kind: CheckField, src: seq<byte>, l: Link, a: seq<Event>)
    requires failures <= FAILURES
    requires l.tx.Sending? && Waiting(src, l.tx) && Fair(failures, l) && Answer(l.pending, a)
    requires LastChance(failures, l.tx) ==> GetsThrough(l.pending, a)
    ensures var tx := TxReact(kind, src, l.tx, a).next;
            || (l.pending == [ACK] && tx == Acknowledged(kind, src, l.tx))
            || (tx == NextTry(l.tx) && l.tx.tries < failures)
  {
    AnswerHead(l.pending, a);
    hide Answer, GetsThrough, NextStale, StartBlock, Succ;
  }

  lemma ReactEnding(failures: nat, kind: CheckField, src: seq<byte>, l: Link, a: seq<Event>)
    requires l.tx.Ending? && Waiting(src, l.tx) && Fair(failures, l) && Answer(l.pending, a)
    requires LastChance(failures, l.tx) || l.status.Received? ==> GetsThrough(l.pending, a)
    ensures var tx := TxReact(kind, src, l.tx, a).next;
            if l.status.Received? then tx == Finished(l.tx.len)
            else tx == NextTry(l.tx) && Waiting(src, tx)
  {
    AnswerHead(l.pending, a);
    hide Answer, GetsThrough;
  }

  // What arrives

  /** The receiver has used up one of its tries and asks again. */
  predicate Missed(l: Link, tx: Tx, l': Link) {
    && l'.tx == tx && l'.status.Running? && l'.rx.calls == l.rx.calls && l'.rx.retry == l.rx.retry - 1
    && Asks(l'.pending)
  }

  lemma SilenceMissed(l: Link, tx: Tx, n: nat)
    requires l.rx.retry > 1
    ensures var l' := Receive(l, tx, Silence(n));
            && Missed(l, tx, l')
            && (l.rx.response == LETTER_C ==> l'.pending == [LETTER_C] && l'.rx.response == LETTER_C)
  {
    hide ReadPacket, Flushed;
    assert Head(Silence(n)) == Timeout;
  }

  lemma DamageMissed(l: Link, tx: Tx, f: seq<Event>)
    requires l.rx.retry > 1 && Rejected(l.rx, f)
    ensures Missed(l, tx, Receive(l, tx, f))
  {
    hide Intact, ReadInput, Flushed;
  }

  lemma LossMissed(l: Link, tx: Tx, out: seq<byte>, f: seq<Event>, l': Link)
    requires l.status.Running? && l.rx.retry > 1 && Forward(l, tx, out, f, l') && !GetsThrough(out, f)
    ensures Missed(l, tx, l')
  {
    hide Receive, Rejected, Missed, Events, Silence;
    if n :| f == Silence(n) {
      SilenceMissed(l, tx, n);
    } else {
      DamageMissed(l, tx, f);
    }
  }

  /** The receiver has the block and says so. */
  predicate Taken(l: Link, tx: Tx, l': Link) {
    && tx.Sending? && l'.tx == tx && l'.status.Running? && l'.pending == [ACK] && |l'.rx.calls| == tx.len / BLOCK + 1
    && l'.rx.retry == if |l.rx.calls| == tx.len / BLOCK then RETRY_LIMIT else l.rx.retry
  }

  lemma PacketIsTaken(kind: CheckField, src: seq<byte>, stack: byte, l: Link, tx: Tx, f: seq<Event>)
    requires Prefix(kind, src, stack, l.rx) && UsesCrc(l.rx) && l.rx.retry > 0 && AllRight(kind, src, stack)
    requires Abreast(kind, src, stack, tx, l.rx, l.status) && tx.Sending? && tx.crc && Waiting(src, tx)
    requires GetsThrough(TxOutput(kind, src, tx), f)
    ensures Taken(l, tx, Receive(l, tx, f))
  {
    hide Prefix, Padded, SeqOf, Succ, Pred, StaleAt, UsesCrc, FieldRight, Frame, Block, Receive;
    var j := tx.len / BLOCK;
    assert PacketRight(kind, src, stack, j);
    PrefixSeq(kind, src, stack, l.rx);
    if |l.rx.calls| == j + 1 {
      SeqOfDiffers(j);
    }
    var n :| f == Events(TxOutput(kind, src, tx)) + Silence(n);
    PacketArrives(l, tx, kind, tx.crc, tx.packetno, Block(src, tx.len), tx.stale, f, n);
  }

  // One round

  lemma SendsFair(failures: nat, kind: CheckField, src: seq<byte>, stack: byte, l: Link, tx: Tx, f: seq<Event>,
                  l': Link)
    requires Prefix(kind, src, stack, l.rx) && l.status.Running? && UsesCrc(l.rx) && AllRight(kind, src, stack)
    requires Abreast(kind, src, stack, tx, l.rx, l.status) && tx.Sending? && tx.crc && Waiting(src, tx)
    requires tx.tries <= failures <= FAILURES
    requires l.rx.retry >= RETRY_LIMIT - tx.tries + (if |l.rx.calls| == tx.len / BLOCK then 1 - FAILURES else 1)
    requires Forward(l, tx, TxOutput(kind, src, tx), f, l')
    requires LastChance(failures, tx) ==> GetsThrough(TxOutput(kind, src, tx), f)
    ensures Fair(failures, l')
  {
    hide Prefix, AllRight, TxOutput, GetsThrough, Receive, Arrival, RxReads, UsesCrc, SeqOf, StaleAt;
    if GetsThrough(TxOutput(kind, src, tx), f) {
      PacketIsTaken(kind, src, stack, l, tx, f);
    } else {
      LossMissed(l, tx, TxOutput(kind, src, tx), f, l');
    }
  }

  lemma EndsFair(failures: nat, l: Link, tx: Tx, f: seq<Event>, l': Link)
    requires l.status.Running? && tx.Ending? && tx.tries < END_TRIES
    requires l.rx.retry >= RETRY_LIMIT - tx.tries + 1 - FAILURES
    requires Forward(l, tx, [EOT], f, l')
    requires LastChance(failures, tx) ==> GetsThrough([EOT], f)
    ensures Fair(failures, l')
  {
    hide Receive, Arrival, RxReads, Events, Silence, Total;
    if n :| f == Events([EOT]) + Silence(n) {
      EndArrives(l, tx, f, n);
    } else {
      LossMissed(l, tx, [EOT], f, l');
    }
  }

  lemma SyncsFair(failures: nat, l: Link, tx: Tx, f: seq<Event>, l': Link)
    requires l.status.Running? && tx.Syncing? && tx.tries < SYNC_TRIES && l.rx.response == LETTER_C
    requires l.rx.retry == RETRY_LIMIT - tx.tries + 1
    requires Forward(l, tx, [], f, l') && GetsThrough([], f)
    ensures Fair(failures, l')
  {
    hide Receive, Arrival, RxReads;
    var n :| f == Events([]) + Silence(n);
    NoEvents(n);
    SilenceMissed(l, tx, n);
  }

  /** What follows the sender's reaction. */
  lemma ReactionFair(failures: nat, kind: CheckField, src: seq<byte>, stack: byte, l: Link, tx: Tx, m: Move, l': Link)
    requires failures <= FAILURES
    requires Inv(kind, src, stack, l) && Waiting(src, l.tx) && Fair(failures, l) && AllRight(kind, src, stack)
    requires Answer(l.pending, m.a) && tx == TxReact(kind, src, l.tx, m.a).next && Waiting(src, tx)
    requires Forward(l, tx, TxOutput(kind, src, tx), m.f, l') && Spares(failures, kind, src, l, m, l') && l'.tx == tx
    ensures Fair(failures, l')
  {
    SenderStep(kind, src, stack, l, m.a);
    hide Answer, GetsThrough, Forward, TxReact, TxOutput, Prefix, AllRight, UsesCrc, SeqOf, StaleAt, NextStale, Succ;
    match l.tx
    case Syncing(_, _) =>
      ReactSyncing(failures, kind, src, l, m.a);
      if tx.Syncing? {
        SyncsFair(failures, l, tx, m.f, l');
      } else {
        SendsFair(failures, kind, src, stack, l, tx, m.f, l');
      }
    case Sending(_, _, _, _, _) =>
      SendingFair(failures, kind, src, stack, l, tx, m, l');
    case Ending(_, _) =>
      ReactEnding(failures, kind, src, l, m.a);
      EotIsSent(kind, src, tx);
      EndsFair(failures, l, tx, m.f, l');
  }

  lemma SendingFair(failures: nat, kind: CheckField, src: seq<byte>, stack: byte, l: Link, tx: Tx, m: Move, l': Link)
    requires failures <= FAILURES
    requires Inv(kind, src, stack, l) && Waiting(src, l.tx) && l.tx.Sending? && Fair(failures, l)
    requires AllRight(kind, src, stack)
    requires Abreast(kind, src, stack, tx, l.rx, l.status)
    requires Answer(l.pending, m.a) && tx == TxReact(kind, src, l.tx, m.a).next && Waiting(src, tx)
    requires Forward(l, tx, TxOutput(kind, src, tx), m.f, l') && Spares(failures, kind, src, l, m, l') && l'.tx == tx
    ensures Fair(failures, l')
  {
    hide Answer, GetsThrough, Forward, TxReact, TxOutput, Prefix, AllRight, UsesCrc, SeqOf, StaleAt, NextStale, Succ;
    ReactSending(failures, kind, src, l, m.a);
    if tx.Sending? {
      SendsFair(failures, kind, src, stack, l, tx, m.f, l');
    } else {
      EotIsSent(kind, src, tx);
      EndsFair(failures, l, tx, m.f, l');
    }
  }

  lemma EotIsSent(kind: CheckField, src: seq<byte>, tx: Tx)
    requires tx.Ending? && Waiting(src, tx)
    ensures TxOutput(kind, src, tx) == [EOT]
  {
  }

  lemma FairRound(failures: nat, kind: CheckField, src: seq<byte>, stack: byte, l: Link, m: Move, l': Link)
    requires failures <= FAILURES
    requires Inv(kind, src, stack, l) && Fair(failures, l) && AllRight(kind, src, stack)
    requires Round(kind, src, l, m.a, m.f, l') && Spares(failures, kind, src, l, m, l')
    ensures Fair(failures, l')
  {
    hide Inv, Answer, TxReads, Forward, TxReact, TxOutput, AllRight, Spares;
    if l.tx.Finished? {
      ForwardKeepsSender(l, l.tx, l');
    } else {
      var st := TxReact(kind, src, l.tx, m.a);
      StillWaiting(kind, src, l.tx, m.a);
      LastWords(kind, src, l.tx, m.a);
      ForwardKeepsSender(l, st.next, l');
      if st.next.Finished? {
        FinishesFair(failures, kind, src, l, m, l');
      } else {
        assert [] + TxOutput(kind, src, st.next) == TxOutput(kind, src, st.next);
        ReactionFair(failures, kind, src, stack, l, st.next, m, l');
      }
    }
  }

  lemma FinishesFair(failures: nat, kind: CheckField, src: seq<byte>, l: Link, m: Move, l': Link)
    requires failures <= FAILURES
    requires Waiting(src, l.tx) && Fair(failures, l) && Answer(l.pending, m.a) && Spares(failures, kind, src, l, m, l')
    requires TxReact(kind, src, l.tx, m.a).next.Finished? && l'.tx == TxReact(kind, src, l.tx, m.a).next
    ensures Fair(failures, l')
  {
    hide Answer, GetsThrough, TxReact, TxOutput, NextStale, StartBlock;
    match l.tx
    case Syncing(_, _) => ReactSyncing(failures, kind, src, l, m.a);
    case Sending(_, _, _, _, _) => ReactSending(failures, kind, src, l, m.a);
    case Ending(_, _) => ReactEnding(failures, kind, src, l, m.a);
  }

  lemma {:induction false} SparedFair(failures: nat, kind: CheckField, src: seq<byte>, stack: byte, moves: seq<Move>,
                                      l: Link)
    requires Spared(failures, kind, src, stack, moves, l)
    ensures Reaches(kind, src, stack, moves, l)
    ensures failures <= FAILURES && AllRight(kind, src, stack) ==> Fair(failures, l)
  {
    hide Fair, Round, Spares, AllRight;
    if moves == [] {
      InitFair(failures, stack);
    } else {
      var front, m := moves[..|moves| - 1], moves[|moves| - 1];
      var mid :| Spared(failures, kind, src, stack, front, mid) && Round(kind, src, mid, m.a, m.f, l) &&
                 Spares(failures, kind, src, mid, m, l);
      SparedFair(failures, kind, src, stack, front, mid);
      if failures <= FAILURES && AllRight(kind, src, stack) {
        ReachesInv(kind, src, stack, front, mid);
        FairRound(failures, kind, src, stack, mid, m, l);
      }
    }
  }

  // How long a transfer can take

  /** The most rounds that the sender can still wait. */
  function RoundsLeft(src: seq<byte>, tx: Tx): int {
    match tx
    case Syncing(tries, _) => MostRounds(src) - tries
    case Sending(_, _, len, tries, _) => RETRY_LIMIT * (Blocks(src) - len / BLOCK) - tries + END_TRIES
    case Ending(_, tries) => END_TRIES - tries
    case Finished(_) => 0
  }

  function MostRounds(src: seq<byte>): nat {
    SYNC_TRIES + RETRY_LIMIT * Blocks(src) + END_TRIES
  }

  lemma BlocksBehind(src: seq<byte>, len: nat)
    requires len <= |src|
    ensures len / BLOCK < Blocks(src) && (len + BLOCK) / BLOCK == len / BLOCK + 1
  {
  }

  lemma ReactionCounts(kind: CheckField, src: seq<byte>, tx: Tx, a: seq<Event>)
    requires Waiting(src, tx)
    ensures var next := TxReact(kind, src, tx, a).next;
            next.Finished? || (Waiting(src, next) && 0 < RoundsLeft(src, next) < RoundsLeft(src, tx))
  {
    hide Blocks, NextStale, Succ, Flushed;
    if tx.Sending? {
      BlockCounts(kind, src, tx, a);
    } else {
      BlocksBehind(src, 0);
    }
  }

  lemma BlockCounts(kind: CheckField, src: seq<byte>, tx: Tx, a: seq<Event>)
    requires Waiting(src, tx) && tx.Sending?
    ensures var next := TxReact(kind, src, tx, a).next;
            next.Finished? || (Waiting(src, next) && 0 < RoundsLeft(src, next) < RoundsLeft(src, tx))
  {
    BlocksBehind(src, tx.len);
    if tx.len + BLOCK <= |src| {
      BlocksBehind(src, tx.len + BLOCK);
    }
    hide Blocks, NextStale, Succ, Flushed;
    var n, j := Blocks(src), tx.len / BLOCK;
    assert RETRY_LIMIT * (n - j) == RETRY_LIMIT * (n - (j + 1)) + RETRY_LIMIT;
  }

  lemma RoundCounts(kind: CheckField, src: seq<byte>, l: Link, m: Move, l': Link)
    requires Round(kind, src, l, m.a, m.f, l')
    ensures l'.tx.Finished? || (Waiting(src, l.tx) && 0 < RoundsLeft(src, l'.tx) < RoundsLeft(src, l.tx))
  {
    hide Answer, TxReads, Forward, TxOutput, TxReact, RoundsLeft;
    if l.tx.Finished? {
      ForwardKeepsSender(l, l.tx, l');
    } else {
      ReactionCounts(kind, src, l.tx, m.a);
      ForwardKeepsSender(l, TxReact(kind, src, l.tx, m.a).next, l');
    }
  }

  lemma {:induction false} RunsEnd(kind: CheckField, src: seq<byte>, stack: byte, moves: seq<Move>, l: Link)
    requires Reaches(kind, src, stack, moves, l)
    ensures l.tx.Finished? || |moves| + RoundsLeft(src, l.tx) <= MostRounds(src)
    ensures |moves| >= MostRounds(src) ==> l.tx.Finished?
  {
    hide Round;
    if moves != [] {
      var front, m := moves[..|moves| - 1], moves[|moves| - 1];
      var mid :| Reaches(kind, src, stack, front, mid) && Round(kind, src, mid, m.a, m.f, l);
      RunsEnd(kind, src, stack, front, mid);
      if !l.tx.Finished? {
        RoundCounts(kind, src, mid, m, l);
      }
    }
  }

  /** A line that fails no block more than 64 times, lets the start and the end of the transfer through before their
      tries are used up, and does not lose the last acknowledgement: every transfer over it ends, after a bounded number
      of rounds, and it ends well exactly when every packet carries the CRC of its block. */
  lemma SparedSucceedsIff(failures: nat, kind: CheckField, src: seq<byte>, stack: byte, moves: seq<Move>, l: Link)
    requires failures <= FAILURES && Spared(failures, kind, src, stack, moves, l) && |moves| >= MostRounds(src)
    ensures l.tx.Finished?
    ensures l.tx.code >= 0 <==> AllRight(kind, src, stack)
    ensures l.tx.code >= 0 ==> l.tx.code == |Padded(src)| && Delivered(l.rx.calls) == Padded(src)
  {
    hide AllRight, Reaches, Spared;
    SparedFair(failures, kind, src, stack, moves, l);
    RunsEnd(kind, src, stack, moves, l);
    if l.tx.code >= 0 {
      SuccessNeedsAllRight(kind, src, stack, moves, l);
      SuccessMeansDelivered(kind, src, stack, moves, l, src);
    }
  }

  // One failure more

  /** tx some tries later. */
  function Later(tx: Tx, n: nat): Tx {
    match tx
    case Sending(crc, packetno, len, tries, stale) => Sending(crc, packetno, len, tries + n, stale)
    case _ => tx
  }

  lemma SparedMore(failures: nat, kind: CheckField, src: seq<byte>, stack: byte, moves: seq<Move>, l: Link, m: Move,
                   l': Link)
    requires Spared(failures, kind, src, stack, moves, l)
    requires Round(kind, src, l, m.a, m.f, l') && Spares(failures, kind, src, l, m, l')
    ensures Spared(failures, kind, src, stack, moves + [m], l')
  {
    hide Round, Spares;
    var all := moves + [m];
    assert all[..|all| - 1] == moves && all[|all| - 1] == m;
    assert Spared(failures, kind, src, stack, all[..|all| - 1], l);
  }

  const LOST: Move := Move([Timeout], [Timeout])

  lemma SilenceRead(kind: CheckField, src: seq<byte>, l: Link)
    requires l.tx.Sending? && Waiting(src, l.tx) && l.tx.tries + 1 < RETRY_LIMIT
    ensures Answer(l.pending, [Timeout]) && TxReads(kind, src, l.tx, [Timeout])
    ensures TxReact(kind, src, l.tx, [Timeout]) == TxStep(Later(l.tx, 1), [], [])
  {
    assert [Timeout] == Silence(1);
    forall more: seq<Event> ensures Head([Timeout] + more) == Timeout && Tail([Timeout] + more) == more {
    }
  }

  /** A round in which nothing arrives. */
  predicate Unheard(l: Link, tx: Tx, l': Link)
    requires l.rx.retry > 0
  {
    && l'.tx == tx && l'.rx.seqnum == l.rx.seqnum && l'.rx.calls == l.rx.calls && l'.rx.retry == l.rx.retry - 1
    && if l'.rx.retry > 0 then l'.status.Running? else l'.status.RetryExceeded? && l'.pending == [CAN, CAN, CAN]
  }

  lemma SilenceHeard(l: Link, tx: Tx, out: seq<byte>)
    requires l.status.Running? && l.rx.retry > 0
    ensures Forward(l, tx, out, [Timeout], Receive(l, tx, [Timeout])) && Unheard(l, tx, Receive(l, tx, [Timeout]))
  {
    assert [Timeout] == Silence(1);
    forall more: seq<Event> ensures Head([Timeout] + more) == Timeout && Tail([Timeout] + more) == more {
    }
  }

  /** What the sender has just read moves it on to tx, and nothing more gets through. */
  lemma UnheardRound(failures: nat, kind: CheckField, src: seq<byte>, stack: byte, moves: seq<Move>, l: Link,
                     a: seq<Event>, tx: Tx) returns (l': Link)
    requires Spared(failures, kind, src, stack, moves, l) && Waiting(src, l.tx) && l.status.Running? && l.rx.retry > 0
    requires Answer(l.pending, a) && TxReads(kind, src, l.tx, a) && TxReact(kind, src, l.tx, a) == TxStep(tx, [], [])
    requires LastChance(failures, l.tx) ==> GetsThrough(l.pending, a)
    requires Waiting(src, tx) && tx.Sending? && tx.tries != failures
    ensures Spared(failures, kind, src, stack, moves + [Move(a, [Timeout])], l') && Unheard(l, tx, l')
  {
    hide Answer, TxReads, TxReact, TxOutput, Spared, GetsThrough, Receive, Forward, Unheard;
    l' := Receive(l, tx, [Timeout]);
    SilenceHeard(l, tx, RoundOutput(kind, src, TxStep(tx, [], [])));
    KeepsSender(l, tx, l');
    SparedMore(failures, kind, src, stack, moves, l, Move(a, [Timeout]), l');
  }

  lemma KeepsSender(l: Link, tx: Tx, l': Link)
    requires l.rx.retry > 0 && Unheard(l, tx, l')
    ensures l'.tx == tx
  {
  }

  lemma {:induction false} SilentRounds(failures: nat, kind: CheckField, src: seq<byte>, stack: byte, moves: seq<Move>,
                                        l: Link, n: nat) returns (moves': seq<Move>, l': Link)
    requires Spared(failures, kind, src, stack, moves, l) && Waiting(src, l.tx) && l.status.Running?
    requires l.tx.Sending? && l.tx.tries + n < failures && l.tx.tries + n < RETRY_LIMIT && n <= l.rx.retry
    requires l.rx.retry > 0
    ensures Spared(failures, kind, src, stack, moves', l') && l'.tx == Later(l.tx, n)
    ensures l'.rx.seqnum == l.rx.seqnum && l'.rx.calls == l.rx.calls && l'.rx.retry == l.rx.retry - n
    ensures if l'.rx.retry > 0 then l'.status.Running? else l'.status.RetryExceeded? && l'.pending == [CAN, CAN, CAN]
    decreases n
  {
    hide Spared, Answer, TxReads, TxReact;
    if n == 0 {
      moves', l' := moves, l;
    } else {
      SilenceRead(kind, src, l);
      var next := UnheardRound(failures, kind, src, stack, moves, l, [Timeout], Later(l.tx, 1));
      moves', l' := moves + [LOST], next;
      if n > 1 {
        moves', l' := SilentRounds(failures, kind, src, stack, moves + [LOST], next, n - 1);
      }
    }
  }

  /** The first block is taken at once. */
  lemma FirstTaken(failures: nat, kind: CheckField, src: seq<byte>, stack: byte) returns (moves: seq<Move>, l: Link)
    requires failures > 0 && AllRight(kind, src, stack)
    ensures Spared(failures, kind, src, stack, moves, l) && AtBlock(kind, src, stack, l, 0) && l.rx.retry == RETRY_LIMIT
  {
    hide AllRight, SeqOf, StaleAt, PacketRight, Block, TxReact, TxReads, Answer, TxOutput, Spared, Round, FieldRight,
      UsesCrc, Succ, Pred, Events, Spares;
    Starts(kind, src, stack);
    LetterReads(kind, src, Syncing(0, stack));
    var l0, tx := InitLink(stack), Sending(true, SeqOf(0), BLOCK * 0, 0, StaleAt(kind, src, stack, 0));
    RightField(kind, src, stack, 0);
    ReachesFacts(kind, src, stack, [], l0);
    var f;
    f, l := PacketRound(kind, src, l0, [Byte(LETTER_C)], tx);
    Begins(failures, kind, src, stack);
    SparesFresh(failures, kind, src, l0, Move([Byte(LETTER_C)], f), l);
    SparedMore(failures, kind, src, stack, [], l0, Move([Byte(LETTER_C)], f), l);
    moves := [] + [Move([Byte(LETTER_C)], f)];
  }

  /** Nothing is asked of the line before the last chances. */
  lemma SparesFresh(failures: nat, kind: CheckField, src: seq<byte>, l: Link, m: Move, l': Link)
    requires l.tx.Syncing? || l.tx.Sending?
    requires !LastChance(failures, l.tx) && !LastChance(failures, l'.tx) && !l'.tx.Syncing?
    ensures Spares(failures, kind, src, l, m, l')
  {
  }

  lemma Begins(failures: nat, kind: CheckField, src: seq<byte>, stack: byte)
    ensures Spared(failures, kind, src, stack, [], InitLink(stack))
  {
  }

  lemma RightField(kind: CheckField, src: seq<byte>, stack: byte, j: nat)
    requires AllRight(kind, src, stack) && j < Blocks(src)
    ensures BLOCK * j <= |src| && FieldRight(kind, Block(src, BLOCK * j), StaleAt(kind, src, stack, j))
  {
    assert PacketRight(kind, src, stack, j);
    MoreBlocksIff(src, j);
  }

  /** The first block, late in its tries, gets through once more and is only acknowledged again. */
  lemma TakenAgain(failures: nat, kind: CheckField, src: seq<byte>, stack: byte, moves: seq<Move>, l: Link)
    returns (moves': seq<Move>, l': Link)
    requires Spared(failures, kind, src, stack, moves, l) && AllRight(kind, src, stack) && FAILURES < failures
    requires l.tx == Sending(true, SeqOf(0), 0, FAILURES, StaleAt(kind, src, stack, 0))
    requires l.status.Running? && |l.rx.calls| == 1
    ensures Spared(failures, kind, src, stack, moves', l') && l'.tx == Later(l.tx, 1)
    ensures l'.status.Running? && l'.pending == [ACK] && |l'.rx.calls| == 1 && l'.rx.retry == l.rx.retry
  {
    hide AllRight, SeqOf, StaleAt, PacketRight, Block, TxReact, TxReads, Answer, Spared, Round, FieldRight, UsesCrc,
      Succ, Pred, TxOutput, Events, Silence;
    RightField(kind, src, stack, 0);
    SparedFair(failures, kind, src, stack, moves, l);
    ReachesFacts(kind, src, stack, moves, l);
    SeqOfDiffers(0);
    SilenceRead(kind, src, l);
    var f;
    f, l' := PacketRound(kind, src, l, [Timeout], Later(l.tx, 1));
    SparedMore(failures, kind, src, stack, moves, l, Move([Timeout], f), l');
    moves' := moves + [Move([Timeout], f)];
  }

  lemma CancelTails(more: seq<Event>)
    ensures var ev := [Byte(CAN), Byte(CAN), Byte(CAN), Timeout] + more;
            Head(ev) == Byte(CAN) && Head(Tail(ev)) == Byte(CAN) && Flushed(Tail(Tail(ev))) == more
  {
    var ev := [Byte(CAN), Byte(CAN), Byte(CAN), Timeout] + more;
    assert Tail(ev) == [Byte(CAN), Byte(CAN), Timeout] + more;
    assert Tail(Tail(ev)) == [Byte(CAN), Timeout] + more;
    assert Tail(Tail(Tail(ev))) == [Timeout] + more;
    assert Tail(Tail(Tail(Tail(ev)))) == more;
  }

  lemma CancelRead(kind: CheckField, src: seq<byte>, tx: Tx)
    requires tx.Sending? && Waiting(src, tx)
    ensures var a := [Byte(CAN), Byte(CAN), Byte(CAN), Timeout];
            Answer([CAN, CAN, CAN], a) && TxReads(kind, src, tx, a) &&
            TxReact(kind, src, tx, a) == TxStep(Finished(-1), [ACK], [])
  {
    hide Flushed, Head, Tail;
    var a := [Byte(CAN), Byte(CAN), Byte(CAN), Timeout];
    assert a == Events([CAN, CAN, CAN]) + Silence(1);
    assert a + [] == a;
    forall more: seq<Event>
      ensures TxReact(kind, src, tx, a + more) == TxStep(Finished(-1), [ACK], more)
    {
      CancelTails(more);
    }
    CancelTails([]);
  }

  /** The sender reads that the receiver has given up. */
  lemma GivenUp(failures: nat, kind: CheckField, src: seq<byte>, stack: byte, moves: seq<Move>, l: Link)
    returns (moves': seq<Move>, l': Link)
    requires Spared(failures, kind, src, stack, moves, l) && Waiting(src, l.tx) && l.tx.Sending?
    requires l.tx.tries != failures && l.status.RetryExceeded? && l.pending == [CAN, CAN, CAN]
    ensures Spared(failures, kind, src, stack, moves', l') && l'.tx == Finished(-1) && l'.status.RetryExceeded?
    ensures l'.rx == l.rx
  {
    hide Answer, TxReads, TxReact, Spared;
    var a := [Byte(CAN), Byte(CAN), Byte(CAN), Timeout];
    CancelRead(kind, src, l.tx);
    l' := Link(Finished(-1), l.rx, l.status, []);
    SparedMore(failures, kind, src, stack, moves, l, Move(a, []), l');
    moves' := moves + [Move(a, [])];
  }

  /** With 65 failures of one block and 64 of the next the receiver runs out of tries before the sender does. */
  lemma OneMoreIsTooMany(failures: nat, kind: CheckField, src: seq<byte>, stack: byte)
    returns (moves: seq<Move>, l: Link)
    requires AllRight(kind, src, stack) && Blocks(src) > 1 && FAILURES < failures
    ensures Spared(failures, kind, src, stack, moves, l)
    ensures l.tx == Finished(-1) && l.status.RetryExceeded? && |l.rx.calls| == 1
  {
    hide AllRight, SeqOf, StaleAt, Block, TxReact, TxReads, Answer, Spared, GetsThrough, NextStale, Succ, CheckBytes;
    MoreBlocksIff(src, 0);
    MoreBlocksIff(src, 1);
    moves, l := FirstTaken(failures, kind, src, stack);
    moves, l := SilentRounds(failures, kind, src, stack, moves, l, FAILURES);
    moves, l := TakenAgain(failures, kind, src, stack, moves, l);
    SecondSent(kind, src, stack, l);
    var tx := Sending(true, SeqOf(1), BLOCK, 0, StaleAt(kind, src, stack, 1));
    var next := UnheardRound(failures, kind, src, stack, moves, l, [Byte(ACK)], tx);
    moves, l := moves + [Move([Byte(ACK)], [Timeout])], next;
    moves, l := SilentRounds(failures, kind, src, stack, moves, l, l.rx.retry);
    moves, l := GivenUp(failures, kind, src, stack, moves, l);
  }

  /** The acknowledgement leads to the second block. */
  lemma SecondSent(kind: CheckField, src: seq<byte>, stack: byte, l: Link)
    requires Blocks(src) > 1 && l.pending == [ACK]
    requires l.tx == Sending(true, SeqOf(0), 0, FAILURES + 1, StaleAt(kind, src, stack, 0))
    ensures Answer(l.pending, [Byte(ACK)]) && TxReads(kind, src, l.tx, [Byte(ACK)])
    ensures GetsThrough(l.pending, [Byte(ACK)])
    ensures TxReact(kind, src, l.tx, [Byte(ACK)]) ==
            TxStep(Sending(true, SeqOf(1), BLOCK, 0, StaleAt(kind, src, stack, 1)), [], [])
  {
    hide SeqOf, StaleAt, Block, TxReact, TxReads, Answer, Succ, CheckBytes;
    assert [Byte(ACK)] == Events([ACK]) + Silence(0);
    AckReads(kind, src, l.tx);
    NextBlock(kind, src, stack, 1);
  }

  /** For a source of more than one block 64 is exact: it is the largest number of failures of a block's exchange with
      which no transfer fails. */
  lemma SixtyFourIsExact(failures: nat, kind: CheckField, src: seq<byte>, stack: byte)
    requires AllRight(kind, src, stack) && |src| >= BLOCK
    ensures failures <= 64 <==>
              forall moves, l :: Spared(failures, kind, src, stack, moves, l) && l.tx.Finished? ==> l.tx.code >= 0
  {
    hide AllRight, Spared;
    MoreBlocksIff(src, 1);
    if failures <= FAILURES {
      forall moves, l | Spared(failures, kind, src, stack, moves, l) && l.tx.Finished? ensures l.tx.code >= 0 {
        SparedFair(failures, kind, src, stack, moves, l);
      }
    } else {
      var moves, l := OneMoreIsTooMany(failures, kind, src, stack);
    }
  }

  // There is always a next round

  lemma SilenceReadAtEnd(kind: CheckField, src: seq<byte>, l: Link)
    requires l.tx.Ending? && Waiting(src, l.tx) && l.tx.tries + 1 < END_TRIES
    ensures Answer(l.pending, [Timeout]) && TxReads(kind, src, l.tx, [Timeout])
    ensures TxReact(kind, src, l.tx, [Timeout]) == TxStep(NextTry(l.tx), [], [])
  {
    assert [Timeout] == Silence(1);
    forall more: seq<Event> ensures Head([Timeout] + more) == Timeout && Tail([Timeout] + more) == more {
    }
  }

  /** The packet that follows an answer gets through. */
  lemma PacketNext(failures: nat, kind: CheckField, src: seq<byte>, stack: byte, l: Link, a: seq<Event>, tx: Tx)
    returns (m: Move, l': Link)
    requires Inv(kind, src, stack, l) && AllRight(kind, src, stack) && Waiting(src, l.tx) && l.status.Running?
    requires Answer(l.pending, a) && TxReads(kind, src, l.tx, a) && TxReact(kind, src, l.tx, a) == TxStep(tx, [], [])
    requires LastChance(failures, l.tx) ==> GetsThrough(l.pending, a)
    requires !l.tx.Ending? && tx.Sending? && tx.crc && Waiting(src, tx)
    ensures Round(kind, src, l, m.a, m.f, l') && Spares(failures, kind, src, l, m, l')
  {
    SenderStep(kind, src, stack, l, a);
    hide Answer, TxReads, TxReact, GetsThrough, AllRight, Round, Padded, SeqOf, StaleAt, Block, FieldRight, UsesCrc,
      Succ, Pred, PacketRight, TxOutput;
    var j := tx.len / BLOCK;
    RightField(kind, src, stack, j);
    if |l.rx.calls| == j + 1 {
      SeqOfDiffers(j);
    }
    var f;
    f, l' := PacketRound(kind, src, l, a, tx);
    m := Move(a, f);
    assert GetsThrough(TxOutput(kind, src, tx), f) by { Through(TxOutput(kind, src, tx), f, 0); }
  }

  lemma Through(bytes: seq<byte>, f: seq<Event>, n: nat)
    requires f == Events(bytes) + Silence(n)
    ensures GetsThrough(bytes, f)
  {
  }

  lemma EotNext(failures: nat, kind: CheckField, src: seq<byte>, l: Link, a: seq<Event>, tx: Tx)
    returns (m: Move, l': Link)
    requires Waiting(src, l.tx) && l.status.Running? && l.rx.retry > 0
    requires Answer(l.pending, a) && TxReads(kind, src, l.tx, a) && TxReact(kind, src, l.tx, a) == TxStep(tx, [], [])
    requires LastChance(failures, l.tx) ==> GetsThrough(l.pending, a)
    requires tx.Ending? && Waiting(src, tx)
    ensures Round(kind, src, l, m.a, m.f, l') && Spares(failures, kind, src, l, m, l')
  {
    hide Answer, TxReads, TxReact, GetsThrough, Round, Total;
    var f;
    f, l' := EotRound(kind, src, l, a, tx);
    m := Move(a, f);
    Through([EOT], f, 1);
  }

  /** Whatever such a line has done, there is a next round: the one in which it does its best. */
  lemma GoesOn(failures: nat, kind: CheckField, src: seq<byte>, stack: byte, moves: seq<Move>, l: Link)
    returns (m: Move, l': Link)
    requires failures <= FAILURES && AllRight(kind, src, stack) && Spared(failures, kind, src, stack, moves, l)
    ensures Spared(failures, kind, src, stack, moves + [m], l')
  {
    SparedFair(failures, kind, src, stack, moves, l);
    ReachesInv(kind, src, stack, moves, l);
    m, l' := NextRound(failures, kind, src, stack, l);
    SparedMore(failures, kind, src, stack, moves, l, m, l');
  }

  lemma NextRound(failures: nat, kind: CheckField, src: seq<byte>, stack: byte, l: Link) returns (m: Move, l': Link)
    requires failures <= FAILURES && AllRight(kind, src, stack) && Inv(kind, src, stack, l) && Fair(failures, l)
    ensures Round(kind, src, l, m.a, m.f, l') && Spares(failures, kind, src, l, m, l')
  {
    InStep(kind, src, stack, l);
    hide Inv, AllRight, Answer, TxReads, TxReact, GetsThrough, Round, NextStale, Succ, Spares;
    match l.tx
    case Syncing(_, _) =>
      LetterReads(kind, src, l.tx);
      Through([LETTER_C], [Byte(LETTER_C)], 0);
      m, l' := PacketNext(failures, kind, src, stack, l, [Byte(LETTER_C)], StartBlock(src, true, 1, 0, l.tx.stale));
    case Sending(_, _, _, _, _) =>
      if l.pending == [ACK] {
        AckReads(kind, src, l.tx);
        Through([ACK], [Byte(ACK)], 0);
        var tx := Acknowledged(kind, src, l.tx);
        if tx.Sending? {
          m, l' := PacketNext(failures, kind, src, stack, l, [Byte(ACK)], tx);
        } else {
          m, l' := EotNext(failures, kind, src, l, [Byte(ACK)], tx);
        }
      } else {
        SilenceRead(kind, src, l);
        m, l' := PacketNext(failures, kind, src, stack, l, [Timeout], Later(l.tx, 1));
      }
    case Ending(_, _) =>
      if l.status.Received? {
        l' := LastRound(kind, src, l);
        m := Move([Byte(ACK), Timeout], []);
        Through([ACK], [Byte(ACK), Timeout], 1);
        LastSpared(failures, kind, src, l, m, l');
      } else {
        SilenceReadAtEnd(kind, src, l);
        m, l' := EotNext(failures, kind, src, l, [Timeout], NextTry(l.tx));
      }
    case Finished(_) =>
      m, l' := Move([], []), Link(l.tx, l.rx, l.status, []);
      Over(failures, kind, src, l, l');
  }

  lemma LastSpared(failures: nat, kind: CheckField, src: seq<byte>, l: Link, m: Move, l': Link)
    requires l.tx.Ending? && l.pending == [ACK] && GetsThrough([ACK], m.a) && l'.tx.Finished?
    ensures Spares(failures, kind, src, l, m, l')
  {
  }

  lemma Over(failures: nat, kind: CheckField, src: seq<byte>, l: Link, l': Link)
    requires l.tx.Finished? && !l.status.Running? && l' == Link(l.tx, l.rx, l.status, [])
    ensures Round(kind, src, l, [], [], l') && Spares(failures, kind, src, l, Move([], []), l')
  {
  }

  /** What both invariants say of where the two ends are. */
  lemma InStep(kind: CheckField, src: seq<byte>, stack: byte, l: Link)
    requires Inv(kind, src, stack, l)
    ensures l.tx.Finished? || Waiting(src, l.tx)
    ensures l.status.Running? ==> l.rx.retry > 0
    ensures l.tx.Finished? && l.tx.code >= 0 ==> l.status.Received?
  {
    hide Prefix, AckMeans, SeqOf, StaleAt;
    if l.tx.Sending? {
      MoreBlocksIff(src, l.tx.len / BLOCK);
    }
  }
}
