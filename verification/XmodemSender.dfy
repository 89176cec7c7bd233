/** xmodem_tx_async: what it sends, how it reacts to each answer, and the whole run. */
module XmodemSender {
  import opened Gf256
  import opened Crc16
  import opened XmodemPort
  import opened XmodemReceiver

  const BLOCK: nat := 128
  const SYNC_TRIES: nat := 16
  const END_TRIES: nat := 10

  function ZeroBytes(n: nat): (s: seq<byte>)
    ensures |s| == n
  {
    seq(n, i => 0)
  }

  /** Block number len / 128 of the source: its bytes, CTRLZ behind the last of them and zeros. */
  function Block(src: seq<byte>, len: nat): (b: seq<byte>)
    requires len <= |src|
    ensures |b| == BLOCK
  {
    if |src| - len >= BLOCK then src[len..len + BLOCK]
    else src[len..] + [CTRLZ] + ZeroBytes(BLOCK - 1 - (|src| - len))
  }

  /** How the two bytes behind a block are filled in CRC mode. The code passes 0 for xmodem_chksum's crcflag and stores
      the answer, the outcome of comparing an 8-bit sum with what the buffer held behind the block before. */
  datatype CheckField = AsCoded | Intended

  function CheckBytes(kind: CheckField, crc: bool, block: seq<byte>, stale: byte): (s: seq<byte>)
    ensures |s| == CheckLength(crc)
  {
    if !crc then [Sum(0, block)]
    else match kind
      case AsCoded => [0, if Sum(0, block) == stale then 1 else 0]
      case Intended => [High(Crc(0, block)), Low(Crc(0, block))]
  }

  function Frame(kind: CheckField, crc: bool, packetno: byte, block: seq<byte>, stale: byte): seq<byte> {
    [SOH, packetno, Complement(packetno)] + block + CheckBytes(kind, crc, block, stale)
  }

  /** Where the sender waits for an answer. */
  datatype Tx =
    | Syncing(tries: nat, stale: byte)
    | Sending(crc: bool, packetno: byte, len: nat, tries: nat, stale: byte)
    | Ending(len: nat, tries: nat)
    | Finished(code: int)

  predicate Waiting(src: seq<byte>, s: Tx) {
    match s
    case Syncing(tries, _) => tries < SYNC_TRIES
    case Sending(_, _, len, tries, _) => tries < RETRY_LIMIT && len <= |src|
    case Ending(_, tries) => tries < END_TRIES
    case Finished(_) => false
  }

  /** What is sent before an answer is awaited. */
  function TxOutput(kind: CheckField, src: seq<byte>, s: Tx): seq<byte>
    requires Waiting(src, s)
  {
    match s
    case Syncing(_, _) => []
    case Sending(crc, packetno, len, _, stale) => Frame(kind, crc, packetno, Block(src, len), stale)
    case Ending(_, _) => [EOT]
  }

  /** start_trans */
  function StartBlock(src: seq<byte>, crc: bool, packetno: byte, len: nat, stale: byte): (s: Tx)
    ensures Waiting(src, s)
  {
    if len <= |src| then Sending(crc, packetno, len, 0, stale) else Ending(len, 0)
  }

  datatype TxStep = TxStep(next: Tx, out: seq<byte>, rest: seq<Event>)

  function GiveUp(code: int, rest: seq<Event>): TxStep {
    TxStep(Finished(code), [CAN, CAN, CAN], Flushed(rest))
  }

  /** A second CAN stops the transfer, any other byte is lost and the try is over. */
  function OnCan(ev: seq<Event>, otherwise: TxStep): TxStep {
    if Head(ev) == Byte(CAN) then TxStep(Finished(-1), [ACK], Flushed(Tail(ev))) else otherwise
  }

  function TryAgain(s: Tx, rest: seq<Event>): TxStep {
    match s
    case Syncing(tries, stale) =>
      if tries + 1 < SYNC_TRIES then TxStep(Syncing(tries + 1, stale), [], rest) else GiveUp(-2, rest)
    case Sending(crc, packetno, len, tries, stale) =>
      if tries + 1 < RETRY_LIMIT then TxStep(Sending(crc, packetno, len, tries + 1, stale), [], rest)
      else GiveUp(-4, rest)
    case Ending(len, tries) =>
      if tries + 1 < END_TRIES then TxStep(Ending(len, tries + 1), [], rest)
      else TxStep(Finished(-5), [], Flushed(rest))
    case Finished(_) => TxStep(s, [], rest)
  }

  function Started(src: seq<byte>, crc: bool, stale: byte, rest: seq<Event>): TxStep {
    TxStep(StartBlock(src, crc, 1, 0, stale), [], rest)
  }

  /** The byte the next block's field finds behind the block. */
  function NextStale(kind: CheckField, src: seq<byte>, s: Tx): byte
    requires s.Sending? && s.len <= |src|
  {
    CheckBytes(kind, s.crc, Block(src, s.len), s.stale)[0]
  }

  /** The reaction to the answer. */
  function TxReact(kind: CheckField, src: seq<byte>, s: Tx, ev: seq<Event>): TxStep
    requires Waiting(src, s)
  {
    var c, rest := Head(ev), Tail(ev);
    match s
    case Syncing(_, stale) =>
      if c == Byte(LETTER_C) then Started(src, true, stale, rest)
      else if c == Byte(NAK) then Started(src, false, stale, rest)
      else if c == Byte(CAN) then OnCan(rest, TryAgain(s, Tail(rest)))
      else TryAgain(s, rest)
    case Sending(crc, packetno, len, _, _) =>
      if c == Byte(ACK) then
        TxStep(StartBlock(src, crc, Succ(packetno), len + BLOCK, NextStale(kind, src, s)), [], rest)
      else if c == Byte(CAN) then OnCan(rest, TryAgain(s, Tail(rest)))
      else TryAgain(s, rest)
    case Ending(len, _) =>
      if c == Byte(ACK) then TxStep(Finished(len), [], Flushed(rest)) else TryAgain(s, rest)
  }

  lemma StillWaiting(kind: CheckField, src: seq<byte>, s: Tx, ev: seq<Event>)
    requires Waiting(src, s)
    ensures var n := TxReact(kind, src, s, ev).next; n.Finished? || Waiting(src, n)
  {
    hide CheckBytes, Block;
  }

  function Rank(s: Tx): nat {
    match s case Syncing(_, _) => 3 case Sending(_, _, _, _, _) => 2 case Ending(_, _) => 1 case Finished(_) => 0
  }

  function ToGo(src: seq<byte>, s: Tx): int {
    if s.Sending? then |src| - s.len else 0
  }

  function TriesLeft(s: Tx): int {
    match s
    case Syncing(tries, _) => SYNC_TRIES - tries
    case Sending(_, _, _, tries, _) => RETRY_LIMIT - tries
    case Ending(_, tries) => END_TRIES - tries
    case Finished(_) => 0
  }

  lemma Progresses(kind: CheckField, src: seq<byte>, s: Tx, ev: seq<Event>)
    requires Waiting(src, s)
    ensures var n := TxReact(kind, src, s, ev).next;
            n.Finished? || Rank(n) < Rank(s) ||
            (Rank(n) == Rank(s) &&
             (ToGo(src, n) < ToGo(src, s) || (ToGo(src, n) == ToGo(src, s) && TriesLeft(n) < TriesLeft(s))))
  {
    hide CheckBytes, Block;
  }

  datatype TxRunResult = TxRunResult(code: int, out: seq<byte>, rest: seq<Event>)

  /** The rest of the transfer from a state in which it waits. It ends whatever the answers are. */
  function TxRun(kind: CheckField, src: seq<byte>, s: Tx, ev: seq<Event>): TxRunResult
    requires Waiting(src, s)
    decreases Rank(s), ToGo(src, s), TriesLeft(s)
  {
    var st := TxReact(kind, src, s, ev);
    StillWaiting(kind, src, s, ev);
    Progresses(kind, src, s, ev);
    var before := TxOutput(kind, src, s) + st.out;
    if st.next.Finished? then TxRunResult(st.next.code, before, st.rest)
    else
      var r := TxRun(kind, src, st.next, st.rest);
      r.(out := before + r.out)
  }

  // The code

  /** transmit_cb: memcpy(to + at, &src[curpos], length) */
  method TransmitCb(src: array<byte>, curpos: nat, to: array<byte>, at: nat, length: nat)
    requires src != to && curpos + length <= src.Length && at + length <= to.Length
    modifies to
    ensures to[..] == old(to[..at]) + src[curpos..curpos + length] + old(to[at + length..])
  {
    forall i | 0 <= i < length {
      to[at + i] := src[curpos + i];
    }
    assert to[..] == old(to[..at]) + src[curpos..curpos + length] + old(to[at + length..]);
  }

  /** The payload of one packet, at xbuff[3]. */
  method FillBlock(src: array<byte>, curpos: nat, xbuff: array<byte>)
    requires src != xbuff && curpos <= src.Length && xbuff.Length == 1030
    modifies xbuff
    ensures xbuff[3..131] == Block(src[..], curpos)
    ensures xbuff[..3] == old(xbuff[..3]) && xbuff[131..] == old(xbuff[131..])
  {
    ghost var before, behind := xbuff[..3], xbuff[131..];
    var c := if src.Length - curpos > BLOCK then BLOCK else src.Length - curpos;
    forall i | 3 <= i < 131 {
      xbuff[i] := 0;
    }
    assert xbuff[..] == before + ZeroBytes(BLOCK) + behind;
    ghost var data := src[curpos..curpos + c];
    assert data == src[..][curpos..curpos + c];
    if c == 0 {
      xbuff[3] := CTRLZ;
      assert xbuff[..] == before + ([CTRLZ] + ZeroBytes(BLOCK - 1)) + behind;
    } else {
      assert xbuff[3 + c..] == ZeroBytes(BLOCK - c) + behind;
      TransmitCb(src, curpos, xbuff, 3, c);
      assert xbuff[..] == before + (data + ZeroBytes(BLOCK - c)) + behind;
      if c < BLOCK {
        xbuff[3 + c] := CTRLZ;
        assert xbuff[..] == before + (data + [CTRLZ] + ZeroBytes(BLOCK - 1 - c)) + behind;
      }
    }
    BlockIs(src[..], curpos, c);
    Middle(xbuff[..], before, Block(src[..], curpos), behind);
    assert xbuff[3..131] == xbuff[..][3..131] && xbuff[..3] == xbuff[..][..3] && xbuff[131..] == xbuff[..][131..];
  }

  lemma BlockIs(src: seq<byte>, len: nat, c: nat)
    requires len <= |src| && c == if |src| - len > BLOCK then BLOCK else |src| - len
    ensures c == 0 ==> Block(src, len) == [CTRLZ] + ZeroBytes(BLOCK - 1)
    ensures 0 < c < BLOCK ==> Block(src, len) == src[len..len + c] + [CTRLZ] + ZeroBytes(BLOCK - 1 - c)
    ensures c == BLOCK ==> Block(src, len) == src[len..len + c] + ZeroBytes(0)
  {
    if c == 0 {
      assert src[len..] == [];
    }
  }

  lemma Middle(s: seq<byte>, a: seq<byte>, b: seq<byte>, c: seq<byte>)
    requires s == a + b + c
    ensures s[..|a|] == a && s[|a|..|a| + |b|] == b && s[|a| + |b|..] == c
  {
  }

  method PutBytes(port: Port, xbuff: array<byte>, n: nat)
    requires n <= xbuff.Length
    modifies port
    ensures port.output == old(port.output) + xbuff[..n] && port.input == old(port.input)
  {
    for i := 0 to n
      invariant port.output == old(port.output) + xbuff[..i] && port.input == old(port.input)
    {
      port.PutChar(xbuff[i]);
    }
  }

  /** The packet for the block at len, built over what xbuff held. */
  method BuildPacket(src: array<byte>, len: nat, crc: bool, packetno: byte, xbuff: array<byte>)
    requires src != xbuff && len <= src.Length && xbuff.Length == 1030
    modifies xbuff
    ensures xbuff[..BLOCK + 4 + (if crc then 1 else 0)] ==
            Frame(AsCoded, crc, packetno, Block(src[..], len), old(xbuff[131]))
    ensures xbuff[131] == CheckBytes(AsCoded, crc, Block(src[..], len), old(xbuff[131]))[0]
  {
    hide Block, Sum, Complement, Crc;
    ghost var stale := xbuff[131];
    xbuff[0] := SOH;
    xbuff[1] := packetno;
    xbuff[2] := Complement(packetno);
    FillBlock(src, len, xbuff);
    ghost var block := Block(src[..], len);
    assert xbuff[131] == xbuff[131..][0] == stale;
    assert xbuff[..3] == [SOH, packetno, Complement(packetno)];
    BehindBlock(xbuff[..], block);
    assert xbuff[3..] == xbuff[..][3..];
    if crc {
      var ccrc := XmodemChksum(0, xbuff, 3, BLOCK);
      xbuff[BLOCK + 3] := 0;
      xbuff[BLOCK + 4] := if ccrc == 1 then 1 else 0;
      assert xbuff[..133] == xbuff[..3] + xbuff[3..131] + [xbuff[131], xbuff[132]];
    } else {
      var ccks := SumOf(xbuff, 3, BLOCK);
      xbuff[BLOCK + 3] := ccks;
      assert xbuff[..132] == xbuff[..3] + xbuff[3..131] + [xbuff[131]];
    }
  }

  /** xmodem_chksum without its flag compares the sum of the block with the byte behind it. */
  lemma BehindBlock(xbuff: seq<byte>, block: seq<byte>)
    requires |xbuff| >= 132 && |block| == BLOCK && xbuff[3..131] == block
    ensures Checks(false, xbuff[3..], BLOCK) == (Sum(0, block) == xbuff[131])
  {
    assert xbuff[3..][..BLOCK] == block && xbuff[3..][BLOCK] == xbuff[131];
  }

  method SumOf(buffer: array<byte>, off: nat, size: nat) returns (cksum: byte)
    requires off + size <= buffer.Length
    ensures cksum == Sum(0, buffer[off..off + size])
  {
    cksum := 0;
    for i := off to off + size
      invariant Sum(cksum, buffer[i..off + size]) == Sum(0, buffer[off..off + size])
    {
      assert buffer[i..off + size][1..] == buffer[i + 1..off + size];
      cksum := cksum + buffer[i];
    }
  }

  /** The rest of a run that has already sent some bytes. */
  ghost predicate RestOf(whole: TxRunResult, sent: seq<byte>, r: TxRunResult) {
    whole.code == r.code && whole.rest == r.rest && whole.out == sent + r.out
  }

  lemma TxTurn(whole: TxRunResult, sent: seq<byte>, kind: CheckField, src: seq<byte>, s: Tx, ev: seq<Event>)
    requires Waiting(src, s) && RestOf(whole, sent, TxRun(kind, src, s, ev))
    ensures var st := TxReact(kind, src, s, ev);
            var sent' := sent + TxOutput(kind, src, s) + st.out;
            if st.next.Finished? then whole == TxRunResult(st.next.code, sent', st.rest)
            else Waiting(src, st.next) && RestOf(whole, sent', TxRun(kind, src, st.next, st.rest))
  {
    hide TxReact, TxOutput, Waiting;
    var st := TxReact(kind, src, s, ev);
    StillWaiting(kind, src, s, ev);
    var o := TxOutput(kind, src, s);
    if st.next.Finished? {
      assert sent + (o + st.out) == sent + o + st.out;
    } else {
      var r := TxRun(kind, src, st.next, st.rest);
      assert sent + (o + st.out + r.out) == sent + o + st.out + r.out;
    }
  }

  /** A byte other than CAN, or a silence, leaves the try over; after CAN one more byte is read. */
  method SecondCan(port: Port) returns (stop: bool)
    modifies port
    ensures stop == (Head(old(port.input)) == Byte(CAN))
    ensures stop ==> port.input == Flushed(Tail(old(port.input))) && port.output == old(port.output) + [ACK]
    ensures !stop ==> port.input == Tail(old(port.input)) && port.output == old(port.output)
  {
    var c := port.GetChar();
    stop := c == Byte(CAN);
    if stop {
      port.PutChar(ACK);
      port.FlushInput();
    }
  }

  /** The first loop: wait for the receiver to ask for a transfer, and in which mode. */
  method Synchronise(port: Port, ghost src: seq<byte>, ghost stale: byte, ghost whole: TxRunResult)
    returns (code: int, crc: bool, ghost sent: seq<byte>)
    requires RestOf(whole, [], TxRun(AsCoded, src, Syncing(0, stale), port.input))
    modifies port
    ensures port.output == old(port.output) + sent
    ensures if code < 0 then whole == TxRunResult(code, sent, port.input)
            else RestOf(whole, sent, TxRun(AsCoded, src, StartBlock(src, crc, 1, 0, stale), port.input))
  {
    hide RestOf, TxRun;
    sent, crc := [], false;
    ghost var out0 := port.output;
    var retry := 0;
    while true
      invariant retry < SYNC_TRIES && port.output == out0 + sent
      invariant RestOf(whole, sent, TxRun(AsCoded, src, Syncing(retry, stale), port.input))
      decreases SYNC_TRIES - retry
    {
      ghost var st := TxReact(AsCoded, src, Syncing(retry, stale), port.input);
      TxTurn(whole, sent, AsCoded, src, Syncing(retry, stale), port.input);
      assert sent + [] == sent && out0 + (sent + st.out) == out0 + sent + st.out;
      sent := sent + st.out;
      var c := port.GetChar();
      if c == Byte(LETTER_C) {
        return 0, true, sent;
      }
      if c == Byte(NAK) {
        return 0, false, sent;
      }
      if c == Byte(CAN) {
        var stop := SecondCan(port);
        if stop {
          return -1, false, sent;
        }
      }
      retry := retry + 1;
      if retry == SYNC_TRIES {
        port.PutCancel();
        port.FlushInput();
        return -2, false, sent;
      }
    }
  }

  /** The retry loop of one packet. A code of 0 means that it was acknowledged. */
  method OfferPacket(port: Port, xbuff: array<byte>, ghost src: seq<byte>, crc: bool, ghost s0: Tx,
                     ghost out0: seq<byte>, ghost sent0: seq<byte>, ghost whole: TxRunResult)
    returns (code: int, ghost sent: seq<byte>)
    requires xbuff.Length == 1030 && s0.Sending? && s0.tries == 0 && s0.crc == crc && Waiting(src, s0)
    requires xbuff[..BLOCK + 4 + (if crc then 1 else 0)] == TxOutput(AsCoded, src, s0)
    requires port.output == out0 + sent0 && RestOf(whole, sent0, TxRun(AsCoded, src, s0, port.input))
    modifies port
    ensures port.output == out0 + sent
    ensures if code < 0 then whole == TxRunResult(code, sent, port.input)
            else RestOf(whole, sent, TxRun(AsCoded, src, Acknowledged(AsCoded, src, s0), port.input))
  {
    hide RestOf, TxRun, TxOutput, TxReact, Acknowledged;
    sent := sent0;
    var retry := 0;
    while true
      invariant retry < RETRY_LIMIT && port.output == out0 + sent
      invariant RestOf(whole, sent, TxRun(AsCoded, src, Retrying(s0, retry), port.input))
      decreases RETRY_LIMIT - retry
    {
      ghost var s := Retrying(s0, retry);
      ghost var st := TxReact(AsCoded, src, s, port.input);
      ghost var frame := TxOutput(AsCoded, src, s);
      TxTurn(whole, sent, AsCoded, src, s, port.input);
      SendingReacts(AsCoded, src, s0, retry, port.input);
      assert out0 + (sent + frame + st.out) == out0 + sent + frame + st.out;
      sent := sent + frame + st.out;
      PutBytes(port, xbuff, BLOCK + 4 + (if crc then 1 else 0));
      var c := port.GetChar();
      if c == Byte(ACK) {
        return 0, sent;
      }
      if c == Byte(CAN) {
        var stop := SecondCan(port);
        if stop {
          return -1, sent;
        }
      }
      retry := retry + 1;
      if retry == RETRY_LIMIT {
        port.PutCancel();
        port.FlushInput();
        return -4, sent;
      }
    }
  }

  function Retrying(s: Tx, tries: nat): Tx
    requires s.Sending?
  {
    Sending(s.crc, s.packetno, s.len, tries, s.stale)
  }

  /** The state after the packet has been acknowledged. */
  function Acknowledged(kind: CheckField, src: seq<byte>, s: Tx): Tx
    requires s.Sending? && s.len <= |src|
  {
    StartBlock(src, s.crc, Succ(s.packetno), s.len + BLOCK, NextStale(kind, src, s))
  }

  /** Every try of a packet sends the same and reacts the same, but for the count. */
  lemma SendingReacts(kind: CheckField, src: seq<byte>, s: Tx, tries: nat, ev: seq<Event>)
    requires s.Sending? && tries < RETRY_LIMIT && s.len <= |src|
    ensures var t := Retrying(s, tries);
            var st := TxReact(kind, src, t, ev);
            !Acknowledged(kind, src, s).Finished? &&
            (s.tries < RETRY_LIMIT ==> TxOutput(kind, src, t) == TxOutput(kind, src, s)) &&
            if Head(ev) == Byte(ACK) then st == TxStep(Acknowledged(kind, src, s), [], Tail(ev))
            else if Head(ev) == Byte(CAN) then st == OnCan(Tail(ev), TryAgain(t, Tail(Tail(ev))))
            else st == TryAgain(t, Tail(ev))
  {
    hide Frame, CheckBytes, Block;
  }

  /** The last loop: EOT until it is acknowledged. */
  method EndTransfer(port: Port, len: nat, ghost src: seq<byte>, ghost out0: seq<byte>, ghost sent0: seq<byte>,
                     ghost whole: TxRunResult)
    returns (code: int, ghost sent: seq<byte>)
    requires port.output == out0 + sent0 && RestOf(whole, sent0, TxRun(AsCoded, src, Ending(len, 0), port.input))
    modifies port
    ensures port.output == out0 + sent && whole == TxRunResult(code, sent, port.input)
  {
    hide RestOf, TxRun;
    sent := sent0;
    var retry := 0;
    while true
      invariant retry < END_TRIES && port.output == out0 + sent
      invariant RestOf(whole, sent, TxRun(AsCoded, src, Ending(len, retry), port.input))
      decreases END_TRIES - retry
    {
      ghost var s := Ending(len, retry);
      TxTurn(whole, sent, AsCoded, src, s, port.input);
      assert out0 + (sent + [EOT] + []) == out0 + sent + [EOT];
      sent := sent + [EOT] + [];
      port.PutChar(EOT);
      var c := port.GetChar();
      if c == Byte(ACK) {
        port.FlushInput();
        return len, sent;
      }
      retry := retry + 1;
      if retry == END_TRIES {
        port.FlushInput();
        return -5, sent;
      }
    }
  }

  method XmodemTxAsync(port: Port, src: array<byte>, stack: byte) returns (code: int)
    modifies port
    ensures var r := TxRun(AsCoded, src[..], Syncing(0, stack), old(port.input));
            code == r.code && port.input == r.rest && port.output == old(port.output) + r.out
  {
    hide RestOf, TxRun, Block, CheckBytes, Frame;
    var xbuff := new byte[1030];
    xbuff[BLOCK + 3] := stack;  // the buffer is on the stack and not initialised
    ghost var whole, out0 := TxRun(AsCoded, src[..], Syncing(0, stack), port.input), port.output;
    WholeRun(whole);
    var crc: bool;
    ghost var sent: seq<byte>;
    code, crc, sent := Synchronise(port, src[..], stack, whole);
    if code < 0 {
      return;
    }
    var packetno: byte, len := 1, 0;
    while len <= src.Length
      invariant port.output == out0 + sent
      invariant var s := StartBlock(src[..], crc, packetno, len, xbuff[BLOCK + 3]);
                RestOf(whole, sent, TxRun(AsCoded, src[..], s, port.input))
      decreases src.Length - len
    {
      ghost var s := Sending(crc, packetno, len, 0, xbuff[BLOCK + 3]);
      BuildPacket(src, len, crc, packetno, xbuff);
      code, sent := OfferPacket(port, xbuff, src[..], crc, s, out0, sent, whole);
      if code < 0 {
        return;
      }
      packetno := Succ(packetno);
      len := len + BLOCK;
    }
    code, sent := EndTransfer(port, len, src[..], out0, sent, whole);
  }

  lemma WholeRun(whole: TxRunResult)
    ensures RestOf(whole, [], whole)
  {
  }
}
