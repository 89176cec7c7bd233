/** xmodem_get_async: one turn of its loop as a step of a state machine, the whole run, and what holds of every run. */
module XmodemReceiver {
  import opened Gf256
  import opened Crc16
  import opened XmodemPort

  /** One call of recv_cb, with the packet that caused it. */
  datatype Delivery = Delivery(pos: nat, data: seq<byte>, packet: seq<byte>)

  /** The variables the loop carries. A response of 0 means that nothing is sent. */
  datatype Rx = Rx(seqnum: byte, pktsize: nat, response: byte, retry: nat, crcflag: bool, calls: seq<Delivery>)

  datatype Status = Running | Received(total: nat) | RemoteCancel | OutOfSync | RetryExceeded

  const START := Rx(1, 128, LETTER_C, RETRY_LIMIT, false, [])

  /** Eight-bit arithmetic on sequence numbers. */
  function Succ(b: byte): byte {
    b + 1
  }

  function Pred(b: byte): byte {
    b - 1
  }

  function Complement(b: byte): byte {
    !b
  }

  function Total(calls: seq<Delivery>): nat {
    if calls == [] then 0 else Total(calls[..|calls| - 1]) + |calls[|calls| - 1].data|
  }

  /** The bytes delivered, in order. */
  function Delivered(calls: seq<Delivery>): seq<byte> {
    if calls == [] then [] else Delivered(calls[..|calls| - 1]) + calls[|calls| - 1].data
  }

  datatype Collected = All(bytes: seq<byte>, rest: seq<Event>) | Missing(rest: seq<Event>) {
    function After(before: seq<byte>): Collected {
      if All? then this.(bytes := before + bytes) else this
    }
  }

  /** The next n bytes, unless a silence comes first. */
  function Collect(ev: seq<Event>, n: nat): (r: Collected)
    ensures |r.rest| <= |ev|
    ensures r.All? ==> |r.bytes| == n
    decreases n
  {
    if n == 0 then All([], ev)
    else match Head(ev)
      case Timeout => Missing(Tail(ev))
      case Byte(b) =>
        Collect(Tail(ev), n - 1).After([b])
  }

  /** What the receiver makes of the input at the top of a turn. */
  datatype Input =
    | Quiet(rest: seq<Event>)
    | End(rest: seq<Event>)
    | Cancel(rest: seq<Event>)
    | Cut(size: nat, rest: seq<Event>)
    | Packet(size: nat, packet: seq<byte>, rest: seq<Event>)

  function CheckLength(crcflag: bool): nat {
    if crcflag then 2 else 1
  }

  function ReadPacket(first: byte, size: nat, crcflag: bool, ev: seq<Event>): (r: Input)
    ensures |r.rest| <= |ev|
    ensures r.Packet? ==> r.size == size && |r.packet| == 3 + size + CheckLength(crcflag)
  {
    match Collect(ev, size + 2 + CheckLength(crcflag))
    case All(bytes, rest) => Packet(size, [first] + bytes, rest)
    case Missing(rest) => Cut(size, Flushed(rest))
  }

  /** The byte stored for the value -1 that a timeout returns. */
  function Stored(e: Event): byte {
    if e.Byte? then e.b else 0xff
  }

  function UsesCrc(s: Rx): bool {
    s.crcflag || s.response == LETTER_C
  }

  function PacketSize(s: Rx, b: byte): nat {
    if b == SOH then 128 else if b == STX then 1024 else s.pktsize
  }

  /** A single CAN is followed by another read, whose byte then heads the packet. */
  function ReadInput(s: Rx, ev: seq<Event>): (r: Input)
    ensures |r.rest| <= |ev| && (ev != [] ==> |r.rest| < |ev|)
    ensures ev == [] ==> r.Quiet?
    ensures r.Packet? ==> |r.packet| == 3 + r.size + CheckLength(UsesCrc(s))
  {
    match Head(ev)
    case Timeout => Quiet(Tail(ev))
    case Byte(b) =>
      if b == EOT then End(Flushed(Tail(ev)))
      else if b == CAN then
        var second := Head(Tail(ev));
        if second == Byte(CAN) then Cancel(Flushed(Tail(Tail(ev))))
        else ReadPacket(Stored(second), s.pktsize, UsesCrc(s), Tail(Tail(ev)))
      else ReadPacket(b, PacketSize(s, b), UsesCrc(s), Tail(ev))
  }

  /** Sequence number, its complement and the check bytes are all right. */
  predicate Intact(packet: seq<byte>, size: nat, crcflag: bool)
    requires |packet| == 3 + size + CheckLength(crcflag)
  {
    packet[1] == Complement(packet[2]) && Checks(crcflag, packet[3..], size)
  }

  datatype Step = Step(next: Rx, status: Status, out: seq<byte>, rest: seq<Event>)

  /** The second half of a turn: a whole packet has been read. */
  function Judge(s: Rx, size: nat, packet: seq<byte>, rest: seq<Event>): (r: Step)
    requires s.retry > 0 && |packet| == 3 + size + CheckLength(UsesCrc(s))
    ensures |r.rest| <= |rest|
  {
    var t := s.(crcflag := UsesCrc(s), pktsize := size);
    if !Intact(packet, size, t.crcflag) then
      Step(t.(retry := s.retry - 1, response := NAK), Running, [], Flushed(rest))
    else if packet[1] == s.seqnum then
      var d := Delivery(Total(s.calls), packet[3..3 + size], packet);
      Step(Rx(Succ(s.seqnum), size, ACK, RETRY_LIMIT, t.crcflag, s.calls + [d]), Running, [], rest)
    else if packet[1] == Pred(s.seqnum) then
      Step(t.(response := ACK), Running, [], rest)
    else Step(s, OutOfSync, [CAN, CAN, CAN], Flushed(rest))
  }

  /** One turn of the loop after its response has been sent. */
  function RxStep(s: Rx, ev: seq<Event>): (r: Step)
    requires s.retry > 0
    ensures |r.rest| <= |ev|
    ensures r.status.Running? ==> |r.rest| < |ev| || r.next.retry < s.retry
  {
    match ReadInput(s, ev)
    case Quiet(rest) =>
      Step(s.(retry := s.retry - 1, response := if s.response == LETTER_C then LETTER_C else 0), Running, [], rest)
    case End(rest) => Step(s, Received(Total(s.calls)), [ACK], rest)
    case Cancel(rest) => Step(s, RemoteCancel, [ACK], rest)
    case Cut(size, rest) =>
      Step(s.(crcflag := UsesCrc(s), pktsize := size, retry := s.retry - 1, response := NAK), Running, [], rest)
    case Packet(size, packet, rest) => Judge(s, size, packet, rest)
  }

  function Sent(response: byte): seq<byte> {
    if response == 0 then [] else [response]
  }

  datatype Run = Run(status: Status, calls: seq<Delivery>, out: seq<byte>, rest: seq<Event>)

  /** The loop from a state on. */
  function RxRun(s: Rx, ev: seq<Event>): (r: Run)
    ensures !r.status.Running?
    decreases |ev|, s.retry
  {
    if s.retry == 0 then Run(RetryExceeded, s.calls, [CAN, CAN, CAN], Flushed(ev))
    else
      var st := RxStep(s, ev);
      if st.status.Running? then
        var r := RxRun(st.next, st.rest);
        r.(out := Sent(s.response) + st.out + r.out)
      else Run(st.status, s.calls, Sent(s.response) + st.out, st.rest)
  }

  // The loop itself

  lemma CollectByte(got: seq<byte>, ev: seq<Event>, n: nat)
    requires n > 0
    ensures Head(ev).Byte? ==>
              Collect(ev, n).After(got) == Collect(Tail(ev), n - 1).After(got + [Head(ev).b])
    ensures Head(ev).Timeout? ==> Collect(ev, n) == Missing(Tail(ev))
  {
    if Head(ev).Byte? {
      var r := Collect(Tail(ev), n - 1);
      if r.All? {
        assert got + ([Head(ev).b] + r.bytes) == got + [Head(ev).b] + r.bytes;
      }
    }
  }

  lemma CollectNone(got: seq<byte>, ev: seq<Event>)
    ensures Collect(ev, 0).After(got) == All(got, ev)
  {
    assert got + [] == got;
  }

  lemma CollectStart(ev: seq<Event>, n: nat)
    ensures Collect(ev, n).After([]) == Collect(ev, n)
  {
    var r := Collect(ev, n);
    if r.All? {
      assert [] + r.bytes == r.bytes;
    }
  }

  /** The inner loop: n bytes into the buffer behind its first one. A silence flushes the input and ends it early. */
  method Fill(port: Port, xmbuf: array<byte>, n: nat) returns (i: nat)
    requires n + 1 <= xmbuf.Length
    modifies port, xmbuf
    ensures port.output == old(port.output) && xmbuf[0] == old(xmbuf[0])
    ensures match Collect(old(port.input), n)
            case All(bytes, rest) => i == n && xmbuf[1..1 + n] == bytes && port.input == rest
            case Missing(rest) => i < n && port.input == Flushed(rest)
  {
    hide Collect;
    ghost var ev0, got: seq<byte> := port.input, [];
    CollectStart(ev0, n);
    i := 0;
    while i < n
      invariant 0 <= i <= n && |got| == i
      invariant port.output == old(port.output) && xmbuf[0] == old(xmbuf[0])
      invariant xmbuf[1..1 + i] == got
      invariant Collect(ev0, n) == Collect(port.input, n - i).After(got)
    {
      CollectByte(got, port.input, n - i);
      var c := port.GetChar();
      if c.Byte? {
        Store(xmbuf, 1 + i, c.b);
        got := got + [c.b];
      } else {
        port.FlushInput();
        return;
      }
      i := i + 1;
    }
    CollectNone(got, port.input);
  }

  /** xmbuf[k] = b */
  method Store(xmbuf: array<byte>, k: nat, b: byte)
    requires 1 <= k < xmbuf.Length
    modifies xmbuf
    ensures xmbuf[1..k + 1] == old(xmbuf[1..k]) + [b] && xmbuf[0] == old(xmbuf[0])
  {
    xmbuf[k] := b;
  }

  /** The run from here on, as it continues a run that has already sent some bytes. */
  ghost predicate Continues(whole: Run, sent: seq<byte>, r: Run) {
    whole.status == r.status && whole.calls == r.calls && whole.rest == r.rest && whole.out == sent + r.out
  }

  lemma ContinueTurn(whole: Run, sent: seq<byte>, s: Rx, ev: seq<Event>)
    requires s.retry > 0 && Continues(whole, sent, RxRun(s, ev))
    ensures var st := RxStep(s, ev); var sent' := sent + Sent(s.response) + st.out;
            if st.status.Running? then Continues(whole, sent', RxRun(st.next, st.rest))
            else whole == Run(st.status, s.calls, sent', st.rest)
  {
    hide RxStep;
    var st := RxStep(s, ev);
    if st.status.Running? {
      assert sent + (Sent(s.response) + st.out + RxRun(st.next, st.rest).out)
          == sent + Sent(s.response) + st.out + RxRun(st.next, st.rest).out;
    } else {
      assert sent + (Sent(s.response) + st.out) == sent + Sent(s.response) + st.out;
    }
  }

  /** What comes after the check bytes does not matter. */
  lemma ChecksPrefix(crcflag: bool, s: seq<byte>, size: nat)
    requires 3 + size + CheckLength(crcflag) <= |s|
    ensures Checks(crcflag, s[..3 + size + CheckLength(crcflag)][3..], size) == Checks(crcflag, s[3..], size)
  {
    hide Crc, Sum, Word;
    var t := s[..3 + size + CheckLength(crcflag)][3..];
    forall k | 0 <= k < |t| ensures t[k] == s[3..][k] {
    }
    assert t[..size] == s[3..][..size];
  }

  method PacketIntact(xmbuf: array<byte>, size: nat, crcflag: bool) returns (sound: bool)
    requires 3 + size + CheckLength(crcflag) <= xmbuf.Length
    ensures sound == Intact(xmbuf[..3 + size + CheckLength(crcflag)], size, crcflag)
  {
    hide Checks;
    ghost var n := 3 + size + CheckLength(crcflag);
    assert xmbuf[..n] == xmbuf[..][..n];
    assert xmbuf[3..] == xmbuf[..][3..];
    ChecksPrefix(crcflag, xmbuf[..], size);
    var ok := XmodemChksum(if crcflag then 1 else 0, xmbuf, 3, size);
    sound := xmbuf[1] == Complement(xmbuf[2]) && ok == 1;
  }

  datatype Kind = Nothing | Ended | Cancelled | Broken | Whole

  function KindOf(i: Input): Kind {
    match i
    case Quiet(_) => Nothing
    case End(_) => Ended
    case Cancel(_) => Cancelled
    case Cut(_, _) => Broken
    case Packet(_, _, _) => Whole
  }

  /** The first half of a turn: the header byte and, when it heads a packet, the rest of the packet into xmbuf. */
  method ReadTurn(port: Port, xmbuf: array<byte>, s: Rx) returns (kind: Kind, pktsize: nat)
    requires xmbuf.Length == 1030 && (s.pktsize == 128 || s.pktsize == 1024)
    modifies port, xmbuf
    ensures port.output == old(port.output) && (pktsize == 128 || pktsize == 1024)
    ensures var r := ReadInput(s, old(port.input));
            kind == KindOf(r) && port.input == r.rest &&
            match r
            case Cut(size, _) => pktsize == size
            case Packet(size, packet, _) => pktsize == size && xmbuf[..3 + size + CheckLength(UsesCrc(s))] == packet
            case _ => pktsize == s.pktsize
  {
    hide Collect;
    pktsize := s.pktsize;
    var c := port.GetChar();
    if c.Timeout? {
      return Nothing, pktsize;
    }
    if c.b == SOH {
      pktsize := 128;
    } else if c.b == STX {
      pktsize := 1024;
    } else if c.b == EOT {
      port.FlushInput();
      return Ended, pktsize;
    } else if c.b == CAN {
      c := port.GetChar();
      if c == Byte(CAN) {
        port.FlushInput();
        return Cancelled, pktsize;
      }
    }
    var crcflag := s.crcflag || s.response == LETTER_C;
    xmbuf[0] := Stored(c);
    var n := pktsize + 2 + CheckLength(crcflag);
    ghost var ev := port.input;
    var i := Fill(port, xmbuf, n);
    kind := if i < n then Broken else Whole;
    if i == n {
      assert xmbuf[..n + 1] == [xmbuf[0]] + xmbuf[1..1 + n];
    }
  }

  /** The second half of a turn: accept the packet, acknowledge a repeated one, give up, or ask again. */
  method JudgeTurn(port: Port, s: Rx, pktsize: nat, packet: seq<byte>, sound: bool)
    returns (next: Rx, status: Status)
    requires s.retry > 0 && |packet| == 3 + pktsize + CheckLength(UsesCrc(s))
    requires sound == Intact(packet, pktsize, UsesCrc(s))
    modifies port
    ensures var st := Judge(s, pktsize, packet, old(port.input));
            next == st.next && status == st.status && port.input == st.rest && port.output == old(port.output) + st.out
  {
    hide Intact, Total, Succ, Pred;
    var crcflag := s.crcflag || s.response == LETTER_C;
    if !sound {
      port.FlushInput();
      return s.(crcflag := crcflag, pktsize := pktsize, retry := s.retry - 1, response := NAK), Running;
    } else if packet[1] == s.seqnum {
      var d := Delivery(Total(s.calls), packet[3..3 + pktsize], packet);
      return Rx(Succ(s.seqnum), pktsize, ACK, RETRY_LIMIT, crcflag, s.calls + [d]), Running;
    } else if packet[1] == Pred(s.seqnum) {
      return s.(crcflag := crcflag, pktsize := pktsize, response := ACK), Running;
    } else {
      port.FlushInput();
      port.PutCancel();
      return s, OutOfSync;
    }
  }

  /** A whole turn, after the response has been sent. */
  method Turn(port: Port, xmbuf: array<byte>, s: Rx) returns (next: Rx, status: Status)
    requires s.retry > 0 && xmbuf.Length == 1030 && (s.pktsize == 128 || s.pktsize == 1024)
    modifies port, xmbuf
    ensures var st := RxStep(s, old(port.input));
            next == st.next && status == st.status && port.input == st.rest && port.output == old(port.output) + st.out
    ensures status.Running? ==> next.pktsize == 128 || next.pktsize == 1024
    ensures !status.Running? ==> next.calls == s.calls
  {
    hide Intact, ReadInput, Judge;
    var kind, pktsize := ReadTurn(port, xmbuf, s);
    match kind {
      case Nothing =>
        return s.(retry := s.retry - 1, response := if s.response == LETTER_C then LETTER_C else 0), Running;
      case Ended =>
        port.PutChar(ACK);
        return s, Received(Total(s.calls));
      case Cancelled =>
        port.PutChar(ACK);
        return s, RemoteCancel;
      case Broken =>
        return s.(crcflag := UsesCrc(s), pktsize := pktsize, retry := s.retry - 1, response := NAK), Running;
      case Whole =>
        var sound := PacketIntact(xmbuf, pktsize, UsesCrc(s));
        var packet := xmbuf[..3 + pktsize + CheckLength(UsesCrc(s))];
        JudgeShape(s, pktsize, packet, port.input);
        next, status := JudgeTurn(port, s, pktsize, packet, sound);
    }
  }

  method Respond(port: Port, response: byte)
    modifies port
    ensures port.output == old(port.output) + Sent(response) && port.input == old(port.input)
  {
    if response != 0 {
      port.PutChar(response);
    }
  }

  lemma Joined(a: seq<byte>, b: seq<byte>, c: seq<byte>, d: seq<byte>)
    ensures a + (b + c + d) == a + b + c + d
    ensures c == [] ==> a + (b + d) == a + b + d
  {
  }

  /** The loop's variables are kept in one record, whose calls are the recv_cb calls so far. */
  method XmodemGetAsync(port: Port, maxszs: nat) returns (result: Status, calls: seq<Delivery>)
    modifies port
    ensures var r := RxRun(START, old(port.input));
            result == r.status && calls == r.calls && port.input == r.rest && port.output == old(port.output) + r.out
  {
    hide RxRun, RxStep, Sent, Continues;
    var xmbuf := new byte[1030];
    var s := START;
    ghost var whole, out0 := RxRun(START, port.input), port.output;
    ghost var sent: seq<byte> := [];
    ContinueStart(whole);
    while s.retry > 0
      invariant s.pktsize == 128 || s.pktsize == 1024
      invariant port.output == out0 + sent
      invariant Continues(whole, sent, RxRun(s, port.input))
      decreases |port.input|, s.retry
    {
      ContinueTurn(whole, sent, s, port.input);
      ghost var st := RxStep(s, port.input);
      Joined(out0, sent, Sent(s.response), st.out);
      sent := sent + Sent(s.response) + st.out;
      Respond(port, s.response);
      var status;
      s, status := Turn(port, xmbuf, s);
      if !status.Running? {
        return status, s.calls;
      }
    }
    RunEnds(whole, sent, s, port.input);
    Joined(out0, sent, [], [CAN, CAN, CAN]);
    port.FlushInput();
    port.PutCancel();
    result, calls := RetryExceeded, s.calls;
  }

  lemma JudgeShape(s: Rx, size: nat, packet: seq<byte>, rest: seq<Event>)
    requires s.retry > 0 && |packet| == 3 + size + CheckLength(UsesCrc(s))
    ensures var st := Judge(s, size, packet, rest);
            if st.status.Running? then st.next.pktsize == size else st.next.calls == s.calls
  {
    hide Intact, Total;
  }

  lemma ContinueStart(whole: Run)
    ensures Continues(whole, [], whole)
  {
  }

  lemma RunEnds(whole: Run, sent: seq<byte>, s: Rx, ev: seq<Event>)
    requires s.retry == 0 && Continues(whole, sent, RxRun(s, ev))
    ensures whole == Run(RetryExceeded, s.calls, sent + [CAN, CAN, CAN], Flushed(ev))
  {
  }
}
