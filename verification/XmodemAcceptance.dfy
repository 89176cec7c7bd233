/** What the receiver makes of a whole packet, of a whole stream of packets, and of silence, said of the events alone.
    The numbers of the protocol are written out: 0x01 SOH, 0x02 STX, 0x04 EOT, 0x06 ACK, 0x15 NAK, 0x18 CAN, 0x43 C. */
module XmodemAcceptance {
  import opened Gf256
  import opened Crc16
  import opened XmodemPort
  import opened XmodemReceiver
  import opened XmodemReception
  import opened XmodemLink

  /** A packet on the line: the events that head it, and its bytes. */
  datatype Packet = Packet(header: seq<Event>, number: byte, complement: byte, data: seq<byte>, high: byte, low: byte)

  function Body(p: Packet): seq<byte> {
    [p.number, p.complement] + p.data + [p.high, p.low]
  }

  function OnLine(p: Packet): seq<Event> {
    p.header + Events(Body(p))
  }

  /** SOH heads 128 bytes and STX 1024. Any other byte heads as many as the last packet had, and so does what follows a
      CAN, if it is not another one. */
  predicate HeadsBytes(s: Rx, header: seq<Event>, n: nat) {
    || (header == [Byte(0x01)] && n == 128)
    || (header == [Byte(0x02)] && n == 1024)
    || (|header| == 1 && header[0].Byte? && header[0].b !in [0x01, 0x02, 0x04, 0x18] && n == s.pktsize)
    || (|header| == 2 && header[0] == Byte(0x18) && header[1] != Byte(0x18) && n == s.pktsize)
  }

  predicate Heads(s: Rx, p: Packet) {
    HeadsBytes(s, p.header, |p.data|)
  }

  /** The number arrived with its complement, and the data with its CRC. */
  predicate Sound(p: Packet) {
    p.number + p.complement == 0xff && Crc(0, p.data + [p.high, p.low]) == 0
  }

  /** The receiver waits for a packet with a CRC. */
  predicate Waits(s: Rx) {
    s.retry > 0 && (s.crcflag || s.response == 0x43)
  }

  /** A run that first does what it has to and then goes on as another one. */
  predicate GoesOnAs(r: Run, out: seq<byte>, n: Run) {
    r == n.(out := out + n.out)
  }

  // One packet

  /** What is stored of it. */
  function Kept(p: Packet): seq<byte>
    requires p.header != []
  {
    [Stored(p.header[|p.header| - 1])] + Body(p)
  }

  lemma OneHeader(h: Event, body: seq<Event>, rest: seq<Event>)
    ensures Head([h] + body + rest) == h && Tail([h] + body + rest) == body + rest
  {
    assert ([h] + body + rest)[1..] == body + rest;
  }

  lemma TwoHeaders(h: Event, g: Event, body: seq<Event>, rest: seq<Event>)
    ensures var ev := [h, g] + body + rest;
            Head(ev) == h && Head(Tail(ev)) == g && Tail(Tail(ev)) == body + rest
  {
    var ev := [h, g] + body + rest;
    assert Tail(ev) == [g] + body + rest;
    OneHeader(g, body, rest);
  }

  lemma BodyCollected(p: Packet, rest: seq<Event>)
    ensures Collect(Events(Body(p)) + rest, |p.data| + 4) == All(Body(p), rest)
  {
    CollectEvents(Body(p), rest, |p.data| + 4);
    assert Body(p)[..|p.data| + 4] == Body(p) && Body(p)[|p.data| + 4..] == [];
    assert Events([]) + rest == rest;
  }

  lemma IsRead(s: Rx, p: Packet, rest: seq<Event>)
    requires UsesCrc(s) && Heads(s, p)
    ensures ReadInput(s, OnLine(p) + rest) == XmodemReceiver.Input.Packet(|p.data|, Kept(p), rest)
  {
    hide Collect, Body, Events, UsesCrc;
    BodyCollected(p, rest);
    if |p.header| == 1 {
      assert p.header == [p.header[0]];
      OneHeader(p.header[0], Events(Body(p)), rest);
    } else {
      assert p.header == [p.header[0], p.header[1]];
      TwoHeaders(p.header[0], p.header[1], Events(Body(p)), rest);
    }
  }

  lemma HighLow(hi: byte, lo: byte)
    ensures High(Word(hi, lo)) == hi && Low(Word(hi, lo)) == lo
  {
  }

  lemma IsComplement(a: byte, b: byte)
    ensures a == Complement(b) <==> a + b == 0xff
  {
  }

  lemma KeptParts(p: Packet)
    requires p.header != []
    ensures var k, n := Kept(p), |p.data|;
            && |k| == n + 5 && k[1] == p.number && k[2] == p.complement && k[3..3 + n] == p.data
            && k[3..][..n] == p.data && k[3..][n] == p.high && k[3..][n + 1] == p.low
  {
    assert Kept(p)[3..] == p.data + [p.high, p.low];
  }

  lemma IntactIff(p: Packet)
    requires p.header != []
    ensures |Kept(p)| == |p.data| + 5
    ensures Intact(Kept(p), |p.data|, true) <==> Sound(p)
  {
    hide Crc, Word, High, Low, Complement, Kept;
    KeptParts(p);
    HighLow(p.high, p.low);
    IsComplement(p.number, p.complement);
    ResidueIsZero(p.data, Word(p.high, p.low));
  }

  /** What is sent at the top of a turn. */
  function Said(s: Rx): seq<byte> {
    if s.response == 0 then [] else [s.response]
  }

  /** The state after a packet has been taken. */
  function After(s: Rx, p: Packet): Rx
    requires p.header != []
  {
    Rx(p.number + 1, |p.data|, 0x06, 128, true, s.calls + [Delivery(Total(s.calls), p.data, Kept(p))])
  }

  lemma JudgeIs(s: Rx, p: Packet, rest: seq<Event>)
    requires Waits(s) && Heads(s, p)
    ensures UsesCrc(s) && |Kept(p)| == |p.data| + 5
    ensures RxStep(s, OnLine(p) + rest) == Judge(s, |p.data|, Kept(p), rest)
  {
    hide ReadInput, Judge, Kept, OnLine, Heads;
    HeadsSomething(s, p);
    IsRead(s, p, rest);
    IntactIff(p);
  }

  lemma HeadsSomething(s: Rx, p: Packet)
    requires Heads(s, p)
    ensures p.header != []
  {
  }

  lemma RunTurn(s: Rx, ev: seq<Event>)
    requires s.retry > 0
    ensures var st := RxStep(s, ev);
            if st.status.Running? then GoesOnAs(RxRun(s, ev), Said(s) + st.out, RxRun(st.next, st.rest))
            else RxRun(s, ev) == Run(st.status, s.calls, Said(s) + st.out, st.rest)
  {
    hide RxStep;
  }

  lemma SaysFirst(s: Rx, ev: seq<Event>)
    requires s.retry > 0
    ensures Said(s) <= RxRun(s, ev).out
  {
    hide RxStep;
  }

  /** A sound packet with the number that is due is delivered as it is and answered with an ACK. */
  lemma PacketTaken(s: Rx, p: Packet, rest: seq<Event>)
    requires Waits(s) && Heads(s, p) && Sound(p) && p.number == s.seqnum
    ensures GoesOnAs(RxRun(s, OnLine(p) + rest), Said(s), RxRun(After(s, p), rest))
    ensures [0x06] <= RxRun(After(s, p), rest).out
  {
    hide Intact, Kept, OnLine, Heads, Sound, RxRun, RxStep, Total;
    HeadsSomething(s, p);
    JudgeIs(s, p, rest);
    IntactIff(p);
    KeptParts(p);
    RunTurn(s, OnLine(p) + rest);
    SaysFirst(After(s, p), rest);
    assert Said(s) + [] == Said(s);
  }

  /** The one before is acknowledged again. */
  lemma PacketRepeated(s: Rx, p: Packet, rest: seq<Event>)
    requires Waits(s) && Heads(s, p) && Sound(p) && p.number + 1 == s.seqnum
    ensures var t := s.(crcflag := true, pktsize := |p.data|, response := 0x06);
            GoesOnAs(RxRun(s, OnLine(p) + rest), Said(s), RxRun(t, rest)) && [0x06] <= RxRun(t, rest).out
  {
    hide Intact, Kept, OnLine, Heads, Sound, RxRun, RxStep, Total;
    HeadsSomething(s, p);
    JudgeIs(s, p, rest);
    IntactIff(p);
    KeptParts(p);
    NotTheNext(p.number);
    RunTurn(s, OnLine(p) + rest);
    SaysFirst(s.(crcflag := true, pktsize := |p.data|, response := 0x06), rest);
    assert Said(s) + [] == Said(s);
  }

  lemma NotTheNext(b: byte)
    ensures Pred(b + 1) == b && b + 1 != b
  {
  }

  lemma IsBefore(b: byte, n: byte)
    ensures b == Pred(n) <==> b + 1 == n
  {
  }

  /** Any other sound packet ends the transfer. */
  lemma PacketOutOfStep(s: Rx, p: Packet, rest: seq<Event>)
    requires Waits(s) && Heads(s, p) && Sound(p) && p.number != s.seqnum && p.number + 1 != s.seqnum
    ensures RxRun(s, OnLine(p) + rest) == Run(OutOfSync, s.calls, Said(s) + [0x18, 0x18, 0x18], Flushed(rest))
  {
    hide Intact, Kept, OnLine, Heads, Sound, RxRun, RxStep, Total, Pred;
    HeadsSomething(s, p);
    JudgeIs(s, p, rest);
    IntactIff(p);
    KeptParts(p);
    IsBefore(p.number, s.seqnum);
    RunTurn(s, OnLine(p) + rest);
  }

  /** A packet that is not sound is asked for again, at the cost of a retry. */
  lemma PacketRefused(s: Rx, p: Packet, rest: seq<Event>)
    requires Waits(s) && Heads(s, p) && !Sound(p)
    ensures var t := s.(crcflag := true, pktsize := |p.data|, response := 0x15, retry := s.retry - 1);
            GoesOnAs(RxRun(s, OnLine(p) + rest), Said(s), RxRun(t, Flushed(rest)))
  {
    hide Intact, Kept, OnLine, Heads, Sound, RxRun, RxStep, Total;
    HeadsSomething(s, p);
    JudgeIs(s, p, rest);
    IntactIff(p);
    RunTurn(s, OnLine(p) + rest);
    assert Said(s) + [] == Said(s);
  }

  // Everything else

  lemma HeaderRead(s: Rx, header: seq<Event>, n: nat, ev: seq<Event>)
    requires UsesCrc(s) && HeadsBytes(s, header, n)
    ensures ReadInput(s, header + ev) == ReadPacket(Stored(header[|header| - 1]), n, true, ev)
  {
    hide ReadPacket, UsesCrc;
    assert ev + [] == ev;
    if |header| == 1 {
      assert header == [header[0]];
      OneHeader(header[0], ev, []);
    } else {
      assert header == [header[0], header[1]];
      TwoHeaders(header[0], header[1], ev, []);
    }
    assert header + ev + [] == header + ev;
  }

  lemma {:induction false} GapFound(part: seq<byte>, rest: seq<Event>, n: nat)
    requires |part| < n
    ensures Collect(Events(part) + ([Timeout] + rest), n) == Missing(rest)
    decreases |part|
  {
    var ev := Events(part) + ([Timeout] + rest);
    if part == [] {
      assert ev == [Timeout] + rest;
      assert Tail(ev) == rest;
    } else {
      assert ev[1..] == Events(part[1..]) + ([Timeout] + rest);
      GapFound(part[1..], rest, n - 1);
    }
  }

  /** A packet with a gap is given up at the gap and asked for again, at the cost of a retry. */
  lemma PacketCut(s: Rx, header: seq<Event>, n: nat, part: seq<byte>, rest: seq<Event>)
    requires Waits(s) && HeadsBytes(s, header, n) && |part| < n + 4
    ensures var t := s.(crcflag := true, pktsize := n, response := 0x15, retry := s.retry - 1);
            GoesOnAs(RxRun(s, header + (Events(part) + ([Timeout] + rest))), Said(s), RxRun(t, Flushed(rest)))
  {
    var ev := Events(part) + ([Timeout] + rest);
    HeaderRead(s, header, n, ev);
    GapFound(part, rest, n + 4);
    hide HeadsBytes, RxRun, Collect, Events, Flushed, ReadInput;
    RunTurn(s, header + ev);
    assert Said(s) + [] == Said(s);
  }

  /** What flushing leaves: all that comes after the first silence. */
  lemma {:induction false} FlushedIs(a: seq<byte>, rest: seq<Event>)
    ensures Flushed(Events(a) + ([Timeout] + rest)) == rest && Flushed(Events(a)) == []
    decreases |a|
  {
    var ev := Events(a) + ([Timeout] + rest);
    if a == [] {
      assert ev == [Timeout] + rest;
      assert Tail(ev) == rest;
    } else {
      FlushedIs(a[1..], rest);
      assert ev[1..] == Events(a[1..]) + ([Timeout] + rest) && Events(a)[1..] == Events(a[1..]);
    }
  }

  /** EOT ends the transfer with the number of bytes delivered. */
  lemma EndTaken(s: Rx, rest: seq<Event>)
    requires s.retry > 0
    ensures RxRun(s, [Byte(0x04)] + rest) ==
            Run(Received(|Delivered(s.calls)|), s.calls, Said(s) + [0x06], Flushed(rest))
  {
    hide Total, Delivered;
    DeliveredLength(s.calls);
    assert Tail([Byte(0x04)] + rest) == rest;
  }

  /** Two CANs in a row stop it. */
  lemma CancelTaken(s: Rx, rest: seq<Event>)
    requires s.retry > 0
    ensures RxRun(s, [Byte(0x18), Byte(0x18)] + rest) == Run(RemoteCancel, s.calls, Said(s) + [0x06], Flushed(rest))
  {
    var ev := [Byte(0x18), Byte(0x18)] + rest;
    assert Tail(ev) == [Byte(0x18)] + rest && Tail(Tail(ev)) == rest;
  }

  /** Silence costs a retry; only the first request is repeated in it. */
  lemma SilenceCosts(s: Rx, rest: seq<Event>)
    requires s.retry > 0
    ensures var t := s.(retry := s.retry - 1, response := if s.response == 0x43 then 0x43 else 0);
            GoesOnAs(RxRun(s, [Timeout] + rest), Said(s), RxRun(t, rest))
  {
    hide RxRun;
    var ev := [Timeout] + rest;
    assert Tail(ev) == rest;
    RunTurn(s, ev);
    assert Said(s) + [] == Said(s);
  }

  lemma {:induction false} SilentRun(s: Rx)
    requires s.response == 0x43
    ensures RxRun(s, []) == Run(RetryExceeded, s.calls, Times(0x43, s.retry) + [0x18, 0x18, 0x18], [])
    decreases s.retry
  {
    hide RxRun, Times;
    if s.retry > 0 {
      SilentRun(s.(retry := s.retry - 1));
      NothingCosts(s);
      OneTimeMore(0x43, s.retry - 1, [0x18, 0x18, 0x18]);
    } else {
      NoRetries(s);
    }
  }

  lemma NothingCosts(s: Rx)
    requires s.retry > 0 && s.response == 0x43
    ensures GoesOnAs(RxRun(s, []), [0x43], RxRun(s.(retry := s.retry - 1), []))
  {
    RunTurn(s, []);
    assert Said(s) + [] == [0x43];
    hide RxRun;
  }

  lemma NoRetries(s: Rx)
    requires s.retry == 0
    ensures RxRun(s, []) == Run(RetryExceeded, s.calls, Times(0x43, 0) + [0x18, 0x18, 0x18], [])
  {
    assert Times(0x43, 0) + [0x18, 0x18, 0x18] == [0x18, 0x18, 0x18];
  }

  lemma OneTimeMore(b: byte, n: nat, last: seq<byte>)
    ensures [b] + (Times(b, n) + last) == Times(b, n + 1) + last
  {
  }

  function Times(b: byte, n: nat): (r: seq<byte>)
    ensures |r| == n
  {
    seq(n, i => b)
  }

  /** With no sender the receiver asks 128 times and gives up. */
  lemma NobodyThere()
    ensures RxRun(START, []) == Run(RetryExceeded, [], Times(0x43, 128) + [0x18, 0x18, 0x18], [])
  {
    hide RxRun;
    SilentRun(START);
  }

  // A whole stream

  function Stream(ps: seq<Packet>): seq<Event> {
    if ps == [] then [] else OnLine(ps[0]) + Stream(ps[1..])
  }

  function Data(ps: seq<Packet>): seq<byte> {
    if ps == [] then [] else ps[0].data + Data(ps[1..])
  }

  /** Packets of either size, sound, and numbered on from k + 1 modulo 256. */
  predicate Numbered(ps: seq<Packet>, k: nat) {
    forall i :: 0 <= i < |ps| ==>
      && (|| (ps[i].header == [Byte(0x01)] && |ps[i].data| == 128)
          || (ps[i].header == [Byte(0x02)] && |ps[i].data| == 1024))
      && Sound(ps[i]) && ps[i].number as int == (k + i + 1) % 256
  }

  lemma DeliveredMore(s: Rx, p: Packet)
    requires p.header != []
    ensures Delivered(After(s, p).calls) == Delivered(s.calls) + p.data
  {
    var d := Delivery(Total(s.calls), p.data, Kept(p));
    assert (s.calls + [d])[..|s.calls|] == s.calls;
  }

  lemma NumberedRest(ps: seq<Packet>, k: nat)
    requires Numbered(ps, k) && ps != []
    ensures Numbered(ps[1..], k + 1) && Sound(ps[0]) && ps[0].number as int == (k + 1) % 256
    ensures ps[0].header != [] && forall s :: Heads(s, ps[0])
  {
    hide Sound;
  }

  lemma NextNumber(b: byte, k: nat)
    requires b as int == (k + 1) % 256
    ensures (b + 1) as int == (k + 2) % 256
  {
    SuccIsModulo(b);
    ModuloStep(k + 1);
  }

  lemma SameNumber(b: byte, c: byte)
    requires b as int == c as int
    ensures b == c
  {
  }

  lemma Gather(a: seq<byte>, b: seq<byte>, c: seq<byte>)
    ensures a + (b + c) == (a + b) + c
  {
  }

  lemma {:induction false} StreamFrom(s: Rx, ps: seq<Packet>, k: nat, later: seq<Event>)
    requires Waits(s) && Numbered(ps, k) && s.seqnum as int == (k + 1) % 256
    ensures var r := RxRun(s, Stream(ps) + ([Byte(0x04), Timeout] + later));
            && Delivered(r.calls) == Delivered(s.calls) + Data(ps) && r.status == Received(|Delivered(r.calls)|)
            && r.out == Said(s) + Times(0x06, |ps| + 1) && r.rest == later
    decreases |ps|
  {
    hide RxRun, Sound, Heads, Delivered, Total, Kept, OnLine, Waits;
    var ending := [Byte(0x04), Timeout] + later;
    if ps == [] {
      StreamEnds(s, later);
      assert Stream(ps) + ending == ending;
    } else {
      var t := After(s, ps[0]);
      NumberedRest(ps, k);
      SameNumber(ps[0].number, s.seqnum);
      NextNumber(ps[0].number, k);
      StillWaits(s, ps[0]);
      PacketTaken(s, ps[0], Stream(ps[1..]) + ending);
      StreamFrom(t, ps[1..], k + 1, later);
      DeliveredMore(s, ps[0]);
      assert Stream(ps) + ending == OnLine(ps[0]) + (Stream(ps[1..]) + ending);
      Gather(Delivered(s.calls), ps[0].data, Data(ps[1..]));
      assert Said(t) + Times(0x06, |ps|) == Times(0x06, |ps| + 1);
    }
  }

  lemma StillWaits(s: Rx, p: Packet)
    requires p.header != []
    ensures Waits(After(s, p))
  {
  }

  lemma StreamEnds(s: Rx, later: seq<Event>)
    requires Waits(s)
    ensures RxRun(s, [Byte(0x04), Timeout] + later) ==
            Run(Received(|Delivered(s.calls)|), s.calls, Said(s) + Times(0x06, 1), later)
    ensures Delivered(s.calls) + [] == Delivered(s.calls)
  {
    hide RxRun, Delivered;
    EndTaken(s, [Timeout] + later);
    assert [Byte(0x04), Timeout] + later == [Byte(0x04)] + ([Timeout] + later);
    assert Tail([Timeout] + later) == later;
    assert Times(0x06, 1) == [0x06];
  }

  /** A stream of any number of sound packets, of 128 or 1024 bytes each, numbered from 1 on modulo 256, and EOT: all of
      it is delivered, every packet is acknowledged, and the number of bytes is returned. */
  lemma StreamReceived(ps: seq<Packet>, later: seq<Event>)
    requires Numbered(ps, 0)
    ensures var r := RxRun(START, Stream(ps) + ([Byte(0x04), Timeout] + later));
            && Delivered(r.calls) == Data(ps) && r.status == Received(|Data(ps)|)
            && r.out == [0x43] + Times(0x06, |ps| + 1) && r.rest == later
  {
    hide RxRun, Stream, Numbered;
    StreamFrom(START, ps, 0, later);
    assert [] + Data(ps) == Data(ps);
  }
}
