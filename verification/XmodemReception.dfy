/** What holds of every run of the receiver, whatever comes in: the blocks it delivers are contiguous, numbered from
    one, protected by the 16-bit CRC and taken from disjoint stretches of the input in order. */
module XmodemReception {
  import opened Gf256
  import opened Crc16
  import opened XmodemPort
  import opened XmodemReceiver

  /** The sequence number of block k, counting from 0: one more than that of the block before, in eight bits. */
  function SeqOf(k: nat): byte {
    if k == 0 then 1 else Succ(SeqOf(k - 1))
  }

  lemma SuccIsModulo(b: byte)
    ensures Succ(b) as nat == (b as nat + 1) % 256
  {
    if b == 255 {
      assert Succ(b) == 0;
    } else {
      SuccBelow(b);
    }
  }

  lemma SuccBelow(b: byte)
    requires b != 255
    ensures Succ(b) as nat == b as nat + 1
  {
  }

  lemma {:induction false} SeqOfIsModulo(k: nat)
    ensures SeqOf(k) as nat == (k + 1) % 256
  {
    hide Succ, SeqOf;
    SeqOfUnfolds(k);
    if k > 0 {
      SeqOfIsModulo(k - 1);
      SuccIsModulo(SeqOf(k - 1));
      ModuloStep(k);
    }
  }

  lemma SeqOfUnfolds(k: nat)
    ensures if k == 0 then SeqOf(k) as nat == 1 else SeqOf(k) == Succ(SeqOf(k - 1))
  {
  }

  lemma ModuloStep(k: nat)
    ensures (k % 256 + 1) % 256 == (k + 1) % 256
  {
  }

  ghost predicate IsPacketSize(n: nat) {
    n == 128 || n == 1024
  }

  /** Block k starts where the blocks before it end, and its packet is numbered k + 1 modulo 256 and passes the CRC. */
  ghost predicate CallOk(calls: seq<Delivery>, k: nat)
    requires k < |calls|
  {
    var d := calls[k];
    && d.pos == Total(calls[..k])
    && IsPacketSize(|d.data|) && |d.packet| == |d.data| + 5
    && d.data == d.packet[3..3 + |d.data|]
    && d.packet[1] == SeqOf(k) && Intact(d.packet, |d.data|, true)
  }

  /** The packet's bytes behind its header are consecutive in the input, in the turn that began with left events to
      come. */
  ghost predicate InStream(ev: seq<Event>, left: nat, d: Delivery) {
    At(ev, |ev| - left, d.packet) || At(ev, |ev| - left + 1, d.packet)
  }

  ghost predicate At(ev: seq<Event>, i: int, packet: seq<byte>) {
    0 <= i && i + |packet| <= |ev| && forall j :: 1 <= j < |packet| ==> ev[i + j] == Byte(packet[j])
  }

  /** lefts[k] events were to come when the turn of block k began; left of them are still to come. The packet of a
      block ends before the next turn begins. */
  ghost predicate GoodCalls(ev0: seq<Event>, calls: seq<Delivery>, lefts: seq<nat>, left: nat) {
    && |lefts| == |calls|
    && forall k :: 0 <= k < |calls| ==>
                     && CallOk(calls, k) && InStream(ev0, lefts[k], calls[k])
                     && LeftAfter(lefts, k, left) + |calls[k].packet| <= lefts[k]
  }

  function LeftAfter(lefts: seq<nat>, k: nat, left: nat): nat
    requires k < |lefts|
  {
    if k + 1 < |lefts| then lefts[k + 1] else left
  }

  ghost predicate Sound(ev0: seq<Event>, s: Rx, lefts: seq<nat>, ev: seq<Event>) {
    && |ev| <= |ev0| && ev == ev0[|ev0| - |ev|..]
    && UsesCrc(s) && IsPacketSize(s.pktsize) && s.retry <= RETRY_LIMIT
    && s.seqnum == SeqOf(|s.calls|)
    && GoodCalls(ev0, s.calls, lefts, |ev|)
  }

  lemma {:induction false} CollectedAreNext(ev: seq<Event>, n: nat)
    ensures var r := Collect(ev, n);
            r.All? ==> n <= |ev| && r.rest == ev[n..] && forall j :: 0 <= j < n ==> ev[j] == Byte(r.bytes[j])
  {
    if n > 0 && Head(ev).Byte? {
      CollectedAreNext(Tail(ev), n - 1);
      var r := Collect(Tail(ev), n - 1);
      if r.All? {
        forall j | 0 <= j < n ensures ev[j] == Byte(([Head(ev).b] + r.bytes)[j]) {
          if j > 0 {
            assert ev[j] == Tail(ev)[j - 1];
          }
        }
      }
    }
  }

  lemma {:induction false} FlushedIsSuffix(ev: seq<Event>)
    ensures var r := Flushed(ev); r == ev[|ev| - |r|..]
  {
    if Head(ev).Byte? {
      FlushedIsSuffix(ev[1..]);
    }
  }

  lemma {:induction false} MissingIsSuffix(ev: seq<Event>, n: nat)
    ensures var r := Collect(ev, n); r.rest == ev[|ev| - |r.rest|..]
  {
    if n > 0 && Head(ev).Byte? {
      MissingIsSuffix(Tail(ev), n - 1);
    }
  }

  lemma ReadPacketIsNext(first: byte, size: nat, crcflag: bool, ev: seq<Event>)
    ensures var r := ReadPacket(first, size, crcflag, ev);
            && r.rest == ev[|ev| - |r.rest|..]
            && (r.Packet? ==> |r.packet| <= |ev| + 1 && |r.rest| + |r.packet| == |ev| + 1 &&
                              forall j :: 1 <= j < |r.packet| ==> ev[j - 1] == Byte(r.packet[j]))
  {
    hide Collect, Flushed, CheckLength;
    var n := size + 2 + CheckLength(crcflag);
    CollectedAreNext(ev, n);
    MissingIsSuffix(ev, n);
    FlushedIsSuffix(Collect(ev, n).rest);
  }

  lemma TailIsSuffix(ev: seq<Event>, r: seq<Event>)
    requires ev != [] && |r| <= |ev| - 1 && r == Tail(ev)[|ev| - 1 - |r|..]
    ensures r == ev[|ev| - |r|..]
  {
  }

  lemma ReadInputIsNext(s: Rx, ev: seq<Event>)
    ensures var r := ReadInput(s, ev);
            && r.rest == ev[|ev| - |r.rest|..]
            && (r.Packet? ==> |r.rest| + |r.packet| <= |ev| && (At(ev, 0, r.packet) || At(ev, 1, r.packet)))
  {
    hide ReadPacket, Flushed, PacketSize, UsesCrc;
    var r := ReadInput(s, ev);
    if Head(ev).Byte? {
      var b := Head(ev).b;
      if b == EOT {
        FlushedIsSuffix(Tail(ev));
        TailIsSuffix(ev, r.rest);
      } else if b == CAN {
        CanIsNext(s, ev);
      } else {
        ReadPacketIsNext(b, PacketSize(s, b), UsesCrc(s), Tail(ev));
        TailIsSuffix(ev, r.rest);
      }
    }
  }

  /** What is read of a packet behind a CAN lies one place further on. */
  lemma BehindCan(ev: seq<Event>, r: seq<Event>, packet: seq<byte>)
    requires |packet| >= 2 && |r| + |packet| == |Tail(Tail(ev))| + 1
    requires forall j :: 1 <= j < |packet| ==> Tail(Tail(ev))[j - 1] == Byte(packet[j])
    ensures |r| + |packet| <= |ev| && At(ev, 1, packet)
  {
  }

  lemma TailsAreSuffix(ev: seq<Event>, r: seq<Event>)
    requires |r| <= |Tail(Tail(ev))| && r == Tail(Tail(ev))[|Tail(Tail(ev))| - |r|..]
    ensures r == ev[|ev| - |r|..]
  {
    if Tail(ev) != [] {
      TailIsSuffix(Tail(ev), r);
      TailIsSuffix(ev, r);
    }
  }

  lemma CanIsNext(s: Rx, ev: seq<Event>)
    requires Head(ev) == Byte(CAN)
    ensures var r := ReadInput(s, ev);
            && r.rest == ev[|ev| - |r.rest|..]
            && (r.Packet? ==> |r.rest| + |r.packet| <= |ev| && At(ev, 1, r.packet))
  {
    hide ReadPacket, Flushed, PacketSize, UsesCrc, At;
    var r, second := ReadInput(s, ev), Head(Tail(ev));
    var rest := Tail(Tail(ev));
    FlushedIsSuffix(rest);
    ReadPacketIsNext(Stored(second), s.pktsize, UsesCrc(s), rest);
    TailsAreSuffix(ev, r.rest);
    if r.Packet? {
      BehindCan(ev, r.rest, r.packet);
    }
  }

  lemma CallsGrow(ev0: seq<Event>, calls: seq<Delivery>, lefts: seq<nat>, left: nat, d: Delivery, left': nat)
    requires GoodCalls(ev0, calls, lefts, left)
    requires CallOk(calls + [d], |calls|) && InStream(ev0, left, d) && left' + |d.packet| <= left
    ensures GoodCalls(ev0, calls + [d], lefts + [left], left')
  {
    hide Intact, SeqOf, InStream, Total;
    var all, lefts' := calls + [d], lefts + [left];
    forall k | 0 <= k < |all|
      ensures CallOk(all, k) && InStream(ev0, lefts'[k], all[k])
      ensures LeftAfter(lefts', k, left') + |all[k].packet| <= lefts'[k]
    {
      if k < |calls| {
        assert CallOk(calls, k) && LeftAfter(lefts, k, left) + |calls[k].packet| <= lefts[k];
        assert all[..k] == calls[..k];
      }
    }
  }

  lemma CallsKept(ev0: seq<Event>, calls: seq<Delivery>, lefts: seq<nat>, left: nat, left': nat)
    requires GoodCalls(ev0, calls, lefts, left) && left' <= left
    ensures GoodCalls(ev0, calls, lefts, left')
  {
    hide CallOk, InStream;
    forall k | 0 <= k < |calls| ensures LeftAfter(lefts, k, left') + |calls[k].packet| <= lefts[k] {
      assert LeftAfter(lefts, k, left) + |calls[k].packet| <= lefts[k];
    }
  }

  lemma SuffixOfSuffix(ev0: seq<Event>, ev: seq<Event>, rest: seq<Event>)
    requires |rest| <= |ev| <= |ev0| && ev == ev0[|ev0| - |ev|..] && rest == ev[|ev| - |rest|..]
    ensures rest == ev0[|ev0| - |rest|..]
  {
  }

  lemma AtInWhole(ev0: seq<Event>, ev: seq<Event>, i: int, packet: seq<byte>)
    requires |ev| <= |ev0| && ev == ev0[|ev0| - |ev|..] && At(ev, i, packet)
    ensures At(ev0, |ev0| - |ev| + i, packet)
  {
    var base := |ev0| - |ev|;
    forall j | 1 <= j < |packet| ensures ev0[base + i + j] == Byte(packet[j]) {
      assert ev[i + j] == ev0[base + (i + j)];
    }
  }

  /** A packet that is judged leaves the receiver as it should be. */
  lemma JudgeSound(ev0: seq<Event>, s: Rx, lefts: seq<nat>, size: nat, packet: seq<byte>, ev: seq<Event>,
                   rest: seq<Event>)
    returns (lefts': seq<nat>)
    requires Sound(ev0, s, lefts, ev) && s.retry > 0
    requires IsPacketSize(size) && |packet| == size + 5
    requires |rest| + |packet| <= |ev| && rest == ev[|ev| - |rest|..] && (At(ev, 0, packet) || At(ev, 1, packet))
    ensures var st := Judge(s, size, packet, rest);
            if st.status.Running? then Sound(ev0, st.next, lefts', st.rest)
            else st.next.calls == s.calls && lefts' == lefts && !st.status.Received?
  {
    hide Intact, SeqOf, Succ, Pred, At, CallOk, Total;
    var st := Judge(s, size, packet, rest);
    FlushedIsSuffix(rest);
    SuffixOfSuffix(ev0, ev, rest);
    SuffixOfSuffix(ev0, rest, Flushed(rest));
    lefts' := lefts;
    if st.status.Running? {
      SoundSoFar(ev0, s, lefts, ev, st.rest);
      if |st.next.calls| > |s.calls| {
        var d := Delivery(Total(s.calls), packet[3..3 + size], packet);
        assert st.next.calls == s.calls + [d];
        Accepted(ev0, s, lefts, size, packet, ev);
        CallsGrow(ev0, s.calls, lefts, |ev|, d, |rest|);
        SeqOfUnfolds(|s.calls| + 1);
        lefts' := lefts + [|ev|];
      }
    }
  }

  lemma SoundSoFar(ev0: seq<Event>, s: Rx, lefts: seq<nat>, ev: seq<Event>, rest: seq<Event>)
    requires Sound(ev0, s, lefts, ev) && |rest| <= |ev|
    ensures GoodCalls(ev0, s.calls, lefts, |rest|)
  {
    hide GoodCalls;
    CallsKept(ev0, s.calls, lefts, |ev|, |rest|);
  }

  lemma Accepted(ev0: seq<Event>, s: Rx, lefts: seq<nat>, size: nat, packet: seq<byte>, ev: seq<Event>)
    requires Sound(ev0, s, lefts, ev) && IsPacketSize(size) && |packet| == size + 5
    requires Intact(packet, size, true) && packet[1] == s.seqnum && (At(ev, 0, packet) || At(ev, 1, packet))
    ensures var d := Delivery(Total(s.calls), packet[3..3 + size], packet);
            CallOk(s.calls + [d], |s.calls|) && InStream(ev0, |ev|, d)
  {
    hide Intact, SeqOf, At, GoodCalls, Total;
    if At(ev, 0, packet) {
      AtInWhole(ev0, ev, 0, packet);
    } else {
      AtInWhole(ev0, ev, 1, packet);
    }
    var d := Delivery(Total(s.calls), packet[3..3 + size], packet);
    assert (s.calls + [d])[..|s.calls|] == s.calls;
  }

  lemma ReadInputSize(s: Rx, ev: seq<Event>)
    requires IsPacketSize(s.pktsize)
    ensures var r := ReadInput(s, ev);
            (r.Packet? ==> IsPacketSize(r.size)) && (r.Cut? ==> IsPacketSize(r.size))
  {
  }

  lemma StepSound(ev0: seq<Event>, s: Rx, lefts: seq<nat>, ev: seq<Event>) returns (lefts': seq<nat>)
    requires Sound(ev0, s, lefts, ev) && s.retry > 0
    ensures var st := RxStep(s, ev);
            if st.status.Running? then Sound(ev0, st.next, lefts', st.rest)
            else
              && st.next.calls == s.calls && lefts' == lefts
              && (st.status.Received? ==> st.status.total == Total(s.calls))
  {
    hide ReadInput, Judge, GoodCalls, SeqOf, At, Total;
    var r, st := ReadInput(s, ev), RxStep(s, ev);
    ReadInputIsNext(s, ev);
    ReadInputSize(s, ev);
    SuffixOfSuffix(ev0, ev, r.rest);
    lefts' := lefts;
    if r.Packet? {
      lefts' := JudgeSound(ev0, s, lefts, r.size, r.packet, ev, r.rest);
    } else {
      SoundSoFar(ev0, s, lefts, ev, r.rest);
    }
  }

  lemma {:induction false} RunSound(ev0: seq<Event>, s: Rx, lefts: seq<nat>, ev: seq<Event>) returns (lefts': seq<nat>)
    requires Sound(ev0, s, lefts, ev)
    ensures var r := RxRun(s, ev);
            GoodCalls(ev0, r.calls, lefts', 0) && (r.status.Received? ==> r.status.total == Total(r.calls))
    decreases |ev|, s.retry
  {
    hide RxStep, GoodCalls, Total;
    lefts' := lefts;
    if s.retry == 0 {
      SoundSoFar(ev0, s, lefts, ev, []);
    } else {
      var st := RxStep(s, ev);
      lefts' := StepSound(ev0, s, lefts, ev);
      if st.status.Running? {
        lefts' := RunSound(ev0, st.next, lefts', st.rest);
      } else {
        SoundSoFar(ev0, s, lefts, ev, []);
      }
    }
  }

  /** For any input: every recv_cb call is for the right place with the right, intact packet, the packets come from
      disjoint stretches of the input in order, and the value returned at EOT is the number of bytes delivered. */
  lemma Reception(ev: seq<Event>)
    ensures var r := RxRun(START, ev);
            && (exists lefts :: GoodCalls(ev, r.calls, lefts, 0))
            && (r.status.Received? ==> r.status.total == Total(r.calls) == |Delivered(r.calls)|)
  {
    hide RxRun, GoodCalls;
    assert GoodCalls(ev, [], [], |ev|) by { NoCalls(ev); }
    assert ev == ev[|ev| - |ev|..];
    var lefts := RunSound(ev, START, [], ev);
    DeliveredLength(RxRun(START, ev).calls);
  }

  lemma NoCalls(ev: seq<Event>)
    ensures GoodCalls(ev, [], [], |ev|)
  {
  }

  lemma {:induction false} DeliveredLength(calls: seq<Delivery>)
    ensures |Delivered(calls)| == Total(calls)
  {
    if calls != [] {
      DeliveredLength(calls[..|calls| - 1]);
    }
  }

  // xmodem_get

  /** memcpy_cb: the data of one call into memory at its place. */
  function Copied(mem: seq<byte>, d: Delivery): (m: seq<byte>)
    requires d.pos + |d.data| <= |mem|
    ensures |m| == |mem|
  {
    mem[..d.pos] + d.data + mem[d.pos + |d.data|..]
  }

  ghost predicate Contiguous(calls: seq<Delivery>) {
    forall k :: 0 <= k < |calls| ==> calls[k].pos == Total(calls[..k])
  }

  method MemcpyCb(to: array<byte>, d: Delivery)
    requires d.pos + |d.data| <= to.Length
    modifies to
    ensures to[..] == Copied(old(to[..]), d)
  {
    forall i | 0 <= i < |d.data| {
      to[d.pos + i] := d.data[i];
    }
    assert to[..] == Copied(old(to[..]), d);
  }

  lemma GoodCallsContiguous(ev: seq<Event>, calls: seq<Delivery>, lefts: seq<nat>, left: nat)
    requires GoodCalls(ev, calls, lefts, left)
    ensures Contiguous(calls)
  {
    hide Intact, InStream, SeqOf;
    forall k | 0 <= k < |calls| ensures calls[k].pos == Total(calls[..k]) {
      assert CallOk(calls, k);
    }
  }

  lemma {:induction false} TotalMonotone(calls: seq<Delivery>, k: nat)
    requires k <= |calls|
    ensures Total(calls[..k]) <= Total(calls)
    decreases |calls|
  {
    if k < |calls| {
      TotalMonotone(calls[..|calls| - 1], k);
      assert calls[..|calls| - 1][..k] == calls[..k];
    } else {
      assert calls[..k] == calls;
    }
  }

  /** The calls of a run, carried out in turn, leave the delivered bytes at the start of the memory and the rest as it
      was. */
  method CopyCalls(to: array<byte>, calls: seq<Delivery>)
    requires Contiguous(calls) && Total(calls) <= to.Length
    modifies to
    ensures to[..] == Delivered(calls) + old(to[..])[Total(calls)..]
  {
    hide Total, Delivered;
    DeliveredNone();
    for k := 0 to |calls|
      invariant Total(calls[..k]) <= to.Length
      invariant to[..] == Delivered(calls[..k]) + old(to[..])[Total(calls[..k])..]
    {
      TotalMonotone(calls, k + 1);
      DeliveredStep(calls, k);
      DeliveredLength(calls[..k]);
      MemcpyCb(to, calls[k]);
    }
    assert calls[..|calls|] == calls;
  }

  lemma DeliveredNone()
    ensures Total([]) == 0 && Delivered([]) == []
  {
  }

  lemma DeliveredStep(calls: seq<Delivery>, k: nat)
    requires k < |calls|
    ensures Total(calls[..k + 1]) == Total(calls[..k]) + |calls[k].data|
    ensures Delivered(calls[..k + 1]) == Delivered(calls[..k]) + calls[k].data
  {
    assert calls[..k + 1][..k] == calls[..k];
  }

  lemma RunContiguous(ev: seq<Event>)
    ensures var r := RxRun(START, ev);
            Contiguous(r.calls) && (r.status.Received? ==> r.status.total == |Delivered(r.calls)|)
  {
    hide RxRun, GoodCalls, Contiguous;
    Reception(ev);
    var calls := RxRun(START, ev).calls;
    var lefts :| GoodCalls(ev, calls, lefts, 0);
    GoodCallsContiguous(ev, calls, lefts, 0);
  }

  /** xmodem_get: for every input whose blocks fit, the memory starts with all that was delivered and is otherwise as it
      was, and the value returned at EOT is the length of what was delivered. The calls are carried out when the run is
      over; each touches only its own stretch. */
  method XmodemGet(port: Port, to: array<byte>, maxszs: nat) returns (result: Status)
    requires Total(RxRun(START, port.input).calls) <= to.Length
    modifies port, to
    ensures var r := RxRun(START, old(port.input));
            && result == r.status && port.input == r.rest && port.output == old(port.output) + r.out
            && |Delivered(r.calls)| <= to.Length
            && to[..] == Delivered(r.calls) + old(to[..])[|Delivered(r.calls)|..]
            && (result.Received? ==> result.total == |Delivered(r.calls)|)
  {
    hide RxRun, Contiguous, Total, Delivered;
    RunContiguous(port.input);
    DeliveredLength(RxRun(START, port.input).calls);
    var calls;
    result, calls := XmodemGetAsync(port, maxszs);
    CopyCalls(to, calls);
  }
}
