/** What the two ends of src/lib/xmodem.c see of the line: a list of events in, a list of bytes out. Silence goes on for
    ever once the events are used up. */
module XmodemPort {
  import opened Gf256

  const SOH: byte := 0x01
  const STX: byte := 0x02
  const EOT: byte := 0x04
  const ACK: byte := 0x06
  const NAK: byte := 0x15
  const CAN: byte := 0x18
  const CTRLZ: byte := 0x1a
  const LETTER_C: byte := 0x43
  const RETRY_LIMIT: nat := 128

  /** What one rumboot_getchar returns: a byte, or nothing before the timeout. */
  datatype Event = Byte(b: byte) | Timeout

  function Head(ev: seq<Event>): Event {
    if ev == [] then Timeout else ev[0]
  }

  function Tail(ev: seq<Event>): (rest: seq<Event>)
    ensures |rest| <= |ev| && (ev != [] ==> |rest| < |ev|)
  {
    if ev == [] then [] else ev[1..]
  }

  /** What xmodem_flush_input leaves: everything after the first silence. */
  function Flushed(ev: seq<Event>): (rest: seq<Event>)
    ensures |rest| <= |ev|
  {
    if Head(ev).Timeout? then Tail(ev) else Flushed(ev[1..])
  }

  class Port {
    var input: seq<Event>
    var output: seq<byte>

    constructor (events: seq<Event>)
      ensures input == events && output == []
    {
      input := events;
      output := [];
    }

    /** rumboot_getchar; its negative result is Timeout. */
    method GetChar() returns (c: Event)
      modifies this
      ensures input == Tail(old(input)) && output == old(output)
      ensures c == Head(old(input))
    {
      c := Head(input);
      input := Tail(input);
    }

    /** rumboot_platform_putchar */
    method PutChar(b: byte)
      modifies this
      ensures output == old(output) + [b] && input == old(input)
    {
      output := output + [b];
    }

    /** The three CAN bytes that tell the other end to stop. */
    method PutCancel()
      modifies this
      ensures output == old(output) + [CAN, CAN, CAN] && input == old(input)
    {
      PutChar(CAN);
      PutChar(CAN);
      PutChar(CAN);
    }

    /** xmodem_flush_input */
    method FlushInput()
      modifies this
      ensures input == Flushed(old(input)) && output == old(output)
    {
      var c := GetChar();
      while c.Byte?
        invariant output == old(output)
        invariant Flushed(old(input)) == if c.Byte? then Flushed(input) else input
        decreases |input|, c.Byte?
      {
        c := GetChar();
      }
    }
  }
}
