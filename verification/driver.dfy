/** The bus sequences of firmware/prog.c that touch only the GPIO ports:
    probing one cell, one burn pulse, and the bit loop of prog_write for
    one cell, each specified by the trace it appends. */
module Driver {
  import opened Types
  import opened Hardware
  import opened Traces
  import opened Burn

  /** io_set_address, the 1 ms settle and io_get_data for one cell
      (firmware/prog.c:136-138, 194-196). */
  method ProbeCell(bus: Bus, address: nat) returns (now: Byte)
    requires address < 0x100
    modifies bus
    ensures now == Now(bus.read, old(bus.trace), address)
    ensures bus.trace == old(bus.trace) + Probe(address, now)
  {
    ghost var t := bus.trace;
    bus.SetAddress(address as Byte);
    bus.Delay(1);
    assert bus.trace == t + [SetAddress(address as Byte), Delay(1)];
    now := bus.GetData();
  }

  /** One burn pulse (firmware/prog.c:207-217), the LED left out. */
  method BurnPulse(bus: Bus, bit: Byte)
    modifies bus
    ensures bus.trace == old(bus.trace) + Pulse(bit)
  {
    bus.SetData(bit, false);
    bus.Delay(300 * 3);
    bus.DisableIrq();
    bus.SetData(bit, true);
    bus.Delay(300 * 1);
    bus.SetData(bit, false);
    bus.EnableIrq();
    bus.Delay(300 * 4);
    bus.SetData(0xFF, false);
  }

  /** A burn pulse and the read-back of the data pins after it
      (firmware/prog.c:207-220). */
  method PulseAndRead(bus: Bus, bit: Byte) returns (after: Byte)
    modifies bus
    ensures after == bus.read(old(bus.trace) + Pulse(bit))
    ensures bus.trace == old(bus.trace) + (Pulse(bit) + [Get(after)])
  {
    BurnPulse(bus, bit);
    after := bus.GetData();
  }

  /** One iteration of the bit loop of prog_write (firmware/prog.c:202-225):
      nothing for a bit not to burn; otherwise a pulse and a read-back,
      and address 0 driven when the bit did not take. The events are
      the first step of the bit run from `n`. */
  method BurnBit(bus: Bus, address: nat, burn: Byte, n: nat) returns (failed: bool, ghost head: seq<Event>)
    requires n < 8
    modifies bus
    ensures bus.trace == old(bus.trace) + head
    ensures failed ==> BitsRun(bus.read, old(bus.trace), address, burn, n) == Failed(head, address, n)
    ensures !failed ==>
      BitsRun(bus.read, old(bus.trace), address, burn, n) == Prepend(head, BitsRun(bus.read, bus.trace, address, burn, n + 1))
  {
    var bitMask := Bit(n);
    if burn & bitMask == 0 {
      assert old(bus.trace) + [] == bus.trace;
      return false, [];
    }
    var after := PulseAndRead(bus, bitMask);
    head := Pulse(bitMask) + [Get(after)];
    if after & bitMask == 0 {
      bus.SetAddress(0);
      return true, head + [SetAddress(0)];
    }
    failed := false;
  }

  /** The bit loop of prog_write for one cell (firmware/prog.c:200-226):
      the bus sees exactly the bit run the chip's answers determine, and
      the failing bit is returned when the run failed. */
  method BurnCell(bus: Bus, address: nat, burn: Byte) returns (failed: Option<nat>, ghost events: seq<Event>)
    modifies bus
    ensures var r := BitsRun(bus.read, old(bus.trace), address, burn, 0);
      bus.trace == old(bus.trace) + events && events == r.events &&
      (failed.None? <==> r.Completed?) && (failed.Some? ==> failed.value == r.bit)
  {
    ghost var read := bus.read;
    ghost var base := bus.trace;
    events := [];
    var n := 0;
    while n < 8
      invariant n <= 8 && bus.trace == base + events
      invariant BitsRun(read, base, address, burn, 0) == Prepend(events, BitsRun(read, bus.trace, address, burn, n))
    {
      ghost var t := bus.trace;
      var stop, head := BurnBit(bus, address, burn, n);
      AppendAssoc(base, events, head);
      if stop {
        return Some(n), events + head;
      }
      PrependPrepend(events, head, BitsRun(read, bus.trace, address, burn, n + 1));
      events := events + head;
      n := n + 1;
    }
    assert events + [] == events;
    failed := None;
  }

}
