/** The hardware boundary of firmware/prog.c: the two pure GPIO encodings
    (io_set_data, io_get_data) and an abstract bus object that records every
    call the programming engine makes, answering reads from an oracle. */
module Hardware {
  import opened Types

  /** One observable action of the programming engine. Delays and the
      interrupt bracket are recorded in the same trace as the bus calls. */
  datatype Event =
    | SetAddress(address: Byte)          // io_set_address
    | SetData(value: Byte, write: bool)  // io_set_data
    | Delay(ms: nat)                     // DWT_DELAY_MS
    | IrqOff                             // __disable_irq
    | IrqOn                              // __enable_irq
    | Get(value: Byte)                   // io_get_data, with the byte it returned

  /** The two input data registers sampled by io_get_data: GPIOA->IDR and GPIOB->IDR. */
  datatype Pins = Pins(a: Word, b: Word)

  /** The chip's answer to a read, as a function of everything driven so far. */
  type Oracle = seq<Event> -> Pins

  /** The byte io_get_data returns after a history, as a function of that history. */
  type Reader = seq<Event> -> Byte

  /** Bit `i` of a port word. */
  predicate WordBit(x: Word, i: nat)
    requires i < 16
  {
    x & (1 << i) != 0
  }

  /** Bit `i` of a data byte. */
  predicate ByteBit(x: Byte, i: nat)
    requires i < 8
  {
    x & (1 << i) != 0
  }

  /** The GPIOB->ODR word written by io_set_data: the inverted data byte in
      the low eight bits and the active-low write enable on bit 8. */
  function DataWord(data: Byte, write: bool): Word {
    (!(data as Word) & 0xFF) | (if write then 0 else 0x100)
  }

  /** Bit by bit: data pins carry the complement of the data, bit 8 is set
      exactly when write is off, and bits 9..15 stay low. */
  lemma DataWordBits(data: Byte, write: bool)
    ensures forall i :: 0 <= i < 8 ==> (WordBit(DataWord(data, write), i) <==> !ByteBit(data, i))
    ensures WordBit(DataWord(data, write), 8) <==> !write
    ensures forall i :: 9 <= i < 16 ==> !WordBit(DataWord(data, write), i)
  {
  }

  /** The logical byte io_get_data assembles from the pins
      B9 B10 B12 B13 B14 B15 A8 A9 (bit 0 first). */
  function DecodeData(p: Pins): Byte {
    (((p.b >> 9) & 0x03) | ((p.b >> 10) & 0x3C) | ((p.a >> 2) & 0xC0)) as Byte
  }

  /** Bit by bit: the pin each logical data bit is read from. */
  lemma DecodeDataBits(p: Pins)
    ensures ByteBit(DecodeData(p), 0) == WordBit(p.b, 9)
    ensures ByteBit(DecodeData(p), 1) == WordBit(p.b, 10)
    ensures forall i :: 2 <= i < 6 ==> (ByteBit(DecodeData(p), i) <==> WordBit(p.b, i + 10))
    ensures ByteBit(DecodeData(p), 6) == WordBit(p.a, 8)
    ensures ByteBit(DecodeData(p), 7) == WordBit(p.a, 9)
  {
  }

  /** The pin levels that present byte `d` to io_get_data, every other pin low. */
  function PinsFor(d: Byte): Pins {
    var x := d as Word;
    Pins((x & 0xC0) << 2, ((x & 0x03) << 9) | ((x & 0x3C) << 10))
  }

  /** io_get_data recovers every byte placed on its eight data pins. */
  lemma DecodePinsFor(d: Byte)
    ensures DecodeData(PinsFor(d)) == d
  {
  }

  /** io_get_data reads only A8, A9, B9, B10 and B12..B15: in particular B11
      and the address lines on port A do not influence the result. */
  lemma DecodeIgnoresOtherPins(p: Pins)
    ensures DecodeData(p) == DecodeData(Pins(p.a & 0x0300, p.b & 0xF600))
  {
  }

  /** The bytes io_get_data returns when the pins follow `pins`. */
  function Sample(pins: Oracle): Reader {
    t => DecodeData(pins(t))
  }

  /** The GPIO ports, delay service and interrupt control seen by prog.c,
      recording every call in `trace`. */
  class Bus {
    const read: Reader  // what io_get_data returns after each history
    var trace: seq<Event>
    var addressPort: Word  // GPIOA->ODR
    var dataPort: Word     // GPIOB->ODR

    constructor (read: Reader)
      ensures this.read == read && trace == []
    {
      this.read := read;
      trace := [];
    }

    /** io_set_address */
    method SetAddress(address: Byte)
      modifies this
      ensures trace == old(trace) + [Event.SetAddress(address)]
      ensures addressPort == address as Word && dataPort == old(dataPort)
    {
      addressPort := address as Word;
      trace := trace + [Event.SetAddress(address)];
    }

    /** io_set_data */
    method SetData(data: Byte, write: bool)
      modifies this
      ensures trace == old(trace) + [Event.SetData(data, write)]
      ensures dataPort == DataWord(data, write) && addressPort == old(addressPort)
    {
      dataPort := DataWord(data, write);
      trace := trace + [Event.SetData(data, write)];
    }

    /** DWT_DELAY_MS */
    method Delay(ms: nat)
      modifies this
      ensures trace == old(trace) + [Event.Delay(ms)]
      ensures addressPort == old(addressPort) && dataPort == old(dataPort)
    {
      trace := trace + [Event.Delay(ms)];
    }

    /** __disable_irq */
    method DisableIrq()
      modifies this
      ensures trace == old(trace) + [IrqOff]
      ensures addressPort == old(addressPort) && dataPort == old(dataPort)
    {
      trace := trace + [IrqOff];
    }

    /** __enable_irq */
    method EnableIrq()
      modifies this
      ensures trace == old(trace) + [IrqOn]
      ensures addressPort == old(addressPort) && dataPort == old(dataPort)
    {
      trace := trace + [IrqOn];
    }

    /** io_get_data: the chip answers according to the history of the bus. */
    method GetData() returns (d: Byte)
      modifies this
      ensures d == read(old(trace))
      ensures trace == old(trace) + [Get(d)]
      ensures addressPort == old(addressPort) && dataPort == old(dataPort)
    {
      d := read(trace);
      trace := trace + [Get(d)];
    }
  }
}
