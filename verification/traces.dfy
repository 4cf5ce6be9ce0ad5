/** Views of a recorded bus trace: the interrupt-masking state it leaves,
    the rule that write enable is only driven with interrupts masked, the
    addresses and write-enabled data it drives, and the fixed event shapes
    of a burn pulse and of an address scan (firmware/prog.c). */
module Traces {
  import opened Types
  import opened Hardware

  /** Interrupts are masked after `t` (they start enabled). */
  function Masked(t: seq<Event>): bool
    decreases |t|
  {
    if t == [] then false
    else match t[|t| - 1]
      case IrqOff => true
      case IrqOn => false
      case _ => Masked(t[..|t| - 1])
  }

  /** Every write-enabled SetData in `t` happens while interrupts are masked. */
  predicate PulsesMasked(t: seq<Event>)
    decreases |t|
  {
    t == [] ||
    (PulsesMasked(t[..|t| - 1]) &&
     (t[|t| - 1].SetData? && t[|t| - 1].write ==> Masked(t[..|t| - 1])))
  }

  /** An event that neither touches the interrupt mask nor drives write enable. */
  predicate Quiet(e: Event) {
    !e.IrqOff? && !e.IrqOn? && !(e.SetData? && e.write)
  }

  lemma AppendEvent(t: seq<Event>, e: Event)
    ensures Masked(t + [e]) == (if e.IrqOff? then true else if e.IrqOn? then false else Masked(t))
    ensures PulsesMasked(t + [e]) == (PulsesMasked(t) && (e.SetData? && e.write ==> Masked(t)))
  {
    assert (t + [e])[..|t|] == t;
  }

  /** Appending events that are all quiet changes neither view. */
  lemma {:induction false} AppendQuiet(t: seq<Event>, u: seq<Event>)
    requires forall e :: e in u ==> Quiet(e)
    ensures Masked(t + u) == Masked(t)
    ensures PulsesMasked(t + u) == PulsesMasked(t)
    decreases |u|
  {
    if u == [] {
      assert t + u == t;
    } else {
      var v := u[..|u| - 1];
      assert u[|u| - 1] in u;
      assert forall e :: e in v ==> e in u;
      AppendQuiet(t, v);
      assert t + u == (t + v) + [u[|u| - 1]];
      AppendEvent(t + v, u[|u| - 1]);
    }
  }

  /** The events of one burn pulse for the single-bit value `bit`
      (firmware/prog.c:207-217): pre-charge, a 300 ms write-enabled pulse
      with interrupts masked, a 1200 ms recovery, then the read level. */
  function Pulse(bit: Byte): seq<Event> {
    [SetData(bit, false), Delay(900), IrqOff, SetData(bit, true), Delay(300),
     SetData(bit, false), IrqOn, Delay(1200), SetData(0xFF, false)]
  }

  /** A burn pulse keeps the masking rule and leaves interrupts enabled. */
  lemma PulseKeepsMasking(t: seq<Event>, bit: Byte)
    requires PulsesMasked(t) && !Masked(t)
    ensures PulsesMasked(t + Pulse(bit)) && !Masked(t + Pulse(bit))
  {
    var t3 := PulseOpens(t, bit);
    var t9 := PulseCloses(t3, bit);
    assert t9 == t + Pulse(bit);
  }

  /** The first three pulse events end with interrupts masked. */
  lemma PulseOpens(t: seq<Event>, bit: Byte) returns (t3: seq<Event>)
    requires PulsesMasked(t) && !Masked(t)
    ensures t3 == t + [SetData(bit, false), Delay(900), IrqOff]
    ensures PulsesMasked(t3) && Masked(t3)
  {
    var t1 := t + [SetData(bit, false)];
    AppendEvent(t, SetData(bit, false));
    var t2 := t1 + [Delay(900)];
    AppendEvent(t1, Delay(900));
    t3 := t2 + [IrqOff];
    AppendEvent(t2, IrqOff);
  }

  /** The remaining six events drive write enable while masked, then unmask. */
  lemma PulseCloses(t3: seq<Event>, bit: Byte) returns (t9: seq<Event>)
    requires PulsesMasked(t3) && Masked(t3)
    ensures t9 == t3 + [SetData(bit, true), Delay(300), SetData(bit, false), IrqOn, Delay(1200), SetData(0xFF, false)]
    ensures PulsesMasked(t9) && !Masked(t9)
  {
    var t4 := t3 + [SetData(bit, true)];
    AppendEvent(t3, SetData(bit, true));
    var t5 := t4 + [Delay(300)];
    AppendEvent(t4, Delay(300));
    var t6 := t5 + [SetData(bit, false)];
    AppendEvent(t5, SetData(bit, false));
    var t7 := t6 + [IrqOn];
    AppendEvent(t6, IrqOn);
    var t8 := t7 + [Delay(1200)];
    AppendEvent(t7, Delay(1200));
    t9 := t8 + [SetData(0xFF, false)];
    AppendEvent(t8, SetData(0xFF, false));
  }

  function AddressOf(e: Event): seq<Byte> {
    if e.SetAddress? then [e.address] else []
  }

  function PulseOf(e: Event): seq<Byte> {
    if e.SetData? && e.write then [e.value] else []
  }

  /** The addresses driven by `u`, in order. */
  function Addresses(u: seq<Event>): seq<Byte>
    decreases |u|
  {
    if u == [] then [] else AddressOf(u[0]) + Addresses(u[1..])
  }

  /** The data values driven with write enable by `u`, in order. */
  function Pulses(u: seq<Event>): seq<Byte>
    decreases |u|
  {
    if u == [] then [] else PulseOf(u[0]) + Pulses(u[1..])
  }

  lemma {:induction false} AddressesAppend(u: seq<Event>, v: seq<Event>)
    ensures Addresses(u + v) == Addresses(u) + Addresses(v)
    decreases |u|
  {
    if u == [] {
      assert u + v == v;
    } else {
      var w := u + v;
      assert w[0] == u[0];
      assert w[1..] == u[1..] + v;
      AddressesAppend(u[1..], v);
    }
  }

  lemma {:induction false} PulsesAppend(u: seq<Event>, v: seq<Event>)
    ensures Pulses(u + v) == Pulses(u) + Pulses(v)
    decreases |u|
  {
    if u == [] {
      assert u + v == v;
    } else {
      var w := u + v;
      assert w[0] == u[0];
      assert w[1..] == u[1..] + v;
      PulsesAppend(u[1..], v);
    }
  }

  lemma ProjectAppend(u: seq<Event>, v: seq<Event>)
    ensures Addresses(u + v) == Addresses(u) + Addresses(v)
    ensures Pulses(u + v) == Pulses(u) + Pulses(v)
  {
    AddressesAppend(u, v);
    PulsesAppend(u, v);
  }

  lemma ProjectSingle(e: Event)
    ensures Addresses([e]) == AddressOf(e) && Pulses([e]) == PulseOf(e)
  {
    assert [e][1..] == [];
  }

  /** Events that drive neither an address nor write enable project to nothing. */
  lemma {:induction false} ProjectNothing(u: seq<Event>)
    requires forall e :: e in u ==> !e.SetAddress? && !(e.SetData? && e.write)
    ensures Addresses(u) == [] && Pulses(u) == []
    decreases |u|
  {
    if u != [] {
      assert u[0] in u;
      assert forall e :: e in u[1..] ==> e in u;
      ProjectNothing(u[1..]);
    }
  }

  lemma PulseProjections(bit: Byte)
    ensures Addresses(Pulse(bit)) == [] && Pulses(Pulse(bit)) == [bit]
  {
    var a := [SetData(bit, false), Delay(900), IrqOff];
    var b := [SetData(bit, true)];
    var c := [Delay(300), SetData(bit, false), IrqOn, Delay(1200), SetData(0xFF, false)];
    assert Pulse(bit) == a + b + c;
    assert forall e :: e in a ==> e == a[0] || e == a[1] || e == a[2];
    assert forall e :: e in c ==> e == c[0] || e == c[1] || e == c[2] || e == c[3] || e == c[4];
    ProjectNothing(a);
    ProjectSingle(SetData(bit, true));
    ProjectNothing(c);
    ProjectAppend(a, b);
    ProjectAppend(a + b, c);
  }

  /** The addresses lo, lo+1, ..., hi-1 as bytes. */
  function Ascending(lo: nat, hi: nat): (r: seq<Byte>)
    requires lo <= hi <= 0x100
    ensures |r| == hi - lo
  {
    seq(hi - lo, i requires 0 <= i < hi - lo => (lo + i) as Byte)
  }

  /** Opening a cell (firmware/prog.c:136-138 and 194-196): drive the
      address, settle 1 ms, sample the data pins. */
  function Probe(address: nat, value: Byte): seq<Event>
    requires address < 0x100
  {
    [SetAddress(address as Byte), Delay(1), Get(value)]
  }

  /** The byte the sample of a probe at `address` returns after `t`. */
  function Now(read: Reader, t: seq<Event>, address: nat): Byte
    requires address < 0x100
  {
    read(t + [SetAddress(address as Byte), Delay(1)])
  }

  /** The events prog_read_internal produces for the cells read so far
      (firmware/prog.c:135-139): one probe per address, ascending. */
  function ScanTrace(raw: seq<Byte>): seq<Event>
    requires |raw| <= 0x100
    decreases |raw|
  {
    if raw == [] then []
    else ScanTrace(raw[..|raw| - 1]) + Probe(|raw| - 1, raw[|raw| - 1])
  }

  /** The raw bytes a scan of the first `n` cells samples after the history
      `t`: each read sees everything driven before it. */
  function ScanValues(read: Reader, t: seq<Event>, n: nat): (raw: seq<Byte>)
    requires n <= 0x100
    ensures |raw| == n
    decreases n
  {
    if n == 0 then []
    else
      var prev := ScanValues(read, t, n - 1);
      prev + [Now(read, t + ScanTrace(prev), n - 1)]
  }

  /** A probe drives exactly its address, never write enable, and leaves
      the interrupt mask alone. */
  lemma ProbeFacts(address: nat, v: Byte)
    requires address < 0x100
    ensures Addresses(Probe(address, v)) == [address as Byte] && Pulses(Probe(address, v)) == []
    ensures forall e :: e in Probe(address, v) ==> Quiet(e)
  {
    var a := address as Byte;
    ProjectSingle(SetAddress(a));
    assert forall e :: e in [Delay(1), Get(v)] ==> e == Delay(1) || e == Get(v);
    ProjectNothing([Delay(1), Get(v)]);
    ProjectAppend([SetAddress(a)], [Delay(1), Get(v)]);
    assert Probe(address, v) == [SetAddress(a)] + [Delay(1), Get(v)];
  }

  /** One more cell of a scan: the next sample, and its probe appended. */
  lemma ScanStep(read: Reader, t: seq<Event>, raw: seq<Byte>, v: Byte)
    requires |raw| < 0x100 && raw == ScanValues(read, t, |raw|)
    requires v == Now(read, t + ScanTrace(raw), |raw|)
    ensures ScanValues(read, t, |raw| + 1) == raw + [v]
    ensures ScanTrace(raw + [v]) == ScanTrace(raw) + Probe(|raw|, v)
  {
    assert (raw + [v])[..|raw|] == raw;
  }

  lemma AscendingSnoc(n: nat)
    requires n < 0x100
    ensures Ascending(0, n) + [n as Byte] == Ascending(0, n + 1)
  {
  }

  /** A scan visits addresses 0..|raw|-1 in ascending order. */
  lemma {:induction false} ScanAddresses(raw: seq<Byte>)
    requires |raw| <= 0x100
    ensures Addresses(ScanTrace(raw)) == Ascending(0, |raw|)
    decreases |raw|
  {
    if raw != [] {
      var n := |raw| - 1;
      var step := Probe(n, raw[n]);
      ScanAddresses(raw[..n]);
      ProbeFacts(n, raw[n]);
      AddressesAppend(ScanTrace(raw[..n]), step);
      AscendingSnoc(n);
    }
  }

  /** A scan never drives write enable nor touches the interrupt mask. */
  lemma {:induction false} ScanQuiet(raw: seq<Byte>)
    requires |raw| <= 0x100
    ensures forall e :: e in ScanTrace(raw) ==> Quiet(e)
    decreases |raw|
  {
    if raw != [] {
      ScanQuiet(raw[..|raw| - 1]);
      ProbeFacts(|raw| - 1, raw[|raw| - 1]);
    }
  }
}
