/** The burn loop of prog_write (firmware/prog.c:192-227) as a function of
    the chip's answers, and what it guarantees: which bits are pulsed and
    in what order, which addresses are driven, that write enable is only
    driven with interrupts masked, and how a failed bit ends the run. */
module Burn {
  import opened Types
  import opened Hardware
  import opened Traces

  /** The single-bit value `1 << n` (bit_mask in prog_write). */
  function Bit(n: nat): Byte
    requires n < 8
  {
    (1 as Byte) << n
  }

  predicate IsSingleBit(v: Byte) {
    v != 0 && v & (v - 1) == 0
  }

  /** Bit(n) has bit n and no other set, and grows with n. */
  lemma BitFacts(n: nat)
    requires n < 8
    ensures ByteBit(Bit(n), n)
    ensures forall i :: 0 <= i < 8 && i != n ==> !ByteBit(Bit(n), i)
    ensures IsSingleBit(Bit(n))
    ensures n < 7 ==> Bit(n) < Bit(n + 1)
  {
  }

  /** burn_bits (firmware/prog.c:198): the bits requested in the target,
      meaningful for the chip, and not yet reading as set. */
  function BurnBits(target: Byte, now: Byte, mask: Byte): Byte {
    target & !now & mask
  }

  /** Bit i is burned exactly when the target and the mask have it and the
      chip does not read it yet: a subset of target & mask, disjoint from now. */
  lemma BurnBitsMeaning(target: Byte, now: Byte, mask: Byte)
    ensures forall i :: 0 <= i < 8 ==>
      (ByteBit(BurnBits(target, now, mask), i) <==> ByteBit(target, i) && ByteBit(mask, i) && !ByteBit(now, i))
    ensures BurnBits(target, now, mask) & (target & mask) == BurnBits(target, now, mask)
    ensures BurnBits(target, now, mask) & now == 0
  {
  }

  /** The bits of `burn` at positions lo..hi-1, as single-bit values in
      ascending position order. */
  function SetBits(burn: Byte, lo: nat, hi: nat): seq<Byte>
    requires lo <= hi <= 8
    decreases hi - lo
  {
    if lo == hi then []
    else if burn & Bit(lo) != 0 then [Bit(lo)] + SetBits(burn, lo + 1, hi)
    else SetBits(burn, lo + 1, hi)
  }

  /** Every set bit of `burn` at a position in lo..hi-1 is listed. */
  lemma {:induction false} SetBitsComplete(burn: Byte, lo: nat, hi: nat, n: nat)
    requires lo <= n < hi <= 8 && burn & Bit(n) != 0
    ensures Bit(n) in SetBits(burn, lo, hi)
    decreases hi - lo
  {
    if lo < n {
      SetBitsComplete(burn, lo + 1, hi, n);
    }
  }

  /** Every value of `s` is a single bit of `bits`. */
  predicate BitsOf(s: seq<Byte>, bits: Byte) {
    forall k :: 0 <= k < |s| ==> IsSingleBit(s[k]) && s[k] & bits == s[k]
  }

  predicate StrictlyAscending(s: seq<Byte>) {
    forall j, k :: 0 <= j < k < |s| ==> s[j] < s[k]
  }

  /** Every value SetBits lists is a single bit of `burn`. */
  lemma {:induction false} SetBitsAreBits(burn: Byte, lo: nat, hi: nat)
    requires lo <= hi <= 8
    ensures BitsOf(SetBits(burn, lo, hi), burn)
    decreases hi - lo
  {
    if lo < hi {
      SetBitsAreBits(burn, lo + 1, hi);
      BitFacts(lo);
    }
  }

  /** SetBits lists values no smaller than Bit(lo), strictly increasing. */
  lemma {:induction false} SetBitsAscending(burn: Byte, lo: nat, hi: nat)
    requires lo <= hi <= 8
    ensures StrictlyAscending(SetBits(burn, lo, hi))
    ensures lo < 8 ==> forall k :: 0 <= k < |SetBits(burn, lo, hi)| ==> Bit(lo) <= SetBits(burn, lo, hi)[k]
    decreases hi - lo
  {
    if lo < hi {
      var rest := SetBits(burn, lo + 1, hi);
      SetBitsAscending(burn, lo + 1, hi);
      BitFacts(lo);
      if burn & Bit(lo) != 0 {
        var r := [Bit(lo)] + rest;
        assert r == SetBits(burn, lo, hi);
        forall k | 0 < k < |r|
          ensures Bit(lo) < r[k]
        {
          assert r[k] == rest[k - 1];
        }
        forall j, k | 0 <= j < k < |r|
          ensures r[j] < r[k]
        {
          if j > 0 {
            assert r[j] == rest[j - 1] && r[k] == rest[k - 1];
          }
        }
      }
    }
  }

  /** Bits of a subset of `mask` are bits of `mask`. */
  lemma BitsOfSubset(s: seq<Byte>, bits: Byte, mask: Byte)
    requires BitsOf(s, bits) && bits & mask == bits
    ensures BitsOf(s, mask)
  {
    forall k | 0 <= k < |s|
      ensures s[k] & mask == s[k]
    {
      assert s[k] & mask == (s[k] & bits) & mask == s[k] & (bits & mask);
    }
  }

  lemma BitsOfAppend(s: seq<Byte>, s': seq<Byte>, bits: Byte)
    requires BitsOf(s, bits) && BitsOf(s', bits)
    ensures BitsOf(s + s', bits)
  {
    forall k | |s| <= k < |s + s'|
      ensures IsSingleBit((s + s')[k]) && (s + s')[k] & bits == (s + s')[k]
    {
      assert (s + s')[k] == s'[k - |s|];
    }
  }

  /** How a burn run ended, with the events it appended to the trace. */
  datatype Run =
    | Completed(events: seq<Event>)
    | Failed(events: seq<Event>, address: nat, bit: nat)

  /** The same outcome with `head` recorded before its events. */
  function Prepend(head: seq<Event>, r: Run): Run {
    match r
    case Completed(u) => Completed(head + u)
    case Failed(u, a, b) => Failed(head + u, a, b)
  }

  /** The inner loop of prog_write (firmware/prog.c:201-226) from bit
      position `n` on, after the history `t`: one pulse per bit of `burn`,
      each followed by a read that must show the bit set, else address 0 is
      driven and the run stops. */
  function BitsRun(read: Reader, t: seq<Event>, address: nat, burn: Byte, n: nat): Run
    requires n <= 8
    decreases 8 - n, |t|  // |t| stops the solver unrolling all eight bits when n is a literal
  {
    if n == 8 then Completed([])
    else if burn & Bit(n) == 0 then BitsRun(read, t, address, burn, n + 1)
    else
      var after := read(t + Pulse(Bit(n)));
      var head := Pulse(Bit(n)) + [Get(after)];
      if after & Bit(n) == 0 then Failed(head + [SetAddress(0)], address, n)
      else Prepend(head, BitsRun(read, t + head, address, burn, n + 1))
  }

  /** One iteration of the outer loop (firmware/prog.c:194-226): probe the
      cell, then burn the bits the target wants and the chip lacks. */
  function CellRun(read: Reader, t: seq<Event>, address: nat, target: Byte, mask: Byte): Run
    requires address < 0x100
  {
    var now := Now(read, t, address);
    Prepend(Probe(address, now), BitsRun(read, t + Probe(address, now), address, BurnBits(target, now, mask), 0))
  }

  /** The outer loop of prog_write from `address` on (firmware/prog.c:193-227). */
  function CellsRun(read: Reader, t: seq<Event>, target: seq<Byte>, mask: Byte, size: nat, address: nat): Run
    requires address <= size <= |target| && size <= 0x100
    decreases size - address
  {
    if address == size then Completed([])
    else
      var cell := CellRun(read, t, address, target[address], mask);
      if cell.Failed? then cell
      else Prepend(cell.events, CellsRun(read, t + cell.events, target, mask, size, address + 1))
  }

  // ---- one pulse ----

  /** The step of BitsRun at a bit that is burned, with the projections of
      the pulse and its read-back. */
  lemma PulseStep(read: Reader, t: seq<Event>, address: nat, burn: Byte, n: nat)
    returns (head: seq<Event>, after: Byte)
    requires n < 8 && burn & Bit(n) != 0
    ensures after == read(t + Pulse(Bit(n))) && head == Pulse(Bit(n)) + [Get(after)]
    ensures Pulses(head) == [Bit(n)] && Addresses(head) == []
    ensures BitsRun(read, t, address, burn, n) ==
      if after & Bit(n) == 0 then Failed(head + [SetAddress(0)], address, n)
      else Prepend(head, BitsRun(read, t + head, address, burn, n + 1))
  {
    after := read(t + Pulse(Bit(n)));
    head := Pulse(Bit(n)) + [Get(after)];
    PulseProjections(Bit(n));
    ProjectSingle(Get(after));
    ProjectAppend(Pulse(Bit(n)), [Get(after)]);
  }

  // ---- pulses of a bit loop ----

  /** What a bit loop from position `n` pulses: the bits of `burn` from `n`
      on, in ascending order; a failure names a burned bit and ends the
      pulses with it. */
  predicate PulsesSpec(r: Run, address: nat, burn: Byte, n: nat)
    requires n <= 8
  {
    (r.Completed? ==> Pulses(r.events) == SetBits(burn, n, 8)) &&
    (r.Failed? ==>
      r.address == address && n <= r.bit < 8 && burn & Bit(r.bit) != 0 &&
      Pulses(r.events) == SetBits(burn, n, r.bit + 1))
  }

  lemma PulsesSpecSkip(r: Run, address: nat, burn: Byte, n: nat)
    requires n < 8 && burn & Bit(n) == 0
    requires PulsesSpec(r, address, burn, n + 1)
    ensures PulsesSpec(r, address, burn, n)
  {
  }

  lemma SetBitsFirst(burn: Byte, n: nat, hi: nat)
    requires n < hi <= 8 && burn & Bit(n) != 0
    ensures SetBits(burn, n, hi) == [Bit(n)] + SetBits(burn, n + 1, hi)
  {
  }

  lemma PulsesSpecPulse(head: seq<Event>, r: Run, address: nat, burn: Byte, n: nat)
    requires n < 8 && burn & Bit(n) != 0 && Pulses(head) == [Bit(n)]
    requires PulsesSpec(r, address, burn, n + 1)
    ensures PulsesSpec(Prepend(head, r), address, burn, n)
  {
    ProjectAppend(head, r.events);
    if r.Completed? {
      SetBitsFirst(burn, n, 8);
    } else {
      SetBitsFirst(burn, n, r.bit + 1);
    }
  }

  lemma PulsesSpecFail(head: seq<Event>, address: nat, burn: Byte, n: nat)
    requires n < 8 && burn & Bit(n) != 0 && Pulses(head) == [Bit(n)]
    ensures PulsesSpec(Failed(head + [SetAddress(0)], address, n), address, burn, n)
  {
    ProjectSingle(SetAddress(0));
    ProjectAppend(head, [SetAddress(0)]);
    assert SetBits(burn, n + 1, n + 1) == [];
  }

  /** Pulses are issued exactly for the bits of `burn` (firmware/prog.c:203),
      in ascending bit order, up to and including a failing bit. */
  lemma {:induction false} BitsRunPulses(read: Reader, t: seq<Event>, address: nat, burn: Byte, n: nat)
    requires n <= 8
    ensures PulsesSpec(BitsRun(read, t, address, burn, n), address, burn, n)
    decreases 8 - n
  {
    if n == 8 {
      assert Pulses([]) == [];
    } else if burn & Bit(n) == 0 {
      BitsRunPulses(read, t, address, burn, n + 1);
      PulsesSpecSkip(BitsRun(read, t, address, burn, n + 1), address, burn, n);
    } else {
      var head, after := PulseStep(read, t, address, burn, n);
      if after & Bit(n) == 0 {
        PulsesSpecFail(head, address, burn, n);
      } else {
        BitsRunPulses(read, t + head, address, burn, n + 1);
        PulsesSpecPulse(head, BitsRun(read, t + head, address, burn, n + 1), address, burn, n);
      }
    }
  }

  // ---- addresses of a bit loop ----

  /** A bit loop drives no address, except address 0 when it fails. */
  predicate AddressesSpec(r: Run) {
    Addresses(r.events) == if r.Failed? then [0] else []
  }

  lemma AddressesSpecPulse(head: seq<Event>, r: Run)
    requires Addresses(head) == [] && AddressesSpec(r)
    ensures AddressesSpec(Prepend(head, r))
  {
    AddressesAppend(head, r.events);
  }

  lemma AddressesSpecFail(head: seq<Event>, address: nat, n: nat)
    requires Addresses(head) == []
    ensures AddressesSpec(Failed(head + [SetAddress(0)], address, n))
  {
    ProjectSingle(SetAddress(0));
    AddressesAppend(head, [SetAddress(0)]);
  }

  lemma {:induction false} BitsRunAddresses(read: Reader, t: seq<Event>, address: nat, burn: Byte, n: nat)
    requires n <= 8
    ensures AddressesSpec(BitsRun(read, t, address, burn, n))
    decreases 8 - n
  {
    if n == 8 {
      assert Addresses([]) == [];
    } else if burn & Bit(n) == 0 {
      BitsRunAddresses(read, t, address, burn, n + 1);
    } else {
      var head, after := PulseStep(read, t, address, burn, n);
      if after & Bit(n) == 0 {
        AddressesSpecFail(head, address, n);
      } else {
        BitsRunAddresses(read, t + head, address, burn, n + 1);
        AddressesSpecPulse(head, BitsRun(read, t + head, address, burn, n + 1));
      }
    }
  }

  // ---- interrupt masking ----

  /** Write enable was only ever driven with interrupts masked, and
      interrupts are enabled now. */
  predicate Clean(t: seq<Event>) {
    PulsesMasked(t) && !Masked(t)
  }

  /** A pulse and its read-back keep the trace clean. */
  lemma PulseReadClean(t: seq<Event>, bit: Byte, after: Byte)
    requires Clean(t)
    ensures Clean(t + (Pulse(bit) + [Get(after)]))
  {
    PulseKeepsMasking(t, bit);
    AppendEvent(t + Pulse(bit), Get(after));
    assert t + (Pulse(bit) + [Get(after)]) == (t + Pulse(bit)) + [Get(after)];
  }

  /** A scan of the chip and the final drive of address 0
      (firmware/prog.c:134-140) keep the trace clean. */
  lemma ScanClean(t: seq<Event>, raw: seq<Byte>)
    requires |raw| <= 0x100 && Clean(t)
    ensures Clean(t + ScanTrace(raw) + [SetAddress(0)])
  {
    ScanQuiet(raw);
    AppendQuiet(t, ScanTrace(raw) + [SetAddress(0)]);
    assert t + ScanTrace(raw) + [SetAddress(0)] == t + (ScanTrace(raw) + [SetAddress(0)]);
  }

  lemma CleanAppend(t: seq<Event>, head: seq<Event>, rest: seq<Event>)
    requires Clean((t + head) + rest)
    ensures Clean(t + (head + rest))
  {
    assert t + (head + rest) == (t + head) + rest;
  }

  lemma CleanFail(t: seq<Event>, head: seq<Event>)
    requires Clean(t + head)
    ensures Clean(t + (head + [SetAddress(0)]))
  {
    AppendEvent(t + head, SetAddress(0));
    assert t + (head + [SetAddress(0)]) == (t + head) + [SetAddress(0)];
  }

  /** A bit loop keeps write enable inside masked interrupts
      (firmware/prog.c:210-214) and ends with interrupts enabled. */
  lemma {:induction false} BitsRunMasking(read: Reader, t: seq<Event>, address: nat, burn: Byte, n: nat)
    requires n <= 8 && Clean(t)
    ensures Clean(t + BitsRun(read, t, address, burn, n).events)
    decreases 8 - n
  {
    if n == 8 {
      assert t + [] == t;
    } else if burn & Bit(n) == 0 {
      BitsRunMasking(read, t, address, burn, n + 1);
    } else {
      var head, after := PulseStep(read, t, address, burn, n);
      PulseReadClean(t, Bit(n), after);
      if after & Bit(n) == 0 {
        CleanFail(t, head);
      } else {
        BitsRunMasking(read, t + head, address, burn, n + 1);
        CleanAppend(t, head, BitsRun(read, t + head, address, burn, n + 1).events);
      }
    }
  }

  // ---- how a failure ends ----

  /** A failed burn ends with the pulse for the failing bit, the read that
      showed the bit still clear, and address 0 driven: nothing follows. */
  ghost predicate EndsWithFailedPulse(u: seq<Event>, bit: nat)
    requires bit < 8
  {
    |u| >= 11 &&
    u[|u| - 11..|u| - 2] == Pulse(Bit(bit)) &&
    u[|u| - 2].Get? && u[|u| - 2].value & Bit(bit) == 0 &&
    u[|u| - 1] == SetAddress(0)
  }

  lemma EndsWithFailedPulseAfter(head: seq<Event>, u: seq<Event>, bit: nat)
    requires bit < 8 && EndsWithFailedPulse(u, bit)
    ensures EndsWithFailedPulse(head + u, bit)
  {
    var w := head + u;
    assert w[|w| - 11..|w| - 2] == u[|u| - 11..|u| - 2];
    assert w[|w| - 2] == u[|u| - 2] && w[|w| - 1] == u[|u| - 1];
  }

  ghost predicate FailureSpec(r: Run) {
    r.Failed? ==> r.bit < 8 && EndsWithFailedPulse(r.events, r.bit)
  }

  lemma FailureSpecPulse(head: seq<Event>, r: Run)
    requires FailureSpec(r)
    ensures FailureSpec(Prepend(head, r))
  {
    if r.Failed? {
      EndsWithFailedPulseAfter(head, r.events, r.bit);
    }
  }

  lemma FailureSpecFail(after: Byte, address: nat, n: nat)
    requires n < 8 && after & Bit(n) == 0
    ensures FailureSpec(Failed(Pulse(Bit(n)) + [Get(after)] + [SetAddress(0)], address, n))
  {
    var u := Pulse(Bit(n)) + [Get(after)] + [SetAddress(0)];
    assert u[|u| - 11..|u| - 2] == Pulse(Bit(n));
  }

  /** After a bit fails nothing else happens in the bit loop
      (firmware/prog.c:220-223). */
  lemma {:induction false} BitsRunFailure(read: Reader, t: seq<Event>, address: nat, burn: Byte, n: nat)
    requires n <= 8
    ensures FailureSpec(BitsRun(read, t, address, burn, n))
    decreases 8 - n
  {
    if n < 8 {
      if burn & Bit(n) == 0 {
        BitsRunFailure(read, t, address, burn, n + 1);
      } else {
        var head, after := PulseStep(read, t, address, burn, n);
        if after & Bit(n) == 0 {
          FailureSpecFail(after, address, n);
        } else {
          BitsRunFailure(read, t + head, address, burn, n + 1);
          FailureSpecPulse(head, BitsRun(read, t + head, address, burn, n + 1));
        }
      }
    }
  }

  // ---- one cell ----

  /** Prepending twice is prepending the concatenation. */
  lemma PrependPrepend(x: seq<Event>, y: seq<Event>, r: Run)
    ensures Prepend(x, Prepend(y, r)) == Prepend(x + y, r)
  {
    assert x + (y + r.events) == (x + y) + r.events;
  }

  /** The probe that opens a cell, with its projections. */
  lemma CellStep(read: Reader, t: seq<Event>, address: nat, target: Byte, mask: Byte)
    returns (now: Byte, probe: seq<Event>)
    requires address < 0x100
    ensures now == Now(read, t, address) && probe == Probe(address, now)
    ensures CellRun(read, t, address, target, mask) ==
      Prepend(probe, BitsRun(read, t + probe, address, BurnBits(target, now, mask), 0))
    ensures Addresses(probe) == [address as Byte] && Pulses(probe) == []
    ensures Clean(t) ==> Clean(t + probe)
  {
    now := Now(read, t, address);
    probe := Probe(address, now);
    ProbeFacts(address, now);
    if Clean(t) {
      AppendQuiet(t, probe);
    }
  }

  /** A cell pulses exactly the bits of burn_bits for the byte `now` it
      sampled, in ascending order (firmware/prog.c:196-203); a failure names
      one of those bits and ends the pulses with it. */
  lemma CellRunPulses(read: Reader, t: seq<Event>, address: nat, target: Byte, mask: Byte)
    requires address < 0x100
    ensures PulsesSpec(CellRun(read, t, address, target, mask), address,
                       BurnBits(target, Now(read, t, address), mask), 0)
  {
    var now, probe := CellStep(read, t, address, target, mask);
    var r := BitsRun(read, t + probe, address, BurnBits(target, now, mask), 0);
    BitsRunPulses(read, t + probe, address, BurnBits(target, now, mask), 0);
    PulsesAppend(probe, r.events);
  }

  /** A cell drives its own address, then address 0 only if it fails. */
  lemma CellRunAddresses(read: Reader, t: seq<Event>, address: nat, target: Byte, mask: Byte)
    requires address < 0x100
    ensures var r := CellRun(read, t, address, target, mask);
      Addresses(r.events) == [address as Byte] + (if r.Failed? then [0] else [])
  {
    var now, probe := CellStep(read, t, address, target, mask);
    var r := BitsRun(read, t + probe, address, BurnBits(target, now, mask), 0);
    BitsRunAddresses(read, t + probe, address, BurnBits(target, now, mask), 0);
    AddressesAppend(probe, r.events);
  }

  /** Every pulse of a cell is a single bit of the target that the mask
      allows and that the cell did not already read as set. */
  lemma CellRunPulseBits(read: Reader, t: seq<Event>, address: nat, target: Byte, mask: Byte)
    requires address < 0x100
    ensures var r := CellRun(read, t, address, target, mask);
      BitsOf(Pulses(r.events), BurnBits(target, Now(read, t, address), mask)) &&
      BitsOf(Pulses(r.events), target & mask)
  {
    var r := CellRun(read, t, address, target, mask);
    var burn := BurnBits(target, Now(read, t, address), mask);
    CellRunPulses(read, t, address, target, mask);
    if r.Completed? {
      SetBitsAreBits(burn, 0, 8);
    } else {
      SetBitsAreBits(burn, 0, r.bit + 1);
    }
    BurnBitsMeaning(target, Now(read, t, address), mask);
    BitsOfSubset(Pulses(r.events), burn, target & mask);
  }

  lemma CellRunMasking(read: Reader, t: seq<Event>, address: nat, target: Byte, mask: Byte)
    requires address < 0x100 && Clean(t)
    ensures Clean(t + CellRun(read, t, address, target, mask).events)
  {
    var now, probe := CellStep(read, t, address, target, mask);
    var r := BitsRun(read, t + probe, address, BurnBits(target, now, mask), 0);
    BitsRunMasking(read, t + probe, address, BurnBits(target, now, mask), 0);
    CleanAppend(t, probe, r.events);
  }

  lemma CellRunFailure(read: Reader, t: seq<Event>, address: nat, target: Byte, mask: Byte)
    requires address < 0x100
    ensures FailureSpec(CellRun(read, t, address, target, mask))
  {
    var now, probe := CellStep(read, t, address, target, mask);
    BitsRunFailure(read, t + probe, address, BurnBits(target, now, mask), 0);
    FailureSpecPulse(probe, BitsRun(read, t + probe, address, BurnBits(target, now, mask), 0));
  }

  // ---- the whole write ----

  /** Addresses are handled in ascending order from `address`; a failure at
      some address stops the loop there, after driving address 0. */
  predicate CellsAddressesSpec(r: Run, address: nat, size: nat)
    requires address <= size <= 0x100
  {
    (r.Completed? ==> Addresses(r.events) == Ascending(address, size)) &&
    (r.Failed? ==>
       address <= r.address < size && Addresses(r.events) == Ascending(address, r.address + 1) + [0])
  }

  lemma AscendingCons(lo: nat, hi: nat)
    requires lo < hi <= 0x100
    ensures [lo as Byte] + Ascending(lo + 1, hi) == Ascending(lo, hi)
  {
  }

  lemma CellsAddressesNext(cell: seq<Event>, r: Run, address: nat, size: nat)
    requires address < size <= 0x100
    requires Addresses(cell) == [address as Byte]
    requires CellsAddressesSpec(r, address + 1, size)
    ensures CellsAddressesSpec(Prepend(cell, r), address, size)
  {
    var r' := Prepend(cell, r);
    AddressesAppend(cell, r.events);
    assert Addresses(r'.events) == [address as Byte] + Addresses(r.events);
    if r.Completed? {
      AscendingCons(address, size);
    } else {
      AscendingConsTail(address, r.address + 1);
      assert Addresses(r'.events) == Ascending(address, r'.address + 1) + [0];
    }
  }

  lemma AscendingConsTail(lo: nat, hi: nat)
    requires lo < hi <= 0x100
    ensures [lo as Byte] + (Ascending(lo + 1, hi) + [0]) == Ascending(lo, hi) + [0]
  {
    AscendingCons(lo, hi);
  }

  lemma CellsAddressesStop(cell: Run, address: nat, size: nat)
    requires address < size <= 0x100 && cell.Failed? && cell.address == address
    requires Addresses(cell.events) == [address as Byte] + [0]
    ensures CellsAddressesSpec(cell, address, size)
  {
    assert Ascending(address, address + 1) == [address as Byte];
  }

  lemma {:induction false} CellsRunAddresses(read: Reader, t: seq<Event>, target: seq<Byte>, mask: Byte, size: nat, address: nat)
    requires address <= size <= |target| && size <= 0x100
    ensures CellsAddressesSpec(CellsRun(read, t, target, mask, size, address), address, size)
    decreases size - address
  {
    if address == size {
      assert Addresses([]) == [];
    } else {
      var cell := CellRun(read, t, address, target[address], mask);
      CellRunAddresses(read, t, address, target[address], mask);
      if cell.Failed? {
        CellRunPulses(read, t, address, target[address], mask);
        CellsAddressesStop(cell, address, size);
      } else {
        CellsRunAddresses(read, t + cell.events, target, mask, size, address + 1);
        CellsAddressesNext(cell.events, CellsRun(read, t + cell.events, target, mask, size, address + 1), address, size);
      }
    }
  }

  /** Across the whole loop, write enable is only driven with interrupts
      masked, and interrupts are enabled when it ends. */
  lemma {:induction false} CellsRunMasking(read: Reader, t: seq<Event>, target: seq<Byte>, mask: Byte, size: nat, address: nat)
    requires address <= size <= |target| && size <= 0x100 && Clean(t)
    ensures Clean(t + CellsRun(read, t, target, mask, size, address).events)
    decreases size - address
  {
    if address == size {
      assert t + [] == t;
    } else {
      var cell := CellRun(read, t, address, target[address], mask);
      CellRunMasking(read, t, address, target[address], mask);
      if !cell.Failed? {
        CellsRunMasking(read, t + cell.events, target, mask, size, address + 1);
        CleanAppend(t, cell.events, CellsRun(read, t + cell.events, target, mask, size, address + 1).events);
      }
    }
  }

  /** A failed write ends with the failing pulse, its read-back and
      address 0: no further bit, address or verify follows. */
  lemma {:induction false} CellsRunFailure(read: Reader, t: seq<Event>, target: seq<Byte>, mask: Byte, size: nat, address: nat)
    requires address <= size <= |target| && size <= 0x100
    ensures FailureSpec(CellsRun(read, t, target, mask, size, address))
    decreases size - address
  {
    if address < size {
      var cell := CellRun(read, t, address, target[address], mask);
      CellRunFailure(read, t, address, target[address], mask);
      if !cell.Failed? {
        CellsRunFailure(read, t + cell.events, target, mask, size, address + 1);
        FailureSpecPulse(cell.events, CellsRun(read, t + cell.events, target, mask, size, address + 1));
      }
    }
  }

  /** Every pulse of the whole loop is a single bit allowed by the mask. */
  lemma {:induction false} CellsRunPulseBits(read: Reader, t: seq<Event>, target: seq<Byte>, mask: Byte, size: nat, address: nat)
    requires address <= size <= |target| && size <= 0x100
    ensures BitsOf(Pulses(CellsRun(read, t, target, mask, size, address).events), mask)
    decreases size - address
  {
    if address == size {
      assert Pulses([]) == [];
    } else {
      var cell := CellRun(read, t, address, target[address], mask);
      CellRunPulseBits(read, t, address, target[address], mask);
      assert (target[address] & mask) & mask == target[address] & mask;
      BitsOfSubset(Pulses(cell.events), target[address] & mask, mask);
      if !cell.Failed? {
        var rest := CellsRun(read, t + cell.events, target, mask, size, address + 1);
        CellsRunPulseBits(read, t + cell.events, target, mask, size, address + 1);
        PulsesAppend(cell.events, rest.events);
        BitsOfAppend(Pulses(cell.events), Pulses(rest.events), mask);
      }
    }
  }

  /** prog_write as a whole (firmware/prog.c:188-229): from a clean trace,
      the burn loop and, when it completes, the verify scan that follows
      leave write enable only ever driven with interrupts masked and
      interrupts enabled at the end. */
  lemma WriteMasking(read: Reader, t: seq<Event>, target: seq<Byte>, mask: Byte, size: nat, raw: seq<Byte>)
    requires size <= |target| && size <= 0x100 && |raw| <= 0x100 && Clean(t)
    ensures var run := CellsRun(read, t, target, mask, size, 0);
      Clean(t + run.events) &&
      (run.Completed? ==> Clean(t + run.events + ScanTrace(raw) + [SetAddress(0)]))
  {
    var run := CellsRun(read, t, target, mask, size, 0);
    CellsRunMasking(read, t, target, mask, size, 0);
    ScanClean(t + run.events, raw);
  }
}
