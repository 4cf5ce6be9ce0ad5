/** The programming engine of firmware/prog.c: the chip profile, the write
    and read buffers, and the operations the console dispatches to. The
    GPIO ports are reached only through the `Bus` object, which records
    every call, so the burn loop can be stated as a trace. */
module Prog {
  import opened Types
  import opened Hardware
  import opened Traces
  import opened Burn
  import opened Driver
  import opened Text
  import Fill

  /** The K155RE3 profile (prog_select_k155re3, firmware/prog.c:45-49):
      32 cells of 8 bits. */
  const RE3Mask: Byte := 0xFF
  const RE3Size: nat := 0x20

  /** The K556RT4 profile (prog_select_k556rt4, firmware/prog.c:51-55):
      256 cells of 4 bits. */
  const RT4Mask: Byte := 0x0F
  const RT4Size: nat := 0x100

  /** The profiles the engine can be in: none selected yet (the zeroed
      statics) or one of the two chips. */
  predicate Profile(mask: Byte, size: nat) {
    (mask == 0 && size == 0) ||
    (mask == RE3Mask && size == RE3Size) ||
    (mask == RT4Mask && size == RT4Size)
  }

  /** A cell reads back as programmed: it agrees with the target on every
      bit the chip has (firmware/prog.c:160). */
  predicate Matches(got: Byte, want: Byte, mask: Byte) {
    (got ^ want) & mask == 0
  }

  /** A cell reads as unprogrammed: every bit the chip has is set
      (firmware/prog.c:178). */
  predicate Blank(got: Byte, mask: Byte) {
    got & mask == mask
  }

  /** The first index below `n` at which the read and write buffers differ
      under the mask, scanning upward from `i`. */
  function FirstMismatch(got: seq<Byte>, want: seq<Byte>, mask: Byte, i: nat, n: nat): (r: Option<nat>)
    requires i <= n <= |got| && n <= |want|
    ensures r.None? <==> forall k :: i <= k < n ==> Matches(got[k], want[k], mask)
    ensures r.Some? ==>
      i <= r.value < n && !Matches(got[r.value], want[r.value], mask) &&
      forall k :: i <= k < r.value ==> Matches(got[k], want[k], mask)
    decreases n - i
  {
    if i == n then None
    else if !Matches(got[i], want[i], mask) then Some(i)
    else FirstMismatch(got, want, mask, i + 1, n)
  }

  /** The first index below `n` whose cell does not read as blank. */
  function FirstNonBlank(got: seq<Byte>, mask: Byte, i: nat, n: nat): (r: Option<nat>)
    requires i <= n <= |got|
    ensures r.None? <==> forall k :: i <= k < n ==> Blank(got[k], mask)
    ensures r.Some? ==>
      i <= r.value < n && !Blank(got[r.value], mask) &&
      forall k :: i <= k < r.value ==> Blank(got[k], mask)
    decreases n - i
  {
    if i == n then None
    else if !Blank(got[i], mask) then Some(i)
    else FirstNonBlank(got, mask, i + 1, n)
  }

  /** What prog_verify reports for the buffers (firmware/prog.c:159-167). */
  function VerifyStatus(got: seq<Byte>, want: seq<Byte>, mask: Byte, size: nat): Status
    requires size <= |got| && size <= |want|
  {
    match FirstMismatch(got, want, mask, 0, size)
    case None => Ok
    case Some(i) => VerifyFailed(i, Keep(got[i], mask), Keep(want[i], mask))
  }

  /** What prog_empty reports for the read buffer (firmware/prog.c:177-185). */
  function EmptyStatus(got: seq<Byte>, mask: Byte, size: nat): Status
    requires size <= |got|
  {
    match FirstNonBlank(got, mask, 0, size)
    case None => Ok
    case Some(i) => NotEmpty(i, Keep(got[i], mask))
  }

  /** The first `n` cells under the mask, in address order. */
  function MaskedCells(data: seq<Byte>, mask: Byte, n: nat): seq<Byte>
    requires n <= |data|
  {
    seq(n, i requires 0 <= i < n => Keep(data[i], mask))
  }

  /** Cells that already hold masked values show the same under the mask. */
  lemma MaskedTwice(data: seq<Byte>, raw: seq<Byte>, mask: Byte, n: nat)
    requires n <= |data| && n <= |raw|
    requires forall j :: 0 <= j < n ==> data[j] == Keep(raw[j], mask)
    ensures MaskedCells(data, mask, n) == MaskedCells(raw, mask, n)
  {
    assert forall j :: 0 <= j < n ==> MaskedCells(data, mask, n)[j] == MaskedCells(raw, mask, n)[j];
  }

  /** The rows of a dump joined in order. */
  function Concat(rows: seq<seq<Byte>>): seq<Byte>
    decreases |rows|
  {
    if rows == [] then [] else rows[0] + Concat(rows[1..])
  }

  /** The cells split into rows of 16 (bytes_per_line, firmware/prog.c:69),
      the last row possibly shorter. */
  function Rows(cells: seq<Byte>): seq<seq<Byte>>
    decreases |cells|
  {
    if cells == [] then []
    else if |cells| <= 16 then [cells]
    else [cells[..16]] + Rows(cells[16..])
  }

  /** Joining the rows gives back the cells. */
  lemma {:induction false} RowsConcat(cells: seq<Byte>)
    ensures Concat(Rows(cells)) == cells
    decreases |cells|
  {
    if |cells| > 16 {
      var rows := Rows(cells);
      assert rows[0] == cells[..16] && rows[1..] == Rows(cells[16..]);
      RowsConcat(cells[16..]);
      assert cells == cells[..16] + cells[16..];
    } else if cells != [] {
      assert Rows(cells)[1..] == [];
    }
  }

  /** There are ceil(|cells| / 16) rows; every row has 16 cells except the
      last, which has between 1 and 16. */
  lemma {:induction false} RowsShape(cells: seq<Byte>)
    ensures |Rows(cells)| == (|cells| + 15) / 16
    ensures forall r :: 0 <= r < |Rows(cells)| ==> 0 < |Rows(cells)[r]| <= 16
    ensures forall r :: 0 <= r < |Rows(cells)| - 1 ==> |Rows(cells)[r]| == 16
    decreases |cells|
  {
    if |cells| > 16 {
      var rows := Rows(cells);
      var rest := Rows(cells[16..]);
      RowsShape(cells[16..]);
      assert rows == [cells[..16]] + rest;
      forall r | 1 <= r < |rows|
        ensures rows[r] == rest[r - 1]
      {
      }
    }
  }

  /** The row starting at cell `i`, and the rows after it. */
  lemma RowsFrom(cells: seq<Byte>, i: nat)
    requires i < |cells|
    ensures Rows(cells[i..]) == [cells[i..Min(i + 16, |cells|)]] + Rows(cells[Min(i + 16, |cells|)..])
  {
    var c := cells[i..];
    if |c| > 16 {
      assert c[..16] == cells[i..i + 16] && c[16..] == cells[i + 16..];
    } else {
      assert Min(i + 16, |cells|) == |cells| && cells[i..|cells|] == c;
      assert cells[|cells|..] == [];
    }
  }

  /** The cells a dump lists, joined in address order, are the first `n`
      cells, each and-ed with the mask. */
  lemma PrintedCells(data: seq<Byte>, mask: Byte, n: nat)
    requires n <= |data|
    ensures var cells := Concat(Rows(MaskedCells(data, mask, n)));
      |cells| == n && forall i :: 0 <= i < n ==> cells[i] == Keep(data[i], mask)
  {
    RowsConcat(MaskedCells(data, mask, n));
  }

  /** A masked cell is no larger than the mask. */
  lemma MaskedBelow(x: Byte, mask: Byte)
    ensures Keep(x, mask) <= mask
  {
  }

  /** The digits a dump prints for one cell (firmware/prog.c:71 and 77),
      without the space before them: " %X" when the chip has at most four
      data bits, " %02X" otherwise, of the cell and-ed with the mask. */
  function CellText(x: Byte, mask: Byte): seq<char> {
    var v := Keep(x, mask);
    if mask > 0xF then Hex2(v as nat)
    else MaskedBelow(x, mask); [HexDigit(v as nat)]
  }

  /** What a dump prints for a cell is a number strtoul(…, 16) reads back
      whole, as the masked cell: one digit for a four-bit chip, two for an
      eight-bit one. */
  lemma CellTextReadsBack(x: Byte, mask: Byte)
    ensures var s := CellText(x, mask);
      |s| == (if mask <= 0xF then 1 else 2) && AllHex(s, 0, |s|) &&
      HexEnd(s, 0) == |s| && HexValue(s, 0, |s|) == Keep(x, mask) as nat
  {
    var v := Keep(x, mask);
    var s := CellText(x, mask);
    if mask > 0xF {
      assert s == Hex2(v as nat);
      Hex2RoundTrip(v as nat);
    } else {
      MaskedBelow(x, mask);
      assert s == [HexDigit(v as nat)];
      Hex1RoundTrip(v as nat);
    }
  }

  /** The engine's state: the profile, the two 256-byte buffers and the
      bus through which it drives the chip. */
  class Programmer {
    var mask: Byte                // prog_data_mask
    var size: nat                 // prog_data_size
    const writeData: array<Byte>  // prog_write_data
    const readData: array<Byte>   // prog_read_data
    const bus: Bus

    /** The buffers are distinct and 256 bytes long, and the size fits
        them. That the mask and size form one of the three profiles is kept
        apart (`Profile`): only the constructor and the select operations
        assign them. */
    ghost predicate Valid()
      reads this
    {
      writeData.Length == 0x100 && readData.Length == 0x100 && writeData != readData &&
      size <= 0x100
    }

    /** What a scan of the chip leaves behind, from the history `t0` and the
        read buffer `before`: the bus saw the probes of cells 0 .. size-1
        in ascending order and then address 0, each cell below the size
        holds its masked sample, and the entries at or past the size are
        as they were. */
    ghost predicate ScannedFrom(t0: seq<Event>, before: seq<Byte>)
      reads this, bus, readData
      requires size <= 0x100
    {
      var raw := ScanValues(bus.read, t0, size);
      bus.trace == t0 + ScanTrace(raw) + [SetAddress(0)] &&
      |before| == readData.Length && size <= readData.Length &&
      (forall j :: 0 <= j < size ==> readData[j] == Keep(raw[j], mask)) &&
      (forall j :: size <= j < readData.Length ==> readData[j] == before[j])
    }

    /** The statics at reset: no chip selected, both buffers zero. */
    constructor (pins: Oracle)
      ensures Valid() && Profile(mask, size) && fresh(bus) && bus.read == Sample(pins) && bus.trace == []
      ensures fresh(writeData) && fresh(readData)
      ensures mask == 0 && size == 0
      ensures forall i :: 0 <= i < 0x100 ==> writeData[i] == 0 && readData[i] == 0
    {
      mask := 0;
      size := 0;
      writeData := new Byte[0x100](_ => 0);
      readData := new Byte[0x100](_ => 0);
      bus := new Bus(Sample(pins));
    }

    /** prog_clear (firmware/prog.c:64-66): every write-buffer entry becomes
        zero; nothing else changes. */
    method Clear()
      requires Valid()
      modifies writeData
      ensures Valid()
      ensures forall i :: 0 <= i < 0x100 ==> writeData[i] == 0
    {
      forall i | 0 <= i < writeData.Length {
        writeData[i] := 0;
      }
    }

    /** prog_select_k155re3 (firmware/prog.c:45-49). */
    method SelectK155RE3()
      requires Valid()
      modifies this, writeData
      ensures Valid() && Profile(mask, size)
      ensures mask == RE3Mask && size == RE3Size
      ensures forall i :: 0 <= i < 0x100 ==> writeData[i] == 0
      ensures readData[..] == old(readData[..]) && bus.trace == old(bus.trace)
    {
      mask := RE3Mask;
      size := RE3Size;
      Clear();
    }

    /** prog_select_k556rt4 (firmware/prog.c:51-55). */
    method SelectK556RT4()
      requires Valid()
      modifies this, writeData
      ensures Valid() && Profile(mask, size)
      ensures mask == RT4Mask && size == RT4Size
      ensures forall i :: 0 <= i < 0x100 ==> writeData[i] == 0
      ensures readData[..] == old(readData[..]) && bus.trace == old(bus.trace)
    {
      mask := RT4Mask;
      size := RT4Size;
      Clear();
    }

    /** The inner loop of prog_print_internal (firmware/prog.c:76-77): the
        line starting at cell `i` holds the masked cells from `i` up to 16
        of them, or to the size. */
    method PrintLine(data: array<Byte>, i: nat) returns (row: seq<Byte>)
      requires data.Length == 0x100 && i < size <= 0x100
      ensures row == MaskedCells(data[..], mask, size)[i..Min(i + 16, size)]
    {
      ghost var cells := MaskedCells(data[..], mask, size);
      assert |cells| == size;
      row := [];
      var j := 0;
      while j < 16 && i + j < size
        invariant j <= 16 && i + j <= size && row == cells[i..i + j]
      {
        assert cells[i..i + j + 1] == row + [cells[i + j]];
        row := row + [Keep(data[i + j], mask)];
        j := j + 1;
      }
    }

    /** prog_print_internal (firmware/prog.c:68-80) without the text layout:
        the rows of masked cells it prints, 16 per line. */
    method PrintInternal(data: array<Byte>) returns (rows: seq<seq<Byte>>)
      requires data.Length == 0x100 && size <= 0x100
      ensures rows == Rows(MaskedCells(data[..], mask, size))
    {
      ghost var cells := MaskedCells(data[..], mask, size);
      assert |cells| == size;
      rows := [];
      var i := 0;
      while i < size
        invariant rows + Rows(cells[Min(i, size)..]) == Rows(cells)
        decreases size - i
      {
        var row := PrintLine(data, i);
        RowsFrom(cells, i);
        assert rows + [row] + Rows(cells[Min(i + 16, size)..]) == rows + Rows(cells[i..]);
        rows := rows + [row];
        i := i + 16;
      }
      assert cells[size..] == [];
    }

    /** prog_print (firmware/prog.c:82-87). */
    method Print() returns (status: Status, rows: seq<seq<Byte>>)
      requires Valid()
      ensures size == 0 ==> status == NoChip && rows == []
      ensures size > 0 ==> status == Ok && rows == Rows(MaskedCells(writeData[..], mask, size))
    {
      if size == 0 {
        return NoChip, [];
      }
      rows := PrintInternal(writeData);
      status := Ok;
    }

    /** prog_enter (firmware/prog.c:89-131) on the text after the command
        line's leading spaces: the outcome and the write buffer are those of
        the fill functions. */
    method Enter(text: seq<char>) returns (handled: bool, status: Status)
      requires Valid()
      modifies writeData
      ensures Valid()
      ensures var e := Fill.Enter(text, size, old(writeData[..]));
        handled == e.handled && status == e.status && writeData[..] == e.data
    {
      var end := HexEnd(text, 0);
      if end == 0 || end == |text| || text[end] != ':' {
        return false, Ok;
      }
      if size == 0 {
        return true, NoChip;
      }
      var addr := HexValue(text, 0, end);
      if addr >= size {
        return true, TooBigAddress;
      }
      status := FillLoop(text, end + 1, addr);
      handled := true;
    }

    /** The fill loop of prog_enter (firmware/prog.c:104-130) from text
        position `p` and address `addr`. */
    method FillLoop(text: seq<char>, p: nat, addr: nat) returns (status: Status)
      requires p <= |text| && addr <= size <= writeData.Length
      modifies writeData
      ensures (status, writeData[..]) == Fill.FillFrom(text, p, addr, size, old(writeData[..]))
    {
      var q: nat, a: nat := p, addr;
      while true
        invariant q <= |text| && a <= size <= writeData.Length
        invariant Fill.FillFrom(text, q, a, size, writeData[..]) == Fill.FillFrom(text, p, addr, size, old(writeData[..]))
        decreases |text| - q
      {
        ghost var q0 := q;
        while q < |text| && text[q] == ' '
          invariant q0 <= q <= |text| && SkipSpaces(text, q) == SkipSpaces(text, q0)
        {
          q := q + 1;
        }
        if q == |text| {
          return Ok;
        }
        var e := HexEnd(text, q);
        if e == q {
          return IncorrectNumber;
        }
        var b := HexValue(text, q, e);
        q := e;
        if b > 0xFF {
          return IncorrectNumber;
        }
        if a >= size {
          return TooBigAddress;
        }
        writeData[a] := b as Byte;
        a := a + 1;
      }
    }

    /** One iteration of prog_read_internal's loop (firmware/prog.c:135-139):
        the scan grows by the cell read at the next address. */
    method ReadCell(i: nat, ghost t0: seq<Event>, ghost raw: seq<Byte>) returns (v: Byte)
      requires i == |raw| && i < size && i < readData.Length && readData.Length <= 0x100
      requires raw == ScanValues(bus.read, t0, i) && bus.trace == t0 + ScanTrace(raw)
      modifies bus, readData
      ensures ScanValues(bus.read, t0, i + 1) == raw + [v] && bus.trace == t0 + ScanTrace(raw + [v])
      ensures readData[i] == Keep(v, mask)
      ensures forall j :: 0 <= j < readData.Length && j != i ==> readData[j] == old(readData[j])
    {
      v := ProbeCell(bus, i);
      readData[i] := Keep(v, mask);
      ScanStep(bus.read, t0, raw, v);
    }

    /** prog_read_internal (firmware/prog.c:133-141): for each address below
        the size in ascending order, probe it and store the masked sample;
        then drive address 0. Entries at or past the size are untouched. */
    method ReadInternal()
      requires Valid()
      modifies bus, readData
      ensures Valid() && ScannedFrom(old(bus.trace), old(readData[..]))
    {
      ghost var t0 := bus.trace;
      ghost var before := readData[..];
      ghost var raw: seq<Byte> := [];
      var i := 0;
      while i < size
        invariant i <= size && |raw| == i
        invariant raw == ScanValues(bus.read, t0, i) && bus.trace == t0 + ScanTrace(raw)
        invariant forall j :: 0 <= j < i ==> readData[j] == Keep(raw[j], mask)
        invariant forall j :: i <= j < 0x100 ==> readData[j] == before[j]
      {
        var v := ReadCell(i, t0, raw);
        raw := raw + [v];
        i := i + 1;
      }
      bus.SetAddress(0);
    }

    /** prog_read (firmware/prog.c:143-150): scan the chip and list the
        masked cells read. */
    method Read() returns (status: Status, rows: seq<seq<Byte>>)
      requires Valid()
      modifies bus, readData
      ensures Valid()
      ensures size == 0 ==> status == NoChip && rows == [] && bus.trace == old(bus.trace) && readData[..] == old(readData[..])
      ensures size > 0 ==>
        status == Ok && ScannedFrom(old(bus.trace), old(readData[..])) &&
        rows == Rows(MaskedCells(ScanValues(bus.read, old(bus.trace), size), mask, size))
    {
      if size == 0 {
        return NoChip, [];
      }
      ReadInternal();
      rows := PrintInternal(readData);
      status := Ok;
      MaskedTwice(readData[..], ScanValues(bus.read, old(bus.trace), size), mask, size);
    }

    /** The comparison loop of prog_verify (firmware/prog.c:158-163): the
        first cell that does not read as programmed. */
    method FindMismatch() returns (r: Option<nat>)
      requires Valid()
      ensures r == FirstMismatch(readData[..], writeData[..], mask, 0, size)
    {
      var i := 0;
      while i < size
        invariant i <= size
        invariant FirstMismatch(readData[..], writeData[..], mask, 0, size) == FirstMismatch(readData[..], writeData[..], mask, i, size)
      {
        if (readData[i] ^ writeData[i]) & mask != 0 {
          return Some(i);
        }
        i := i + 1;
      }
      return None;
    }

    /** The comparison loop of prog_empty (firmware/prog.c:176-182): the
        first cell that does not read as blank. */
    method FindNonBlank() returns (r: Option<nat>)
      requires Valid()
      ensures r == FirstNonBlank(readData[..], mask, 0, size)
    {
      var i := 0;
      while i < size
        invariant i <= size
        invariant FirstNonBlank(readData[..], mask, 0, size) == FirstNonBlank(readData[..], mask, i, size)
      {
        if readData[i] & mask != mask {
          return Some(i);
        }
        i := i + 1;
      }
      return None;
    }

    /** prog_verify (firmware/prog.c:152-168): scan the chip, then report
        the first cell that does not read as programmed, or success. */
    method Verify() returns (status: Status)
      requires Valid()
      modifies bus, readData
      ensures Valid()
      ensures size == 0 ==> status == NoChip && bus.trace == old(bus.trace) && readData[..] == old(readData[..])
      ensures size > 0 ==>
        ScannedFrom(old(bus.trace), old(readData[..])) &&
        status == VerifyStatus(readData[..], writeData[..], mask, size)
    {
      if size == 0 {
        return NoChip;
      }
      ReadInternal();
      var m := FindMismatch();
      if m.Some? {
        status := VerifyFailed(m.value, Keep(readData[m.value], mask), Keep(writeData[m.value], mask));
      } else {
        status := Ok;
      }
    }

    /** prog_empty (firmware/prog.c:170-186): scan the chip, then report the
        first cell that does not read as blank, or success. */
    method Empty() returns (status: Status)
      requires Valid()
      modifies bus, readData
      ensures Valid()
      ensures size == 0 ==> status == NoChip && bus.trace == old(bus.trace) && readData[..] == old(readData[..])
      ensures size > 0 ==>
        ScannedFrom(old(bus.trace), old(readData[..])) &&
        status == EmptyStatus(readData[..], mask, size)
    {
      if size == 0 {
        return NoChip;
      }
      ReadInternal();
      var m := FindNonBlank();
      if m.Some? {
        status := NotEmpty(m.value, Keep(readData[m.value], mask));
      } else {
        status := Ok;
      }
    }

    /** One iteration of the outer loop of prog_write (firmware/prog.c:194-226):
        probe the cell, then burn what the target wants and the chip lacks. */
    method BurnAt(address: nat) returns (failed: Option<nat>, ghost events: seq<Event>)
      requires Valid() && address < size
      modifies bus
      ensures bus.trace == old(bus.trace) + events
      ensures var r := CellRun(bus.read, old(bus.trace), address, writeData[address], mask);
        events == r.events && (failed.None? <==> r.Completed?) && (failed.Some? ==> failed.value == r.bit)
    {
      var target := writeData[address];
      ghost var now', probe := CellStep(bus.read, bus.trace, address, target, mask);
      var now := ProbeCell(bus, address);
      var burn := target & !now & mask;
      ghost var bits;
      failed, bits := BurnCell(bus, address, burn);
      events := Probe(address, now) + bits;
      AppendAssoc(old(bus.trace), Probe(address, now), bits);
    }

    /** The outer loop of prog_write (firmware/prog.c:193-227): the bus sees
        exactly the burn run the chip's answers determine, and a failure
        returns the address and bit it stopped at. */
    method BurnAll() returns (failed: Option<(nat, nat)>)
      requires Valid()
      modifies bus
      ensures Valid()
      ensures var run := CellsRun(bus.read, old(bus.trace), writeData[..], mask, size, 0);
        bus.trace == old(bus.trace) + run.events &&
        (failed.None? <==> run.Completed?) && (failed.Some? ==> failed.value == (run.address, run.bit))
    {
      ghost var read := bus.read;
      ghost var t0 := bus.trace;
      ghost var run := CellsRun(read, t0, writeData[..], mask, size, 0);
      ghost var done: seq<Event> := [];
      var address := 0;
      while address < size
        invariant address <= size && bus.trace == t0 + done
        invariant run == Prepend(done, CellsRun(read, bus.trace, writeData[..], mask, size, address))
      {
        ghost var t := bus.trace;
        var f, events := BurnAt(address);
        assert t0 + done + events == t0 + (done + events);
        if f.Some? {
          CellRunPulses(read, t, address, writeData[address], mask);
          return Some((address, f.value));
        }
        PrependPrepend(done, events, CellsRun(read, bus.trace, writeData[..], mask, size, address + 1));
        done := done + events;
        address := address + 1;
      }
      assert done + [] == done;
      failed := None;
    }

    /** prog_write (firmware/prog.c:188-230): the bus sees exactly the burn
        run the chip's answers determine; a failed bit stops everything
        with address 0 driven and no verify, and only a completed run goes
        on to verify. */
    method Write() returns (status: Status)
      requires Valid()
      modifies bus, readData
      ensures Valid()
      ensures size == 0 ==> status == NoChip && bus.trace == old(bus.trace) && readData[..] == old(readData[..])
      ensures size > 0 ==>
        var run := CellsRun(bus.read, old(bus.trace), writeData[..], mask, size, 0);
        (run.Failed? ==>
           status == BurnFailed(run.address, run.bit) &&
           bus.trace == old(bus.trace) + run.events && readData[..] == old(readData[..])) &&
        (run.Completed? ==>
           ScannedFrom(old(bus.trace) + run.events, old(readData[..])) &&
           status == VerifyStatus(readData[..], writeData[..], mask, size))
    {
      if size == 0 {
        return NoChip;
      }
      var failed := BurnAll();
      if failed.Some? {
        return BurnFailed(failed.value.0, failed.value.1);
      }
      status := Verify();
    }
  }

  /** A session from reset: selecting the K155RE3 and entering
      "05: AA ZZ" stores 0xAA at address 5, reports the bad token, and
      leaves every other cell of the write buffer zero. */
  method ExampleSession(pins: Oracle) returns (status: Status, data: seq<Byte>)
    ensures status == IncorrectNumber && |data| == 0x100
    ensures data[5] == 0xAA && forall i :: 0 <= i < 0x100 && i != 5 ==> data[i] == 0
  {
    var prog := new Programmer(pins);
    prog.SelectK155RE3();
    Fill.ExampleBadToken(prog.writeData[..]);
    var handled;
    handled, status := prog.Enter("05: AA ZZ");
    data := prog.writeData[..];
  }
}
