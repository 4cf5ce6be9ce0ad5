/** The command parser of firmware/console.c: the command table, the name
    matcher parse_name and the dispatch rule of parse_command, which hands
    a line to the programming engine. */
module Console {
  import opened Types
  import opened Text
  import opened Prog
  import Fill
  import Traces
  import Burn

  /** The programmer operations a command row can name. */
  datatype Handler =
    | SelectRE3   // prog_select_k155re3
    | SelectRT4   // prog_select_k556rt4
    | ClearData   // prog_clear
    | PrintData   // prog_print
    | ReadChip    // prog_read
    | VerifyChip  // prog_verify
    | EmptyCheck  // prog_empty
    | WriteChip   // prog_write

  /** One row of the command table (struct command, firmware/console.c:25-30).
      A row without a handler only documents the entry line in the help. */
  datatype Command = Command(name: seq<char>, handler: Option<Handler>, empty: bool, help: seq<char>)

  /** The command table (firmware/console.c:34-45), in order, without the
      NULL sentinel row. */
  const Commands: seq<Command> := [
    Command("ADDR: BYTE BYTE BYTE...", None, false, "Enter data for write or verify"),
    Command("re3", Some(SelectRE3), true, "Select K155RE3 chip"),
    Command("rt4", Some(SelectRT4), true, "Select K556RT4 chip"),
    Command("clear", Some(ClearData), true, "Clear data (fill 0FFh)"),
    Command("print", Some(PrintData), true, "Print data"),
    Command("read", Some(ReadChip), true, "Read data form K556PT4"),
    Command("verify", Some(VerifyChip), true, "Read data from chip"),
    Command("empty", Some(EmptyCheck), true, "Check chip empty"),
    Command("write", Some(WriteChip), true, "Write data to chip")
  ]

  /** parse_name (firmware/console.c:95-103): when `name` starts the text
      at `p` and is followed by the end or a space, the position after the
      name and the spaces behind it. */
  function ParseName(s: seq<char>, p: nat, name: seq<char>): (r: Option<nat>)
    requires p <= |s|
    ensures r.Some? <==>
      p + |name| <= |s| && s[p..p + |name|] == name && (p + |name| == |s| || s[p + |name|] == ' ')
    ensures r.Some? ==>
      p + |name| <= r.value <= |s| && (r.value == |s| || s[r.value] != ' ') &&
      forall k :: p + |name| <= k < r.value ==> s[k] == ' '
  {
    var e := p + |name|;
    if e <= |s| && s[p..e] == name && (e == |s| || s[e] == ' ') then Some(SkipSpaces(s, e)) else None
  }

  /** A word followed by spaces and then a non-space matches its own name
      only when at least one space separates them, and the match lands on
      what follows the spaces. */
  lemma ParseNameWord(name: seq<char>, spaces: nat, rest: seq<char>)
    requires rest == [] || rest[0] != ' '
    ensures var s := name + seq(spaces, _ => ' ') + rest;
      ParseName(s, 0, name) == if spaces > 0 || rest == [] then Some(|name| + spaces) else None
  {
    var s := name + seq(spaces, _ => ' ') + rest;
    var e := |name| + spaces;
    assert s[..|name|] == name;
    assert forall m :: |name| <= m < e ==> s[m] == ' ';
    SkipSpacesLeading(s, |name|, e);
    if e < |s| {
      assert s[e] == rest[0];
    }
  }

  /** Row `k` has a handler and its name matches at `p`. */
  predicate RowMatches(line: seq<char>, p: nat, k: nat)
    requires p <= |line| && k < |Commands|
  {
    Commands[k].handler.Some? && ParseName(line, p, Commands[k].name).Some?
  }

  /** The first row from `k` on that matches at `p` (the table loop of
      parse_command, firmware/console.c:114-126), and the position after
      its name. */
  function FirstMatch(line: seq<char>, p: nat, k: nat): (r: Option<(nat, nat)>)
    requires p <= |line| && k <= |Commands|
    ensures r.None? <==> forall j :: k <= j < |Commands| ==> !RowMatches(line, p, j)
    ensures r.Some? ==>
      k <= r.value.0 < |Commands| && RowMatches(line, p, r.value.0) &&
      ParseName(line, p, Commands[r.value.0].name) == Some(r.value.1) &&
      forall j :: k <= j < r.value.0 ==> !RowMatches(line, p, j)
    decreases |Commands| - k
  {
    if k == |Commands| then None
    else if RowMatches(line, p, k) then Some((k, ParseName(line, p, Commands[k].name).value))
    else FirstMatch(line, p, k + 1)
  }

  /** What parse_command decides to do with a line. */
  datatype Action =
    | Blank                         // nothing but spaces: do nothing
    | Extra(row: nat)               // "Extra characters at the end"
    | Run(row: nat, handler: Handler)
    | TryEnter(p: nat)              // hand the line from `p` to prog_enter

  /** parse_command's decision (firmware/console.c:105-130): skip the
      leading spaces; a blank line does nothing; the first row whose name
      matches runs its handler, unless the row takes no arguments and more
      text follows; a line no row matches goes to prog_enter. */
  function Dispatch(line: seq<char>): (r: Action)
    ensures var p := SkipSpaces(line, 0);
      (r.Blank? <==> p == |line|) &&
      (r.TryEnter? <==> p < |line| && forall j :: 0 <= j < |Commands| ==> !RowMatches(line, p, j)) &&
      (r.TryEnter? ==> r.p == p) &&
      (r.Run? ==>
         r.row < |Commands| && RowMatches(line, p, r.row) && Commands[r.row].handler == Some(r.handler) &&
         (Commands[r.row].empty ==> ParseName(line, p, Commands[r.row].name) == Some(|line|)) &&
         forall j :: 0 <= j < r.row ==> !RowMatches(line, p, j)) &&
      (r.Extra? ==>
         r.row < |Commands| && RowMatches(line, p, r.row) && Commands[r.row].empty &&
         ParseName(line, p, Commands[r.row].name).value < |line| &&
         forall j :: 0 <= j < r.row ==> !RowMatches(line, p, j))
  {
    var p := SkipSpaces(line, 0);
    if p == |line| then Blank
    else match FirstMatch(line, p, 0)
      case None => TryEnter(p)
      case Some((k, rest)) =>
        if Commands[k].empty && rest != |line| then Extra(k)
        else Run(k, Commands[k].handler.value)
  }

  /** No name of a row with a handler contains a space (the header row's
      does), and those names are pairwise different. */
  lemma TableNames()
    ensures forall k, i :: 0 < k < |Commands| && 0 <= i < |Commands[k].name| ==> Commands[k].name[i] != ' '
    ensures forall j, k :: 0 < j < k < |Commands| ==> Commands[j].name != Commands[k].name
  {
    forall j, k | 0 < j < k < |Commands|
      ensures Commands[j].name != Commands[k].name
    {
      var a, b := Commands[j].name, Commands[k].name;
      assert |a| != |b| || a[0] != b[0] || a[1] != b[1] || a[2] != b[2];
    }
  }

  /** At most one row matches a line, so the order of the table never
      decides which command runs. */
  lemma MatchUnique(line: seq<char>, p: nat, j: nat, k: nat)
    requires p <= |line| && j < |Commands| && k < |Commands|
    ensures RowMatches(line, p, j) && RowMatches(line, p, k) ==> j == k
  {
    if j != k && RowMatches(line, p, j) && Commands[k].handler.Some? {
      TableNames();
      var a, b := Commands[j].name, Commands[k].name;
      assert line[p..p + |a|] == a;
      if |a| < |b| {
        Mismatch(line, p, b, |a|);
      } else if |b| < |a| {
        assert line[p + |b|] == a[|b|];
      } else {
        assert line[p..p + |b|] != b;
      }
    }
  }

  /** A name the hex header of an entry line can never start with: its
      first character is not a hex digit, or its second is neither a hex
      digit nor ':'. */
  predicate NotHeader(name: seq<char>) {
    |name| >= 2 && (!IsHexDigit(name[0]) || (!IsHexDigit(name[1]) && name[1] != ':'))
  }

  lemma TableNotHeaders()
    ensures forall k :: 0 < k < |Commands| ==> NotHeader(Commands[k].name)
  {
  }

  /** The text of an entry line does not start with such a name. */
  lemma HeaderRefusesName(s: seq<char>, j: nat, name: seq<char>)
    requires NotHeader(name) && 0 < j < |s| && s[j] == ':' && AllHex(s, 0, j)
    ensures |name| > |s| || s[..|name|] != name
  {
    if |name| <= |s| {
      if !IsHexDigit(name[0]) {
        assert IsHexDigit(s[0]) && s[..|name|][0] == s[0];
      } else {
        assert s[..|name|][1] == s[1];
        if j == 1 {
          assert s[1] == ':';
        } else {
          assert IsHexDigit(s[1]);
        }
      }
    }
  }

  /** An entry line (hex digits, then ':') never matches a command, so it
      always reaches prog_enter. */
  lemma EntryLinesReachEnter(line: seq<char>)
    requires var p := SkipSpaces(line, 0); Fill.Header(line[p..]).Some?
    ensures Dispatch(line) == TryEnter(SkipSpaces(line, 0))
  {
    var p := SkipSpaces(line, 0);
    var s := line[p..];
    Fill.HeaderMeaning(s);
    var j :| 0 < j < |s| && s[j] == ':' && AllHex(s, 0, j);
    TableNotHeaders();
    forall k | 0 < k < |Commands|
      ensures !RowMatches(line, p, k)
    {
      var name := Commands[k].name;
      HeaderRefusesName(s, j, name);
      if p + |name| <= |line| {
        assert line[p..p + |name|] == s[..|name|];
      }
    }
  }

  /** A name that differs from the text at one of its positions does not
      match there. */
  lemma Mismatch(s: seq<char>, p: nat, name: seq<char>, i: nat)
    requires p <= |s| && i < |name| && (p + i >= |s| || s[p + i] != name[i])
    ensures ParseName(s, p, name).None?
  {
    if p + |name| <= |s| {
      assert s[p..p + |name|][i] == s[p + i];
    }
  }

  /** A word with "ea" in its second and third letters matches neither
      select command, and the header row has no handler. */
  lemma SkipSelects(s: seq<char>, p: nat)
    requires p + 2 < |s| && s[p + 1] == 'e' && s[p + 2] == 'a'
    ensures FirstMatch(s, p, 0) == FirstMatch(s, p, 3)
  {
    Mismatch(s, p, "re3", 2);
    Mismatch(s, p, "rt4", 1);
  }

  /** A word starting with 'r' matches neither clear nor print. */
  lemma SkipClearPrint(s: seq<char>, p: nat)
    requires p < |s| && s[p] == 'r'
    ensures FirstMatch(s, p, 3) == FirstMatch(s, p, 5)
  {
    Mismatch(s, p, "clear", 0);
    Mismatch(s, p, "print", 0);
  }

  /** A line with "read" at `p`, followed by its end or a space, matches
      the read row and no row before it. */
  lemma ReadFirst(s: seq<char>, p: nat)
    requires p + 4 <= |s| && s[p..p + 4] == "read" && (p + 4 == |s| || s[p + 4] == ' ')
    ensures FirstMatch(s, p, 0) == Some((5, SkipSpaces(s, p + 4)))
  {
    assert s[p] == 'r' && s[p + 1] == 'e' && s[p + 2] == 'a' by {
      assert s[p..p + 4][0] == s[p] && s[p..p + 4][1] == s[p + 1] && s[p..p + 4][2] == s[p + 2];
    }
    SkipSelects(s, p);
    SkipClearPrint(s, p);
    assert ParseName(s, p, Commands[5].name) == Some(SkipSpaces(s, p + 4));
  }

  /** "  read" runs prog_read. */
  lemma ExampleRun()
    ensures Dispatch("  read") == Run(5, ReadChip)
  {
    var s := "  read";
    assert SkipSpaces(s, 0) == 2;
    assert s[2..6] == "read";
    ReadFirst(s, 2);
  }

  /** "read x" is refused for extra characters. */
  lemma ExampleExtra()
    ensures Dispatch("read x") == Extra(5)
  {
    var t := "read x";
    assert SkipSpaces(t, 0) == 0;
    assert t[0..4] == "read";
    ReadFirst(t, 0);
    assert SkipSpaces(t, 4) == 5;
  }

  /** The table loop of parse_command (firmware/console.c:114-126): rows
      are tried in order, rows without a handler are skipped, and the loop
      stops at the first name that matches. */
  method FindCommand(line: seq<char>, p: nat) returns (r: Option<(nat, nat)>)
    requires p <= |line|
    ensures r == FirstMatch(line, p, 0)
  {
    var k := 0;
    while k < |Commands|
      invariant k <= |Commands| && FirstMatch(line, p, k) == FirstMatch(line, p, 0)
    {
      var row := Commands[k];
      if row.handler.Some? {
        var p1 := ParseName(line, p, row.name);
        if p1.Some? {
          return Some((k, p1.value));
        }
      }
      k := k + 1;
    }
    return None;
  }

  /** What a line leads to: nothing, the extra-characters error, a handler
      run with its outcome, the outcome of an entry line, or the
      "Unknown command" error with the help list. */
  datatype Reply =
    | Silent
    | ExtraCharacters
    | Ran(handler: Handler, status: Status, rows: seq<seq<Byte>>)
    | Entered(status: Status)
    | UnknownCommand

  /** Whether a cell buffer holds only zeros. */
  ghost predicate Zeroed(data: array<Byte>)
    reads data
  {
    forall i :: 0 <= i < data.Length ==> data[i] == 0
  }

  /** The read buffer and the bus are as they were. */
  twostate predicate ChipUntouched(prog: Programmer)
    reads prog, prog.readData, prog.bus
  {
    prog.readData[..] == old(prog.readData[..]) && prog.bus.trace == old(prog.bus.trace)
  }

  /** The profile and the write buffer are as they were. */
  twostate predicate SettingsKept(prog: Programmer)
    reads prog, prog.writeData
  {
    prog.mask == old(prog.mask) && prog.size == old(prog.size) && prog.writeData[..] == old(prog.writeData[..])
  }

  /** What running handler `h` does to the engine, with the status and
      rows it reports. The select commands set the profile and clear the
      write buffer; clear zeroes the write buffer; print lists the masked
      write buffer. Read, verify, empty and write keep the profile and the
      write buffer; with no chip selected they report "Chip not selected"
      and touch nothing. Otherwise read scans the chip and lists what it
      read, verify and empty scan it and report the first cell that is
      not programmed or not blank, and write burns the cells and, when no
      bit failed, scans and verifies. */
  twostate predicate HandlerEffect(prog: Programmer, h: Handler, status: Status, rows: seq<seq<Byte>>)
    reads prog, prog.writeData, prog.readData, prog.bus
  {
    prog.Valid() &&
    match h
    case SelectRE3 =>
      status == Ok && rows == [] && ChipUntouched(prog) &&
      prog.mask == RE3Mask && prog.size == RE3Size && Zeroed(prog.writeData)
    case SelectRT4 =>
      status == Ok && rows == [] && ChipUntouched(prog) &&
      prog.mask == RT4Mask && prog.size == RT4Size && Zeroed(prog.writeData)
    case ClearData =>
      status == Ok && rows == [] && ChipUntouched(prog) &&
      prog.mask == old(prog.mask) && prog.size == old(prog.size) && Zeroed(prog.writeData)
    case PrintData =>
      SettingsKept(prog) && ChipUntouched(prog) &&
      if prog.size == 0 then status == NoChip && rows == []
      else status == Ok && rows == Rows(MaskedCells(prog.writeData[..], prog.mask, prog.size))
    case _ =>
      SettingsKept(prog) &&
      if prog.size == 0 then status == NoChip && rows == [] && ChipUntouched(prog)
      else ChipEffect(prog, h, status, rows)
  }

  /** The effect of read, verify, empty and write with a chip selected. */
  twostate predicate ChipEffect(prog: Programmer, h: Handler, status: Status, rows: seq<seq<Byte>>)
    reads prog, prog.writeData, prog.readData, prog.bus
    requires prog.Valid()
  {
    var t0 := old(prog.bus.trace);
    var before := old(prog.readData[..]);
    match h
    case ReadChip =>
      status == Ok && prog.ScannedFrom(t0, before) &&
      rows == Rows(MaskedCells(Traces.ScanValues(prog.bus.read, t0, prog.size), prog.mask, prog.size))
    case VerifyChip =>
      rows == [] && prog.ScannedFrom(t0, before) &&
      status == VerifyStatus(prog.readData[..], prog.writeData[..], prog.mask, prog.size)
    case EmptyCheck =>
      rows == [] && prog.ScannedFrom(t0, before) &&
      status == EmptyStatus(prog.readData[..], prog.mask, prog.size)
    case WriteChip =>
      var run := Burn.CellsRun(prog.bus.read, t0, prog.writeData[..], prog.mask, prog.size, 0);
      rows == [] &&
      (run.Failed? ==>
         status == BurnFailed(run.address, run.bit) &&
         prog.bus.trace == t0 + run.events && prog.readData[..] == before) &&
      (run.Completed? ==>
         prog.ScannedFrom(t0 + run.events, before) &&
         status == VerifyStatus(prog.readData[..], prog.writeData[..], prog.mask, prog.size))
    case _ => false
  }

  /** The handlers that work on the buffers only. */
  method InvokeLocal(prog: Programmer, h: Handler) returns (status: Status, rows: seq<seq<Byte>>)
    requires prog.Valid() && (h.SelectRE3? || h.SelectRT4? || h.ClearData? || h.PrintData?)
    modifies prog, prog.writeData
    ensures HandlerEffect(prog, h, status, rows)
  {
    rows := [];
    match h
    case SelectRE3 =>
      prog.SelectK155RE3();
      status := Ok;
    case SelectRT4 =>
      prog.SelectK556RT4();
      status := Ok;
    case ClearData =>
      prog.Clear();
      status := Ok;
    case PrintData =>
      status, rows := prog.Print();
  }

  /** The handlers that drive the chip. */
  method InvokeChip(prog: Programmer, h: Handler) returns (status: Status, rows: seq<seq<Byte>>)
    requires prog.Valid() && (h.ReadChip? || h.VerifyChip? || h.EmptyCheck? || h.WriteChip?)
    modifies prog.readData, prog.bus
    ensures HandlerEffect(prog, h, status, rows)
  {
    rows := [];
    match h
    case ReadChip =>
      status, rows := prog.Read();
    case VerifyChip =>
      status := prog.Verify();
    case EmptyCheck =>
      status := prog.Empty();
    case WriteChip =>
      status := prog.Write();
  }

  /** Calls one handler (`i->function(p1)`, firmware/console.c:122). */
  method Invoke(prog: Programmer, h: Handler) returns (status: Status, rows: seq<seq<Byte>>)
    requires prog.Valid()
    modifies prog, prog.writeData, prog.readData, prog.bus
    ensures HandlerEffect(prog, h, status, rows)
  {
    if h.SelectRE3? || h.SelectRT4? || h.ClearData? || h.PrintData? {
      status, rows := InvokeLocal(prog, h);
    } else {
      status, rows := InvokeChip(prog, h);
    }
  }

  /** parse_command (firmware/console.c:105-145) on one input line: the
      reply and the engine state follow the decision `Dispatch`. Nothing
      changes on a blank line, on extra characters or on an unknown
      command; an entry line changes only the write buffer, as prog_enter
      does. */
  method ParseCommand(prog: Programmer, line: seq<char>) returns (reply: Reply)
    requires prog.Valid()
    modifies prog, prog.writeData, prog.readData, prog.bus
    ensures prog.Valid()
    ensures Dispatch(line).Blank? ==> reply == Silent
    ensures Dispatch(line).Extra? ==> reply == ExtraCharacters
    ensures Dispatch(line).Run? ==>
      reply.Ran? && reply.handler == Dispatch(line).handler && HandlerEffect(prog, reply.handler, reply.status, reply.rows)
    ensures Dispatch(line).TryEnter? ==>
      var e := Fill.Enter(line[Dispatch(line).p..], old(prog.size), old(prog.writeData[..]));
      prog.writeData[..] == e.data && reply == (if e.handled then Entered(e.status) else UnknownCommand)
    ensures !Dispatch(line).Run? ==>
      prog.mask == old(prog.mask) && prog.size == old(prog.size) &&
      prog.readData[..] == old(prog.readData[..]) && prog.bus.trace == old(prog.bus.trace)
    ensures Dispatch(line).Blank? || Dispatch(line).Extra? ==> prog.writeData[..] == old(prog.writeData[..])
  {
    var p := SkipSpaces(line, 0);
    if p == |line| {
      return Silent;
    }
    var found := FindCommand(line, p);
    if found.Some? {
      var (k, p1) := found.value;
      var row := Commands[k];
      if row.empty && p1 != |line| {
        return ExtraCharacters;
      }
      var status, rows := Invoke(prog, row.handler.value);
      return Ran(row.handler.value, status, rows);
    }
    var handled, status := prog.Enter(line[p..]);
    if handled {
      return Entered(status);
    }
    return UnknownCommand;
  }
}
