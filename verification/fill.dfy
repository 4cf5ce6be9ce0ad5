/** What prog_enter (firmware/prog.c:89-131) does to the write buffer, as
    functions of the text: the `ADDR:` header, the byte tokens that follow,
    and the closed form of the fill loop with its three ways to stop. */
module Fill {
  import opened Types
  import opened Text

  /** strtoul at the start of the text followed immediately by ':'
      (firmware/prog.c:91-93): the address and the position after the colon. */
  function Header(s: seq<char>): Option<(nat, nat)> {
    var j := HexEnd(s, 0);
    if j == 0 || j == |s| || s[j] != ':' then None else Some((HexValue(s, 0, j), j + 1))
  }

  /** The end of a run of digits is where HexEnd stops. */
  lemma {:induction false} HexEndAt(s: seq<char>, i: nat, j: nat)
    requires i <= j <= |s| && AllHex(s, i, j)
    requires j == |s| || !IsHexDigit(s[j])
    ensures HexEnd(s, i) == j
    decreases j - i
  {
    if i < j {
      HexEndAt(s, i + 1, j);
    }
  }

  /** A text is an entry line exactly when it starts with one or more hex
      digits immediately followed by ':', and the address is their value. */
  lemma HeaderMeaning(s: seq<char>)
    ensures Header(s).Some? <==> exists j :: 0 < j < |s| && s[j] == ':' && AllHex(s, 0, j)
    ensures forall j :: 0 < j < |s| && s[j] == ':' && AllHex(s, 0, j) ==>
      Header(s) == Some((HexValue(s, 0, j), j + 1))
  {
    forall j | 0 < j < |s| && s[j] == ':' && AllHex(s, 0, j)
      ensures Header(s) == Some((HexValue(s, 0, j), j + 1))
    {
      HexEndAt(s, 0, j);
    }
    if Header(s).Some? {
      var j := HexEnd(s, 0);
      assert 0 < j < |s| && s[j] == ':' && AllHex(s, 0, j);
    }
  }

  /** A token of at most two hex digits never exceeds 0xFF, so only a
      longer one can fail the range test of prog_enter's loop. */
  lemma ShortTokensFit(s: seq<char>, q: nat, e: nat)
    requires q <= e <= |s| && e - q <= 2 && AllHex(s, q, e)
    ensures HexValue(s, q, e) <= 0xFF
  {
    HexValueBound(s, q, e);
    assert Pow16(e - q) <= Pow16(2) by {
      assert Pow16(0) == 1 && Pow16(1) == 16 && Pow16(2) == 256;
    }
  }

  /** The values of the byte tokens from position `p` on, up to the first
      token that is not a hex number or is above 0xFF; `clean` when the text
      ended without such a token. */
  function Tokens(s: seq<char>, p: nat): (r: (seq<Byte>, bool))
    requires p <= |s|
    decreases |s| - p
  {
    var q := SkipSpaces(s, p);
    if q == |s| then ([], true)
    else
      var e := HexEnd(s, q);
      if e == q || HexValue(s, q, e) > 0xFF then ([], false)
      else
        var rest := Tokens(s, e);
        ([HexValue(s, q, e) as Byte] + rest.0, rest.1)
  }

  /** The fill loop of prog_enter (firmware/prog.c:104-130) from position
      `p` and address `addr`: skip spaces, stop at the end, reject a token
      that is not a number or exceeds 0xFF, reject an address at or past
      the size, otherwise store and go on. Stores are kept on every exit. */
  function FillFrom(s: seq<char>, p: nat, addr: nat, size: nat, data: seq<Byte>): (r: (Status, seq<Byte>))
    requires p <= |s| && addr <= size <= |data|
    ensures |r.1| == |data|
    decreases |s| - p
  {
    var q := SkipSpaces(s, p);
    if q == |s| then (Ok, data)
    else
      var e := HexEnd(s, q);
      if e == q || HexValue(s, q, e) > 0xFF then (IncorrectNumber, data)
      else if addr >= size then (TooBigAddress, data)
      else FillFrom(s, e, addr + 1, size, data[addr := HexValue(s, q, e) as Byte])
  }

  /** The result of prog_enter on a text: whether it was an entry line at
      all, the error it reported, and the write buffer afterwards. */
  datatype Entry = Entry(handled: bool, status: Status, data: seq<Byte>)

  function Enter(s: seq<char>, size: nat, data: seq<Byte>): (r: Entry)
    requires size <= |data|
    ensures |r.data| == |data|
    ensures r.handled == Header(s).Some?
  {
    match Header(s)
    case None => Entry(false, Ok, data)
    case Some((addr, p)) =>
      if size == 0 then Entry(true, NoChip, data)
      else if addr >= size then Entry(true, TooBigAddress, data)
      else
        var r := FillFrom(s, p, addr, size, data);
        Entry(true, r.0, r.1)
  }

  /** The closed form of the fill loop: the accepted tokens land at
      consecutive addresses from `addr`, as many as fit below `size`; the
      loop reports TooBigAddress when a further valid byte had no room,
      IncorrectNumber when it stopped at a bad token, Ok otherwise. */
  function FillResult(vals: seq<Byte>, clean: bool, addr: nat, size: nat, data: seq<Byte>): (r: (Status, seq<Byte>))
    requires addr <= size <= |data|
  {
    var n := Min(|vals|, size - addr);
    (if |vals| > size - addr then TooBigAddress else if clean then Ok else IncorrectNumber,
     data[..addr] + vals[..n] + data[addr + n..])
  }

  /** Storing one accepted byte and going on is the closed form with that
      byte in front of the remaining tokens. */
  lemma FillResultStep(vals: seq<Byte>, clean: bool, v: Byte, addr: nat, size: nat, data: seq<Byte>)
    requires addr < size <= |data|
    ensures FillResult([v] + vals, clean, addr, size, data) == FillResult(vals, clean, addr + 1, size, data[addr := v])
  {
    var n := Min(|vals|, size - (addr + 1));
    var d := data[addr := v];
    assert d[..addr + 1] == data[..addr] + [v];
    assert d[addr + 1 + n..] == data[addr + 1 + n..];
    assert ([v] + vals)[..n + 1] == [v] + vals[..n];
    assert Min(|[v] + vals|, size - addr) == n + 1;
    assert data[..addr] + ([v] + vals)[..n + 1] + data[addr + (n + 1)..]
        == d[..addr + 1] + vals[..n] + d[addr + 1 + n..];
  }

  /** The fill loop is the closed form applied to the tokens of the text. */
  lemma {:induction false} FillFromTokens(s: seq<char>, p: nat, addr: nat, size: nat, data: seq<Byte>)
    requires p <= |s| && addr <= size <= |data|
    ensures FillFrom(s, p, addr, size, data) == FillResult(Tokens(s, p).0, Tokens(s, p).1, addr, size, data)
    decreases |s| - p
  {
    var q := SkipSpaces(s, p);
    if q == |s| {
      assert data[..addr] + [] + data[addr..] == data;
    } else {
      var e := HexEnd(s, q);
      if e == q || HexValue(s, q, e) > 0xFF {
        assert data[..addr] + [] + data[addr..] == data;
      } else if addr >= size {
        assert data[..addr] + [] + data[addr..] == data;
      } else {
        var v := HexValue(s, q, e) as Byte;
        var rest := Tokens(s, e);
        assert Tokens(s, p) == ([v] + rest.0, rest.1);
        assert FillFrom(s, p, addr, size, data) == FillFrom(s, e, addr + 1, size, data[addr := v]);
        FillFromTokens(s, e, addr + 1, size, data[addr := v]);
        FillResultStep(rest.0, rest.1, v, addr, size, data);
      }
    }
  }

  /** prog_enter's write behaviour on an entry line with a chip selected and
      an address below the size: tokens are stored at addr, addr+1, … for
      as many as were accepted and fit; every other entry is unchanged. */
  lemma EnterStores(s: seq<char>, size: nat, data: seq<Byte>)
    requires size <= |data| && Header(s).Some? && 0 < size && Header(s).value.0 < size
    ensures var addr := Header(s).value.0;
            var vals := Tokens(s, Header(s).value.1).0;
            var n := Min(|vals|, size - addr);
            var out := Enter(s, size, data).data;
            (forall k :: 0 <= k < n ==> out[addr + k] == vals[k]) &&
            (forall i :: 0 <= i < |data| && !(addr <= i < addr + n) ==> out[i] == data[i])
  {
    var addr := Header(s).value.0;
    FillFromTokens(s, Header(s).value.1, addr, size, data);
  }

  /** The status prog_enter reports on such a line. */
  lemma EnterStatus(s: seq<char>, size: nat, data: seq<Byte>)
    requires size <= |data| && Header(s).Some? && 0 < size && Header(s).value.0 < size
    ensures var addr := Header(s).value.0;
            var t := Tokens(s, Header(s).value.1);
            Enter(s, size, data).status ==
              if |t.0| > size - addr then TooBigAddress
              else if t.1 then Ok
              else IncorrectNumber
  {
    FillFromTokens(s, Header(s).value.1, Header(s).value.0, size, data);
  }

  /** With no chip selected an entry line is consumed and changes nothing
      (firmware/prog.c:95-96); a header address at or past the size is
      refused before any store (firmware/prog.c:98-101). */
  lemma EnterRefusals(s: seq<char>, size: nat, data: seq<Byte>)
    requires size <= |data| && Header(s).Some?
    ensures size == 0 ==> Enter(s, size, data) == Entry(true, NoChip, data)
    ensures Header(s).value.0 >= size > 0 ==> Enter(s, size, data) == Entry(true, TooBigAddress, data)
  {
  }

  /** How the scanners read "05: AA ZZ". */
  lemma BadTokenText()
    ensures var s := "05: AA ZZ";
      Header(s) == Some((5, 3)) &&
      SkipSpaces(s, 3) == 4 && HexEnd(s, 4) == 6 && HexValue(s, 4, 6) == 0xAA &&
      SkipSpaces(s, 6) == 7 && HexEnd(s, 7) == 7
  {
    var s := "05: AA ZZ";
    assert HexEnd(s, 0) == 2 && HexValue(s, 0, 2) == 5;
    assert SkipSpaces(s, 3) == 4 && HexEnd(s, 4) == 6 && HexValue(s, 4, 6) == 0xAA;
    assert SkipSpaces(s, 6) == 7 && HexEnd(s, 7) == 7;
  }

  /** "05: AA ZZ" on a K155RE3-sized buffer stores 0xAA at address 5 and
      then stops at the bad token ZZ. */
  lemma ExampleBadToken(data: seq<Byte>)
    requires |data| == 0x100
    ensures Enter("05: AA ZZ", 0x20, data) == Entry(true, IncorrectNumber, data[5 := 0xAA])
  {
    var s := "05: AA ZZ";
    BadTokenText();
    assert FillFrom(s, 6, 6, 0x20, data[5 := 0xAA]) == (IncorrectNumber, data[5 := 0xAA]);
    assert FillFrom(s, 3, 5, 0x20, data) == FillFrom(s, 6, 6, 0x20, data[5 := 0xAA]);
  }

  /** How the scanners read "1F: 01 02". */
  lemma OverflowText()
    ensures var s := "1F: 01 02";
      Header(s) == Some((0x1F, 3)) &&
      SkipSpaces(s, 3) == 4 && HexEnd(s, 4) == 6 && HexValue(s, 4, 6) == 1 &&
      SkipSpaces(s, 6) == 7 && HexEnd(s, 7) == 9 && HexValue(s, 7, 9) == 2
  {
    var s := "1F: 01 02";
    assert HexEnd(s, 0) == 2 && HexValue(s, 0, 2) == 0x1F;
    assert SkipSpaces(s, 3) == 4 && HexEnd(s, 4) == 6 && HexValue(s, 4, 6) == 1;
    assert SkipSpaces(s, 6) == 7 && HexEnd(s, 7) == 9 && HexValue(s, 7, 9) == 2;
  }

  /** "1F: 01 02" on a K155RE3-sized buffer fills the last cell, then
      reports the address overflow for the second byte. */
  lemma ExampleOverflow(data: seq<Byte>)
    requires |data| == 0x100
    ensures Enter("1F: 01 02", 0x20, data) == Entry(true, TooBigAddress, data[0x1F := 0x01])
  {
    var s := "1F: 01 02";
    OverflowText();
    assert FillFrom(s, 6, 0x20, 0x20, data[0x1F := 0x01]) == (TooBigAddress, data[0x1F := 0x01]);
    assert FillFrom(s, 3, 0x1F, 0x20, data) == FillFrom(s, 6, 0x20, 0x20, data[0x1F := 0x01]);
  }
}
