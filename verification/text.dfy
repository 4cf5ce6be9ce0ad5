/** Character-level scanning shared by the console and the fill parser:
    skip_spaces (firmware/console.c:51-55) and the hexadecimal numbers
    read with strtoul(…, 16) in prog_enter (firmware/prog.c:91, 111).
    A C string is modelled as the characters before its terminating NUL,
    and a `char *` into it as an index `i <= |s|`; `i == |s|` is the NUL. */
module Text {

  /** skip_spaces: the first position at or after `i` that is not an ASCII
      space. Only ' ' is skipped; a tab stops the scan. */
  function SkipSpaces(s: seq<char>, i: nat): (j: nat)
    requires i <= |s|
    ensures i <= j <= |s|
    ensures forall k :: i <= k < j ==> s[k] == ' '
    ensures j == |s| || s[j] != ' '
    decreases |s| - i
  {
    if i < |s| && s[i] == ' ' then SkipSpaces(s, i + 1) else i
  }

  /** Leading spaces do not change where the scan ends. */
  lemma {:induction false} SkipSpacesLeading(s: seq<char>, i: nat, k: nat)
    requires i <= k <= |s|
    requires forall m :: i <= m < k ==> s[m] == ' '
    ensures SkipSpaces(s, i) == SkipSpaces(s, k)
    decreases k - i
  {
    if i < k {
      SkipSpacesLeading(s, i + 1, k);
    }
  }

  predicate IsHexDigit(c: char) {
    '0' <= c <= '9' || 'a' <= c <= 'f' || 'A' <= c <= 'F'
  }

  /** The value of one hexadecimal digit, either case. */
  function DigitValue(c: char): (v: nat)
    requires IsHexDigit(c)
    ensures v < 16
  {
    if '0' <= c <= '9' then c as nat - '0' as nat
    else if 'a' <= c <= 'f' then c as nat - 'a' as nat + 10
    else c as nat - 'A' as nat + 10
  }

  /** The end of the run of hexadecimal digits starting at `i`: where
      strtoul leaves its end position (`i` itself when there is no digit). */
  function HexEnd(s: seq<char>, i: nat): (j: nat)
    requires i <= |s|
    ensures i <= j <= |s|
    ensures forall k :: i <= k < j ==> IsHexDigit(s[k])
    ensures j == |s| || !IsHexDigit(s[j])
    decreases |s| - i
  {
    if i < |s| && IsHexDigit(s[i]) then HexEnd(s, i + 1) else i
  }

  predicate AllHex(s: seq<char>, i: nat, j: nat)
    requires i <= j <= |s|
  {
    forall k :: i <= k < j ==> IsHexDigit(s[k])
  }

  /** The number the digits s[i..j] spell in base 16, most significant
      first; unbounded. */
  function HexValue(s: seq<char>, i: nat, j: nat): nat
    requires i <= j <= |s| && AllHex(s, i, j)
    decreases j - i
  {
    if i == j then 0 else HexValue(s, i, j - 1) * 16 + DigitValue(s[j - 1])
  }

  function Pow16(n: nat): (r: nat)
    ensures r >= 1
  {
    if n == 0 then 1 else 16 * Pow16(n - 1)
  }

  /** n digits spell a number below 16^n. */
  lemma {:induction false} HexValueBound(s: seq<char>, i: nat, j: nat)
    requires i <= j <= |s| && AllHex(s, i, j)
    ensures HexValue(s, i, j) < Pow16(j - i)
    decreases j - i
  {
    if i < j {
      HexValueBound(s, i, j - 1);
    }
  }

  /** The upper-case digit for 0..15, as printf's %X writes it. */
  function HexDigit(v: nat): (c: char)
    requires v < 16
    ensures IsHexDigit(c) && DigitValue(c) == v
  {
    if v < 10 then ('0' as nat + v) as char else ('A' as nat + v - 10) as char
  }

  /** A byte as two upper-case digits, as printf's %02X writes it. */
  function Hex2(b: nat): (s: seq<char>)
    requires b < 0x100
    ensures |s| == 2 && AllHex(s, 0, 2)
  {
    [HexDigit(b / 16), HexDigit(b % 16)]
  }

  /** What %02X prints, strtoul(…, 16) reads back. */
  lemma Hex2RoundTrip(b: nat)
    requires b < 0x100
    ensures HexValue(Hex2(b), 0, 2) == b
  {
    var s := Hex2(b);
    assert HexValue(s, 0, 1) == b / 16;
  }

  /** What %X prints for a value below 16, strtoul(…, 16) reads back. */
  lemma Hex1RoundTrip(v: nat)
    requires v < 16
    ensures HexValue([HexDigit(v)], 0, 1) == v
  {
  }
}
