/** The line editor `input` of firmware/console.c:57-93. The blocking reads
    on fd 0 become a finite sequence of received characters; the echo
    written back to the terminal is not modelled. */
module Editor {

  const NUL: char := 0 as char
  const BS: char := 8 as char
  const CR: char := '\r'
  const LF: char := '\n'

  /** The characters the editor acts on instead of storing them. */
  predicate IsControl(c: char) {
    c == NUL || c == CR || c == LF || c == BS
  }

  /** A line as the editor can hold it in a buffer of `cap` bytes: room for
      the terminating NUL, and none of the characters it acts on. */
  predicate Storable(line: seq<char>, cap: nat) {
    |line| < cap && forall k :: 0 <= k < |line| ==> !IsControl(line[k])
  }

  /** The editor between two characters: still collecting a line, or done
      with the line it hands to the command parser. */
  datatype State = Editing(line: seq<char>) | Done(line: seq<char>)

  /** One received character, for a buffer of `cap` bytes (buf_size):
      NUL ends with an empty line, CR or LF ends a non-empty line and is
      ignored on an empty one, backspace drops the last character if
      there is one, a character that finds the buffer full discards the
      line (and is itself dropped), anything else is appended. */
  function Step(s: State, c: char, cap: nat): (r: State)
    requires cap > 0
    ensures s.Editing? && Storable(s.line, cap) ==> Storable(r.line, cap)
  {
    match s
    case Done(_) => s
    case Editing(line) =>
      if c == NUL then Done([])
      else if c == CR || c == LF then (if line == [] then s else Done(line))
      else if c == BS then (if line == [] then s else Editing(line[..|line| - 1]))
      else if |line| == cap - 1 then Editing([])
      else Editing(line + [c])
  }

  /** The state after a run of characters. */
  function Feed(s: State, keys: seq<char>, cap: nat): State
    requires cap > 0
    decreases |keys|
  {
    if keys == [] then s else Feed(Step(s, keys[0], cap), keys[1..], cap)
  }

  /** Feeding two runs is feeding one after the other. */
  lemma {:induction false} FeedAppend(s: State, a: seq<char>, b: seq<char>, cap: nat)
    requires cap > 0
    ensures Feed(s, a + b, cap) == Feed(Feed(s, a, cap), b, cap)
    decreases |a|
  {
    if a != [] {
      assert (a + b)[0] == a[0] && (a + b)[1..] == a[1..] + b;
      FeedAppend(Step(s, a[0], cap), a[1..], b, cap);
    } else {
      assert a + b == b;
    }
  }

  /** Feeding a run and then one more character. */
  lemma FeedSnoc(s: State, keys: seq<char>, i: nat, cap: nat)
    requires cap > 0 && i < |keys|
    ensures Feed(s, keys[..i + 1], cap) == Step(Feed(s, keys[..i], cap), keys[i], cap)
  {
    assert keys[..i + 1] == keys[..i] + [keys[i]];
    FeedAppend(s, keys[..i], [keys[i]], cap);
  }

  /** Once a line is complete, later characters do not change it. */
  lemma {:induction false} FeedDone(line: seq<char>, keys: seq<char>, cap: nat)
    requires cap > 0
    ensures Feed(Done(line), keys, cap) == Done(line)
    decreases |keys|
  {
    if keys != [] {
      FeedDone(line, keys[1..], cap);
    }
  }

  /** Whatever arrives, the line held or handed over fits the buffer with
      its NUL and holds no NUL, CR, LF or backspace. */
  lemma {:induction false} FeedStorable(s: State, keys: seq<char>, cap: nat)
    requires cap > 0 && Storable(s.line, cap)
    ensures Storable(Feed(s, keys, cap).line, cap)
    decreases |keys|
  {
    if keys != [] {
      if s.Done? {
        FeedDone(s.line, keys, cap);
      } else {
        FeedStorable(Step(s, keys[0], cap), keys[1..], cap);
      }
    }
  }

  /** Typing a line of ordinary characters that fits and pressing CR or LF
      hands over exactly that line. */
  lemma {:induction false} TypedLine(line: seq<char>, text: seq<char>, end: char, cap: nat)
    requires cap > 0 && Storable(line + text, cap) && line + text != []
    requires end == CR || end == LF
    ensures Feed(Editing(line), text + [end], cap) == Done(line + text)
    decreases |text|
  {
    if text == [] {
      assert line + text == line;
    } else {
      assert !IsControl((line + text)[|line|]);
      assert Step(Editing(line), text[0], cap) == Editing(line + [text[0]]);
      assert (text + [end])[1..] == text[1..] + [end];
      assert line + [text[0]] + text[1..] == line + text;
      TypedLine(line + [text[0]], text[1..], end, cap);
    }
  }

  /** CR and LF on an empty line are ignored. */
  lemma BlankEndsIgnored(keys: seq<char>, end: char, cap: nat)
    requires cap > 0 && (end == CR || end == LF)
    ensures Feed(Editing([]), [end] + keys, cap) == Feed(Editing([]), keys, cap)
  {
    assert ([end] + keys)[1..] == keys;
  }

  /** NUL hands over an empty line, whatever was typed before it. */
  lemma NulEndsEmpty(line: seq<char>, keys: seq<char>, cap: nat)
    requires cap > 0
    ensures Feed(Editing(line), [NUL] + keys, cap) == Done([])
  {
    assert ([NUL] + keys)[1..] == keys;
    FeedDone([], keys, cap);
  }

  /** A character typed while the line has room, followed by a backspace,
      leaves no trace; once the line is complete neither matters either. */
  lemma BackspaceUndoes(pre: seq<char>, c: char, post: seq<char>, cap: nat)
    requires cap > 0 && !IsControl(c)
    requires var s := Feed(Editing([]), pre, cap); s.Done? || |s.line| + 1 < cap
    ensures Feed(Editing([]), pre + [c, BS] + post, cap) == Feed(Editing([]), pre + post, cap)
  {
    var s := Feed(Editing([]), pre, cap);
    FeedAppend(Editing([]), pre + [c, BS], post, cap);
    FeedAppend(Editing([]), pre, [c, BS], cap);
    FeedAppend(Editing([]), pre, post, cap);
    if s.Done? {
      FeedDone(s.line, [c, BS], cap);
    } else {
      var s1 := Step(s, c, cap);
      assert [c, BS][0] == c && [c, BS][1..] == [BS] && [BS][1..] == [];
      assert Feed(s, [c, BS], cap) == Feed(s1, [BS], cap);
      assert Feed(s1, [BS], cap) == Feed(Step(s1, BS, cap), [], cap);
      assert Step(s, c, cap) == Editing(s.line + [c]);
      assert (s.line + [c])[..|s.line|] == s.line;
    }
  }

  /** With a 3-byte buffer, "abcd" then CR: "ab" fills it, "c" discards the
      line, and the line handed over is "d". */
  lemma ExampleOverflow()
    ensures Feed(Editing([]), "abcd\r", 3) == Done("d")
  {
    var keys := "abcd\r";
    assert Feed(Editing([]), keys, 3) == Feed(Editing("a"), keys[1..], 3);
    assert Feed(Editing("a"), keys[1..], 3) == Feed(Editing("ab"), keys[2..], 3);
    assert Feed(Editing("ab"), keys[2..], 3) == Feed(Editing([]), keys[3..], 3);
    assert Feed(Editing([]), keys[3..], 3) == Feed(Editing("d"), keys[4..], 3);
  }

  /** input (firmware/console.c:57-93) over the characters `keys`: it reads
      until a line completes, leaving it NUL-terminated at buf[len]. `done`
      is false when the characters ran out first (the firmware would wait
      for more). `used` counts the characters read, the completing one
      included, so the line completes on exactly the last one read. */
  method Input(buf: array<char>, keys: seq<char>) returns (done: bool, used: nat, len: nat)
    requires buf.Length > 0
    modifies buf
    ensures used <= |keys|
    ensures done ==>
      0 < used && len < buf.Length && buf[len] == NUL &&
      Feed(Editing([]), keys[..used], buf.Length) == Done(buf[..len]) &&
      Feed(Editing([]), keys[..used - 1], buf.Length).Editing?
    ensures !done ==> used == |keys| && Feed(Editing([]), keys, buf.Length).Editing?
  {
    var pos := 0;
    var i := 0;
    while i < |keys|
      invariant i <= |keys| && pos < buf.Length
      invariant Feed(Editing([]), keys[..i], buf.Length) == Editing(buf[..pos])
    {
      var c := keys[i];
      FeedSnoc(Editing([]), keys, i, buf.Length);
      if c == NUL {
        buf[0] := NUL;
        return true, i + 1, 0;
      }
      if c == CR || c == LF {
        if pos != 0 {
          ghost var line := buf[..pos];
          buf[pos] := NUL;
          assert buf[..pos] == line;
          return true, i + 1, pos;
        }
      } else if c == BS {
        if pos > 0 {
          pos := pos - 1;
        }
      } else if pos == buf.Length - 1 {
        pos := 0;
      } else {
        ghost var line := buf[..pos];
        buf[pos] := c;
        assert buf[..pos + 1] == line + [c];
        pos := pos + 1;
      }
      i := i + 1;
    }
    assert keys[..i] == keys;
    return false, i, pos;
  }
}
