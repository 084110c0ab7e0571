// GPU_Send_RdLine (userCode/GPU_Task.c): reads bytes from the terminal serial
// port and overwrites them, one at a time, into a NUL-terminated line buffer at
// a cursor, until a CR, an LF or the overrun marker arrives.
//
// The byte source TerminalSerial_RdByte is the sequence `input`, consumed from
// its start; the echo to the other port (Terminal_WrChar) is the out-parameter
// `echo`. When `input` runs out before a terminator, the real function is still
// blocked waiting for the next byte: that outcome is `Waiting`.
module GpuTask {
  import opened ShellArgs

  const CR: byte := 0x0D
  const LF: byte := 0x0A

  /** ASCII_IsPrint: space through tilde. */
  predicate IsPrint(b: byte) {
    0x20 <= b <= 0x7E
  }

  /** TERMINAL_ESC_TYPE_*: the escape sequences the reader could report. */
  datatype EscType = EscNone | EscUp | EscDown | EscIns

  /** Why the read stopped: a CR or LF, the overrun marker, or no terminator yet. */
  datatype LineEnd = NewLine | OverRun | Waiting

  /** Str_Len: the index of the first NUL. */
  function StrLen(s: seq<byte>): (n: nat)
    requires Nul in s
    ensures n < |s| && s[n] == Nul
    ensures forall i :: 0 <= i < n ==> s[i] != Nul
  {
    if s[0] == Nul then 0 else 1 + StrLen(s[1..])
  }

  /** The reader's working state: the buffer, the local cursor, what was echoed. */
  datatype Line = Line(buf: seq<byte>, cursor: nat, echo: seq<byte>)

  /** One byte of the default branch: a printable byte while the cursor is below
      lenMax is echoed, overwrites the slot under the cursor (a NUL there is moved
      one slot on) and advances the cursor; any other byte changes nothing. */
  function Put(l: Line, b: byte, lenMax: nat): (r: Line)
    requires lenMax < |l.buf|
    ensures |r.buf| == |l.buf|
  {
    if IsPrint(b) && l.cursor < lenMax then
      var w := l.buf[l.cursor := b];
      Line(if l.buf[l.cursor] == Nul then w[l.cursor + 1 := Nul] else w, l.cursor + 1, l.echo + [b])
    else l
  }

  lemma PutKeepsNul(l: Line, b: byte, lenMax: nat)
    requires lenMax < |l.buf| && Nul in l.buf
    ensures Nul in Put(l, b, lenMax).buf
  {
    if IsPrint(b) && l.cursor < lenMax {
      var r := Put(l, b, lenMax);
      if l.buf[l.cursor] == Nul {
        assert r.buf[l.cursor + 1] == Nul;
      } else {
        var j :| 0 <= j < |l.buf| && l.buf[j] == Nul;
        assert r.buf[j] == Nul;
      }
    }
  }

  /** The loop from input[i] on: the working state it ends in, why it ended and
      how many bytes it had read by then. */
  function ReadFrom(l: Line, input: seq<byte>, i: nat, lenMax: nat, overRun: byte): (r: (Line, LineEnd, nat))
    requires lenMax < |l.buf| && Nul in l.buf && i <= |input|
    ensures |r.0.buf| == |l.buf| && Nul in r.0.buf
    decreases |input| - i
  {
    if i == |input| then (l, Waiting, i)
    else if input[i] == CR || input[i] == LF then (l, NewLine, i + 1)
    else if input[i] == overRun then (l, OverRun, i + 1)
    else
      PutKeepsNul(l, input[i], lenMax);
      ReadFrom(Put(l, input[i], lenMax), input, i + 1, lenMax, overRun)
  }

  /** What one call leaves behind: the buffer, the value in *pcursor_pos, the
      echoed bytes, why it stopped and how many bytes it read. */
  datatype Reading = Reading(buf: seq<byte>, cursorPos: nat, echo: seq<byte>, end: LineEnd, used: nat)

  /** GPU_Send_RdLine from a buffer and a cursor. *pcursor_pos is written only
      on a new line, with the string's length. */
  function ReadLine(buf: seq<byte>, cursorPos: nat, input: seq<byte>, lenMax: nat, overRun: byte): Reading
    requires lenMax < |buf| && Nul in buf
  {
    var (l, end, used) := ReadFrom(Line(buf, cursorPos, []), input, 0, lenMax, overRun);
    Reading(l.buf, if end == NewLine then StrLen(l.buf) else cursorPos, l.echo, end, used)
  }

  /** GPU_Send_RdLine. The buffer needs lenMax + 1 slots: a byte typed at cursor
      lenMax - 1 may move the NUL to slot lenMax (see ReaderWritesSlotLenMax). */
  method GpuSendRdLine(pstr: array<byte>, lenMax: nat, cursorPos: nat, input: seq<byte>, overRun: byte)
    returns (rtn: EscType, newCursorPos: nat, echo: seq<byte>, end: LineEnd, used: nat)
    requires lenMax < pstr.Length && Nul in pstr[..]
    requires overRun != CR && overRun != LF
    modifies pstr
    ensures rtn == EscNone
    ensures Reading(pstr[..], newCursorPos, echo, end, used) == ReadLine(old(pstr[..]), cursorPos, input, lenMax, overRun)
  {
    rtn := EscNone;
    var cursor: nat := cursorPos;
    echo := [];
    var i := 0;
    while i < |input|
      invariant 0 <= i <= |input| && Nul in pstr[..]
      invariant ReadFrom(Line(pstr[..], cursor, echo), input, i, lenMax, overRun)
             == ReadFrom(Line(old(pstr[..]), cursorPos, []), input, 0, lenMax, overRun)
      decreases |input| - i
    {
      var inChar := input[i];
      if inChar == CR || inChar == LF {
        ghost var line := pstr[..];
        var strLen := StrLen(pstr[..]);
        pstr[strLen] := Nul;
        assert pstr[..] == line;
        newCursorPos, end, used := strLen, NewLine, i + 1;
        return;
      } else if inChar == overRun {
        newCursorPos, end, used := cursorPos, OverRun, i + 1;
        return;
      }
      ghost var before := Line(pstr[..], cursor, echo);
      PutKeepsNul(before, inChar, lenMax);
      if IsPrint(inChar) && cursor < lenMax {
        echo := echo + [inChar];
        var cursorChar := pstr[cursor];
        pstr[cursor] := inChar;
        if cursorChar == Nul {
          pstr[cursor + 1] := Nul;
        }
        cursor := cursor + 1;
      }
      assert Line(pstr[..], cursor, echo) == Put(before, inChar, lenMax);
      i := i + 1;
    }
    newCursorPos, end, used := cursorPos, Waiting, i;
  }

  // ---------------------------------------------------------------------------
  // What a read does, stated against the input.

  predicate IsStop(b: byte, overRun: byte) {
    b == CR || b == LF || b == overRun
  }

  /** Index of the first CR, LF or overrun marker at or after i, or |input|. */
  function FirstStop(input: seq<byte>, i: nat, overRun: byte): (k: nat)
    requires i <= |input|
    ensures i <= k <= |input|
    ensures forall j :: i <= j < k ==> !IsStop(input[j], overRun)
    ensures k < |input| ==> IsStop(input[k], overRun)
    decreases |input| - i
  {
    if i == |input| || IsStop(input[i], overRun) then i else FirstStop(input, i + 1, overRun)
  }

  /** How many more bytes the cursor may still take. */
  function Room(cursor: nat, lenMax: nat): nat {
    if cursor < lenMax then lenMax - cursor else 0
  }

  /** The first `room` printable bytes of s: the ones a reader accepts. */
  function Accepted(s: seq<byte>, room: nat): seq<byte>
    decreases |s|
  {
    if s == [] || room == 0 then []
    else if IsPrint(s[0]) then [s[0]] + Accepted(s[1..], room - 1)
    else Accepted(s[1..], room)
  }

  /** The read stops right after the first terminator and reports which one;
      with none in the input it has read everything and is still waiting. */
  lemma {:induction false} ReadFromStops(l: Line, input: seq<byte>, i: nat, lenMax: nat, overRun: byte)
    requires lenMax < |l.buf| && Nul in l.buf && i <= |input|
    ensures var k := FirstStop(input, i, overRun);
            var r := ReadFrom(l, input, i, lenMax, overRun);
            && (k == |input| ==> r.1 == Waiting && r.2 == |input|)
            && (k < |input| ==> r.2 == k + 1 && (r.1 == NewLine <==> input[k] == CR || input[k] == LF))
            && (k < |input| ==> (r.1 == OverRun <==> input[k] != CR && input[k] != LF))
    decreases |input| - i
  {
    if i < |input| && !IsStop(input[i], overRun) {
      PutKeepsNul(l, input[i], lenMax);
      ReadFromStops(Put(l, input[i], lenMax), input, i + 1, lenMax, overRun);
    }
  }

  /** The echo is the accepted bytes, in order; the cursor moves by their number. */
  lemma {:induction false} ReadFromEcho(l: Line, input: seq<byte>, i: nat, lenMax: nat, overRun: byte)
    requires lenMax < |l.buf| && Nul in l.buf && i <= |input|
    ensures var k := FirstStop(input, i, overRun);
            var r := ReadFrom(l, input, i, lenMax, overRun);
            && r.0.echo == l.echo + Accepted(input[i..k], Room(l.cursor, lenMax))
            && r.0.cursor == l.cursor + (|r.0.echo| - |l.echo|)
    decreases |input| - i
  {
    var k := FirstStop(input, i, overRun);
    if i < |input| && !IsStop(input[i], overRun) {
      var b := input[i];
      PutKeepsNul(l, b, lenMax);
      ReadFromEcho(Put(l, b, lenMax), input, i + 1, lenMax, overRun);
      assert input[i..k][1..] == input[i + 1..k];
    }
  }

  /** A read leaves every slot before its starting cursor and after its final
      cursor alone, moves the cursor only up to lenMax, and leaves the final
      cursor's slot as it was or holding the moved NUL. */
  lemma {:induction false} ReadFromFrame(l: Line, input: seq<byte>, i: nat, lenMax: nat, overRun: byte)
    requires lenMax < |l.buf| && Nul in l.buf && i <= |input|
    ensures var r := ReadFrom(l, input, i, lenMax, overRun).0;
            && l.cursor <= r.cursor
            && (r.cursor == l.cursor ==> r.buf == l.buf)
            && (r.cursor > l.cursor ==> r.cursor <= lenMax)
            && (forall j :: 0 <= j < |l.buf| && (j < l.cursor || j > r.cursor) ==> r.buf[j] == l.buf[j])
            && (r.cursor < |l.buf| ==> r.buf[r.cursor] in {l.buf[r.cursor], Nul})
    decreases |input| - i
  {
    if i < |input| && !IsStop(input[i], overRun) {
      PutKeepsNul(l, input[i], lenMax);
      ReadFromFrame(Put(l, input[i], lenMax), input, i + 1, lenMax, overRun);
    }
  }

  /** The bytes between the starting and the final cursor are the ones echoed,
      in order. */
  lemma {:induction false} ReadFromLands(l: Line, input: seq<byte>, i: nat, lenMax: nat, overRun: byte)
    requires lenMax < |l.buf| && Nul in l.buf && i <= |input|
    ensures var r := ReadFrom(l, input, i, lenMax, overRun).0;
            && |l.echo| <= |r.echo|
            && r.cursor == l.cursor + (|r.echo| - |l.echo|)
            && (l.cursor < r.cursor <= |r.buf| ==> r.buf[l.cursor..r.cursor] == r.echo[|l.echo|..])
    decreases |input| - i
  {
    ReadFromEcho(l, input, i, lenMax, overRun);
    if i < |input| && !IsStop(input[i], overRun) {
      var b := input[i];
      PutKeepsNul(l, b, lenMax);
      var l1 := Put(l, b, lenMax);
      ReadFromLands(l1, input, i + 1, lenMax, overRun);
      if IsPrint(b) && l.cursor < lenMax {
        ReadFromFrame(l1, input, i + 1, lenMax, overRun);
        var r := ReadFrom(l1, input, i + 1, lenMax, overRun).0;
        assert r.buf[l.cursor] == b;
        if l1.cursor < r.cursor {
          assert r.buf[l.cursor..r.cursor] == [b] + r.buf[l1.cursor..r.cursor];
        }
        assert r.echo[|l.echo|..] == [b] + r.echo[|l1.echo|..];
      }
    }
  }

  /** With the cursor at the end of the string, the cursor stays at the end. */
  lemma {:induction false} ReadFromAtEnd(l: Line, input: seq<byte>, i: nat, lenMax: nat, overRun: byte)
    requires lenMax < |l.buf| && Nul in l.buf && i <= |input|
    requires StrLen(l.buf) == l.cursor
    ensures var r := ReadFrom(l, input, i, lenMax, overRun);
            StrLen(r.0.buf) == r.0.cursor
    decreases |input| - i
  {
    if i < |input| && !IsStop(input[i], overRun) {
      var b := input[i];
      PutKeepsNul(l, b, lenMax);
      var l1 := Put(l, b, lenMax);
      if IsPrint(b) && l.cursor < lenMax {
        assert l1.buf[l.cursor + 1] == Nul;
        assert forall j :: 0 <= j <= l.cursor ==> l1.buf[j] != Nul by {
          forall j | 0 <= j <= l.cursor
            ensures l1.buf[j] != Nul
          {
            if j < l.cursor {
              assert l1.buf[j] == l.buf[j];
            }
          }
        }
        StrLenIs(l1.buf, l1.cursor);
      }
      ReadFromAtEnd(l1, input, i + 1, lenMax, overRun);
    }
  }

  lemma StrLenIs(s: seq<byte>, n: nat)
    requires n < |s| && s[n] == Nul && forall j :: 0 <= j < n ==> s[j] != Nul
    ensures StrLen(s) == n
  {
  }

  /** GPU_Send_RdLine returns after the first CR, LF or overrun marker, having
      read exactly up to it, and says which it was. */
  lemma ReadLineStops(buf: seq<byte>, cursorPos: nat, input: seq<byte>, lenMax: nat, overRun: byte)
    requires lenMax < |buf| && Nul in buf
    ensures var k := FirstStop(input, 0, overRun);
            var r := ReadLine(buf, cursorPos, input, lenMax, overRun);
            && (r.end == Waiting <==> k == |input|)
            && (r.end == NewLine <==> k < |input| && (input[k] == CR || input[k] == LF))
            && (r.end != Waiting ==> r.used == k + 1)
            && (r.end == Waiting ==> r.used == |input|)
            && (r.end != NewLine ==> r.cursorPos == cursorPos)
  {
    ReadFromStops(Line(buf, cursorPos, []), input, 0, lenMax, overRun);
  }

  /** Every accepted byte is echoed exactly once, in input order: the printable
      bytes before the terminator, as many as fit between the cursor and
      lenMax. Bytes dropped, non-printable or past lenMax, are not echoed. */
  lemma ReadLineEcho(buf: seq<byte>, cursorPos: nat, input: seq<byte>, lenMax: nat, overRun: byte)
    requires lenMax < |buf| && Nul in buf
    ensures var k := FirstStop(input, 0, overRun);
            ReadLine(buf, cursorPos, input, lenMax, overRun).echo == Accepted(input[..k], Room(cursorPos, lenMax))
  {
    ReadFromEcho(Line(buf, cursorPos, []), input, 0, lenMax, overRun);
    assert input[0..FirstStop(input, 0, overRun)] == input[..FirstStop(input, 0, overRun)];
  }

  /** The accepted bytes overwrite the buffer from the cursor on; nothing before
      the cursor or past the slot after them changes, so no slot above lenMax
      is ever written and the buffer keeps a NUL. */
  lemma ReadLineWrites(buf: seq<byte>, cursorPos: nat, input: seq<byte>, lenMax: nat, overRun: byte)
    requires lenMax < |buf| && Nul in buf
    ensures var r := ReadLine(buf, cursorPos, input, lenMax, overRun);
            var n := |r.echo|;
            && |r.buf| == |buf| && Nul in r.buf
            && (n == 0 ==> r.buf == buf)
            && (n > 0 ==> cursorPos + n <= lenMax && r.buf[cursorPos..cursorPos + n] == r.echo)
            && (forall j :: 0 <= j < |buf| && (j < cursorPos || j > cursorPos + n) ==> r.buf[j] == buf[j])
            && (forall j :: lenMax < j < |buf| ==> r.buf[j] == buf[j])
  {
    ReadFromFrame(Line(buf, cursorPos, []), input, 0, lenMax, overRun);
    ReadFromLands(Line(buf, cursorPos, []), input, 0, lenMax, overRun);
  }

  /** Typing at the end of a string keeps the cursor at its end: the string
      grows by the number of echoed bytes, and a new line reports that length. */
  lemma ReadLineEndsAtCursor(buf: seq<byte>, cursorPos: nat, input: seq<byte>, lenMax: nat, overRun: byte)
    requires lenMax < |buf| && Nul in buf && StrLen(buf) == cursorPos
    ensures var r := ReadLine(buf, cursorPos, input, lenMax, overRun);
            && StrLen(r.buf) == cursorPos + |r.echo|
            && (r.end == NewLine ==> r.cursorPos == cursorPos + |r.echo|)
  {
    var l := Line(buf, cursorPos, []);
    ReadFromAtEnd(l, input, 0, lenMax, overRun);
    ReadFromLands(l, input, 0, lenMax, overRun);
  }

  /** Typing at the end of a string: the new string is the old one followed by
      exactly the echoed bytes. */
  lemma ReadLineAppends(buf: seq<byte>, cursorPos: nat, input: seq<byte>, lenMax: nat, overRun: byte)
    requires lenMax < |buf| && Nul in buf && StrLen(buf) == cursorPos
    ensures var r := ReadLine(buf, cursorPos, input, lenMax, overRun);
            r.buf[..StrLen(r.buf)] == buf[..cursorPos] + r.echo
  {
    var r := ReadLine(buf, cursorPos, input, lenMax, overRun);
    ReadLineEndsAtCursor(buf, cursorPos, input, lenMax, overRun);
    ReadLineWrites(buf, cursorPos, input, lenMax, overRun);
    PrefixThenSlice(r.buf, buf, cursorPos, r.echo);
  }

  lemma PrefixThenSlice(a: seq<byte>, b: seq<byte>, c: nat, e: seq<byte>)
    requires c + |e| <= |a| == |b| && a[c..c + |e|] == e
    requires forall j :: 0 <= j < c ==> a[j] == b[j]
    ensures a[..c + |e|] == b[..c] + e
  {
    assert a[..c + |e|] == a[..c] + a[c..c + |e|];
    assert a[..c] == b[..c];
  }

  /** The buffer must have lenMax + 1 slots: whatever lenMax is, one printable
      byte typed at cursor lenMax - 1, on the string's NUL, writes slot lenMax. */
  lemma ReaderWritesSlotLenMax(lenMax: nat, overRun: byte)
    requires lenMax > 0 && overRun != 'A' as byte
    ensures var buf := seq(lenMax - 1, _ => 'a' as byte) + [Nul, 'x' as byte];
            ReadLine(buf, lenMax - 1, ['A' as byte], lenMax, overRun).buf[lenMax] != buf[lenMax]
  {
    var buf := seq(lenMax - 1, _ => 'a' as byte) + [Nul, 'x' as byte];
    var l1 := Put(Line(buf, lenMax - 1, []), 'A' as byte, lenMax);
    assert l1.buf[lenMax] == Nul;
    assert ReadFrom(l1, ['A' as byte], 1, lenMax, overRun).0 == l1;
  }
}
