/** The endpoint of the log pipe: its buffer, its cursor, and the loop that pushes the lines. */
module PipeEndpoint {
  import opened Basics
  import opened Octets
  import opened LogPipe

  class PipeEndpoint {
    const size: nat
    var buffer: array<Byte>
    var cursor: nat
    var avail: nat
    var result: nat

    ghost predicate Valid()
      reads this, buffer
    {
      size < buffer.Length && cursor + avail == size
    }

    /** The bytes held back. */
    ghost function Held(): seq<Byte>
      reads this, buffer
      requires Valid()
    {
      buffer[..cursor]
    }

    /** The bytes of the read that has completed, right behind them. */
    ghost function Arrived(): seq<Byte>
      reads this, buffer
      requires Valid() && result <= avail
    {
      buffer[cursor..cursor + result]
    }

    constructor (capacity: nat)
      ensures Valid() && size == capacity && Held() == [] && result == 0 && fresh(buffer)
    {
      size := capacity;
      buffer := new Byte[capacity + 8](_ => 0);
      cursor, avail, result := 0, capacity, 0;
    }

    method Reset()
      requires Valid()
      modifies this`cursor, this`avail
      ensures Valid() && cursor == 0 && avail == size
    {
      cursor, avail := 0, size;
    }

    function Length(): nat
      reads this, buffer
      requires Valid()
    {
      size - avail
    }

    /** The read that the system completes: bytes behind the cursor, and their number. */
    method ReadFile(chunk: seq<Byte>)
      requires Valid() && |chunk| <= avail
      modifies this`result, buffer
      ensures Valid() && Held() == old(Held()) && result == |chunk| && Arrived() == chunk
    {
      for i := 0 to |chunk|
        invariant buffer[cursor..cursor + i] == chunk[..i]
        invariant buffer[..cursor] == old(buffer[..cursor])
      {
        buffer[cursor + i] := chunk[i];
      }
      result := |chunk|;
    }

    /** Take in the bytes just read.  There is nothing to scan when nothing was read and nothing is held;
        nothing read with bytes held is the end of the stream. */
    method Pushed() returns (scan: int, eof: bool)
      requires Valid() && result <= avail
      modifies this`cursor, this`avail, this`result, buffer
      ensures Valid() && result == 0 && Held() == old(Held() + Arrived())
      ensures scan == if old(result == 0 && cursor == 0) then -1 else old(cursor)
      ensures scan >= 0 ==> buffer[cursor] == NUL && eof == (old(result) == 0)
    {
      scan, eof := -1, false;
      if result != 0 || cursor != 0 {
        scan, eof := cursor, true;
        if result != 0 {
          avail, cursor := avail - result, cursor + result;
          result := 0;
          eof := false;
        }
        buffer[cursor] := NUL;
      }
    }

    /** The first newline from `from` on, before any NUL; -1 for none. */
    method StrChr(from: nat) returns (nl: int)
      requires Valid() && from <= cursor && buffer[cursor] == NUL
      ensures var r := FindNewline(buffer[..cursor], from);
              nl == if r == cursor then -1 else r
    {
      nl := from;
      while buffer[nl] != NL && buffer[nl] != NUL
        invariant from <= nl <= cursor
        invariant FindNewline(buffer[..cursor], nl) == FindNewline(buffer[..cursor], from)
        decreases cursor - nl
      {
        nl := nl + 1;
      }
      if buffer[nl] != NL {
        nl := -1;
      }
    }

    /** Remove the leading bytes. */
    method Pop(bytes: nat)
      requires Valid() && bytes <= cursor
      modifies this`cursor, this`avail, buffer
      ensures Valid() && Held() == old(Held())[bytes..]
    {
      var length := Length();
      if bytes == length {
        Reset();
      } else {
        MoveDown(bytes, length - bytes);
        avail, cursor := avail + bytes, cursor - bytes;
      }
    }

    /** Move `n` bytes from `from` to the start of the buffer. */
    method MoveDown(from: nat, n: nat)
      requires from + n <= buffer.Length
      modifies buffer
      ensures buffer[..n] == old(buffer[from..from + n])
    {
      for i := 0 to n
        invariant buffer[..i] == old(buffer[from..from + i])
        invariant forall j :: from + i <= j < buffer.Length ==> buffer[j] == old(buffer[j])
      {
        buffer[i] := buffer[from + i];
      }
    }

    /** One line, without its return; nothing when that leaves nothing. */
    method PushLine(line: nat, nl: nat) returns (pushed: seq<Line>)
      requires Valid() && line <= nl < cursor
      ensures pushed == Emit(buffer[line..nl])
    {
      ghost var text := buffer[line..nl];
      var sz := nl - line;
      pushed := [];
      if sz != 0 {
        assert text[..sz - 1] == buffer[line..nl - 1];
        if buffer[line + sz - 1] == CR {
          sz := sz - 1;
        }
        if sz != 0 {
          pushed := [buffer[line..line + sz]];
        }
      }
    }

    /** Past the newline, and past the return right behind it. */
    method SkipEnd(nl: nat) returns (next: nat)
      requires Valid() && nl < cursor && buffer[cursor] == NUL
      ensures next == NextLine(buffer[..cursor], nl)
    {
      next := nl + 1;
      if buffer[next] == CR {
        next := next + 1;
      }
    }

    /** Push the whole lines, looking for newlines from `from` on. */
    method PushLines(from: nat) returns (lines: seq<Line>, popped: nat)
      requires Valid() && from <= cursor && buffer[cursor] == NUL
      ensures lines == Lines(buffer[..cursor], 0, from).0
      ensures popped == Lines(buffer[..cursor], 0, from).1
    {
      ghost var data := buffer[..cursor];
      assert forall i, j :: 0 <= i <= j <= cursor ==> data[i..j] == buffer[i..j];
      var scan, line := from, 0;
      lines, popped := [], 0;
      var nl := StrChr(scan);
      while nl >= 0
        invariant line <= scan <= cursor && popped == line
        invariant var r := FindNewline(data, scan); nl == if r == cursor then -1 else r
        invariant lines + Lines(data, line, scan).0 == Lines(data, 0, from).0
        invariant Lines(data, line, scan).1 == Lines(data, 0, from).1
        decreases cursor - scan
      {
        LinesFrom(data, line, scan);
        var pushed := PushLine(line, nl);
        var next := SkipEnd(nl);
        Regroup(lines, pushed, Lines(data, next, next).0);
        lines := lines + pushed;
        popped := popped + (next - line);
        scan, line := next, next;
        nl := StrChr(scan);
      }
      assert Lines(data, line, scan) == ([], line);
    }

    /** Push the lines that a completed read has made whole; on a full buffer or at the end of the stream,
        push what is there. */
    method Reading() returns (lines: seq<Line>)
      requires Valid() && result <= avail
      modifies this`cursor, this`avail, this`result, buffer
      ensures Valid() && result == 0
      ensures Pipe(Held(), lines) == Read(size, Pipe(old(Held()), []), old(Arrived()))
    {
      var scan, eof := Pushed();
      lines := [];
      if scan >= 0 {
        var popped;
        lines, popped := PushLines(scan);
        if popped != 0 {
          Pop(popped);
        } else if avail == 0 || (eof && Length() != 0) {
          lines := lines + [buffer[..Length()]];
          Reset();
        }
      }
    }
  }
}
