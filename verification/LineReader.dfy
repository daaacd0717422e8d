/** The line buffer of client/readline.cc: lines from a file that is read in pieces. */
module LineReader {
  import opened Prelude

  const IO_SIZE: nat := 4096
  const NUL: char := 0 as char

  // ---------------------------------------------------------------- lines of a text

  /** The first line: up to the first newline, or all. */
  function FirstLine(text: string): (line: string)
    ensures '\n' !in line && line <= text && (|line| < |text| ==> text[|line|] == '\n')
  {
    if text == [] || text[0] == '\n' then [] else [text[0]] + FirstLine(text[1..])
  }

  /** The lines of a text; a newline at its very end does not start another line. */
  function LinesOf(text: string): seq<string>
    decreases |text|
  {
    if text == [] then []
    else
      var line := FirstLine(text);
      [line] + if |line| == |text| then [] else LinesOf(text[|line| + 1..])
  }

  /** A newline, or nothing at the end of the text or where a long line is cut. */
  ghost predicate SplitsOff(text: string, line: string, rest: string, maxSize: nat) {
    && '\n' !in line
    && (|| text == line + ['\n'] + rest
        || (text == line + rest && line != [] && (rest == [] || |line| >= maxSize)))
  }

  /** The same before the newline is taken off. */
  ghost predicate CutsOff(text: string, raw: string, rest: string, maxSize: nat) {
    && raw != [] && text == raw + rest && '\n' !in raw[..|raw| - 1]
    && (raw[|raw| - 1] != '\n' ==> rest == [] || |raw| >= maxSize)
  }

  lemma Stripped(text: string, raw: string, rest: string, maxSize: nat)
    requires CutsOff(text, raw, rest, maxSize)
    ensures SplitsOff(text, if raw[|raw| - 1] == '\n' then raw[..|raw| - 1] else raw, rest, maxSize)
    ensures raw != [] && raw[..|raw|] == raw && text != []
  {
    assert raw == raw[..|raw| - 1] + [raw[|raw| - 1]];
  }

  lemma NoneBefore(s: string, a: nat, b: nat, k: nat)
    requires a <= b <= |s| && a <= k < |s| && '\n' !in s[a..b]
    ensures s[k] == '\n' ==> k >= b
  {
    assert k < b ==> s[k] in s[a..b];
  }

  lemma CutAt(b: string, start: nat, pos: nat, end: nat, coming: string, maxSize: nat)
    requires start <= pos < end <= |b| && '\n' !in b[start..pos]
    requires b[pos] == '\n' || (pos + 1 == end && pos + 1 - start >= maxSize)
    ensures CutsOff(b[start..end] + coming, b[start..pos + 1], b[pos + 1..end] + coming, maxSize)
  {
    var raw := b[start..pos + 1];
    assert raw[..|raw| - 1] == b[start..pos];
    assert raw + b[pos + 1..end] == b[start..end];
    assert raw + (b[pos + 1..end] + coming) == b[start..end] + coming;
  }

  lemma WholeLine(text: string, maxSize: nat)
    requires text != [] && '\n' !in text
    ensures CutsOff(text, text, [], maxSize)
  {
    assert forall c :: c in text[..|text| - 1] ==> c in text;
  }

  lemma NoNewline(s: string, a: nat, b: nat, c: nat)
    requires a <= b <= |s| && a <= c <= |s| && '\n' !in s[a..b] && (b <= c ==> '\n' !in s[b..c])
    ensures '\n' !in s[a..c]
  {
    forall k | a <= k < c ensures s[k] != '\n' {
      assert if k < b then s[k] in s[a..b] else s[k] in s[b..c];
    }
  }

  /** How much of the free space is read: whole blocks. */
  function WholeBlocks(space: nat): (n: nat)
    ensures n <= space && (n == 0 <==> space < IO_SIZE)
  {
    space / 4096 * 4096
  }

  /** As many as there is room for. */
  lemma AllBlocks(space: nat)
    ensures space < WholeBlocks(space) + 4096 && WholeBlocks(space) % 4096 == 0
  {
    Divided(space / 4096 * 4096, 4096, space / 4096, 0);
  }

  class LineBuffer {
    const input: string
    var filePos: nat
    var buffer: array<char>
    var end: nat
    var startOfLine: nat
    var endOfLine: nat
    var bufread: nat
    var eof: bool
    const maxSize: nat

    /** The buffer does not grow for a line that is to be cut. */
    predicate Bounded()
      reads this
    {
      0 < bufread <= 2 * (maxSize + IO_SIZE)
    }

    /** `end` and the sentinel behind it are inside the `bufread + 1` bytes allocated. */
    ghost predicate Valid()
      reads this, buffer
    {
      && buffer.Length == bufread + 1 && Bounded() && maxSize > 0
      && startOfLine <= endOfLine <= end <= bufread && buffer[end] == NUL
      && filePos <= |input| && NUL !in input && NUL !in buffer[endOfLine..end]
      && (eof ==> endOfLine == end && filePos == |input|)
    }

    /** What has not been returned as a line yet. */
    ghost function Rest(): string
      requires endOfLine <= end <= buffer.Length && filePos <= |input|
      reads this, buffer
    {
      buffer[endOfLine..end] + input[filePos..]
    }

    constructor (input: string, maxSize: nat)
      requires NUL !in input && maxSize > 0
      ensures Valid() && Rest() == input && fresh(buffer) && this.maxSize == maxSize
    {
      this.input, this.maxSize := input, maxSize;
      filePos, bufread, end, startOfLine, endOfLine, eof := 0, IO_SIZE, 0, 0, 0, false;
      buffer := new char[IO_SIZE + 1](_ => NUL);
    }

    /** One read() of the file: some bytes, as many as it likes, none only at the end. */
    method Read(wanted: nat) returns (count: nat)
      requires filePos <= |input| && wanted > 0 && end + wanted < buffer.Length
      modifies this`filePos, buffer
      ensures filePos == old(filePos) + count <= |input| && count <= wanted
      ensures count == 0 <==> old(filePos) == |input|
      ensures buffer[end..end + count] == input[old(filePos)..filePos]
      ensures forall k | 0 <= k < end :: buffer[k] == old(buffer[k])
    {
      if filePos == |input| {
        return 0;
      }
      count :| 0 < count <= wanted && filePos + count <= |input|;
      forall k | 0 <= k < count {
        buffer[end + k] := input[filePos + k];
      }
      filePos := filePos + count;
    }

    /** my_realloc: the larger buffer starts with the old contents. */
    method Grow()
      requires buffer.Length == bufread + 1
      modifies this`buffer, this`bufread
      ensures fresh(buffer) && bufread == 2 * old(bufread) && buffer.Length == bufread + 1
      ensures forall k | 0 <= k <= old(bufread) :: buffer[k] == old(buffer[k])
    {
      var grown := new char[2 * bufread + 1](_ => NUL);
      forall k | 0 <= k < buffer.Length {
        grown[k] := buffer[k];
      }
      bufread := 2 * bufread;
      buffer := grown;
    }

    /** fill_buffer: keeps the line begun, at the start of the buffer, and adds new bytes. */
    method FillBuffer() returns (readCount: nat)
      requires buffer.Length == bufread + 1 && Bounded() && startOfLine <= end <= bufread
      requires filePos <= |input| && NUL !in input && '\n' !in buffer[startOfLine..end]
      requires !eof ==> end - startOfLine < maxSize
      modifies this, buffer
      ensures Bounded()
      ensures buffer == old(buffer) || fresh(buffer)
      ensures old(eof) ==> readCount == 0 && unchanged(this) && unchanged(buffer)
      ensures !old(eof) ==>
                && buffer.Length == bufread + 1 && bufread >= old(bufread) && startOfLine == 0
                && endOfLine == old(end - startOfLine) && end == endOfLine + readCount <= bufread && buffer[end] == NUL
                && buffer[..endOfLine] == old(buffer[startOfLine..end])
                && old(filePos) <= filePos <= |input|
      ensures !old(eof) && eof ==> filePos == old(filePos) == |input| && buffer[endOfLine..end] == ['\n'] && endOfLine > 0
      ensures !old(eof) && !eof ==> buffer[endOfLine..end] == input[old(filePos)..filePos]
      ensures !old(eof) && readCount == 0 ==> filePos == |input| && endOfLine == 0 && !eof
    {
      if eof {
        return 0;
      }
      var bufbytes := end - startOfLine;
      ghost var line := buffer[startOfLine..end];
      GrowToFit(bufbytes);
      ShiftDown(bufbytes);
      readCount := ReadMore(bufbytes);
    }

    /** Reads behind the line begun.  If nothing comes, and the line is not empty, it gets a
        newline: every file ends with one. */
    method ReadMore(bufbytes: nat) returns (readCount: nat)
      requires buffer.Length == bufread + 1 && end == bufbytes <= bufread && WholeBlocks(bufread - bufbytes) > 0 && !eof
      requires filePos <= |input| && '\n' !in buffer[..bufbytes]
      modifies this`filePos, this`startOfLine, this`endOfLine, this`end, this`eof, buffer
      ensures startOfLine == 0 && endOfLine == bufbytes && end == endOfLine + readCount <= bufread && buffer[end] == NUL
      ensures buffer[..endOfLine] == old(buffer[..bufbytes]) && old(filePos) <= filePos <= |input|
      ensures eof ==> filePos == old(filePos) == |input| && buffer[endOfLine..end] == ['\n'] && endOfLine > 0
      ensures !eof ==> buffer[endOfLine..end] == input[old(filePos)..filePos]
      ensures readCount == 0 ==> filePos == |input| && endOfLine == 0 && !eof
    {
      ghost var line := buffer[..bufbytes];
      assert bufbytes > 0 ==> line[bufbytes - 1] in line;
      readCount := Read(WholeBlocks(bufread - bufbytes));
      ghost var more := buffer[bufbytes..bufbytes + readCount];
      assert buffer[..bufbytes] == line;
      if readCount == 0 && bufbytes > 0 && buffer[end - 1] != '\n' {
        eof, readCount, more := true, 1, ['\n'];
        buffer[end] := '\n';
      }
      startOfLine, endOfLine := 0, bufbytes;
      end := end + readCount;
      buffer[end] := NUL;
      assert buffer[..bufbytes] == line && buffer[bufbytes..end] == more;
    }

    /** Makes room for a block behind the line begun. */
    method GrowToFit(bufbytes: nat)
      requires buffer.Length == bufread + 1 && bufread > 0 && startOfLine + bufbytes == end <= bufread
      modifies this`buffer, this`bufread, this`end
      ensures buffer == old(buffer) || fresh(buffer)
      ensures buffer.Length == bufread + 1 && bufread >= old(bufread) && startOfLine + bufbytes <= bufread
      ensures WholeBlocks(bufread - bufbytes) > 0
      ensures bufread == old(bufread) || bufread < 2 * (bufbytes + IO_SIZE)
      ensures buffer[startOfLine..startOfLine + bufbytes] == old(buffer[startOfLine..end])
      ensures end == startOfLine + bufbytes || end == bufbytes
    {
      ghost var line := buffer[startOfLine..end];
      while WholeBlocks(bufread - bufbytes) == 0
        invariant buffer == old(buffer) || fresh(buffer)
        invariant buffer.Length == bufread + 1 && bufread >= old(bufread) && startOfLine + bufbytes <= bufread
        invariant bufread == old(bufread) || bufread < 2 * (bufbytes + IO_SIZE)
        invariant buffer[startOfLine..startOfLine + bufbytes] == line
        invariant end == startOfLine + bufbytes || end == bufbytes
        decreases IO_SIZE + bufbytes - bufread
      {
        assert forall k | 0 <= k < bufbytes :: buffer[startOfLine + k] == line[k];
        Grow();
        end := bufbytes;
      }
    }

    /** bmove: the line begun goes to the start of the buffer. */
    method ShiftDown(bufbytes: nat)
      requires buffer.Length == bufread + 1 && startOfLine + bufbytes <= bufread
      requires end == startOfLine + bufbytes || end == bufbytes
      modifies this`end, buffer
      ensures end == bufbytes && buffer[..bufbytes] == old(buffer[startOfLine..startOfLine + bufbytes])
    {
      if startOfLine != 0 {
        forall k | 0 <= k < bufbytes {
          buffer[k] := buffer[startOfLine + k];
        }
        end := bufbytes;
      }
    }

    /** While a line is looked for: what of it has been read, and what is still to come. */
    ghost predicate Looking(text: string)
      reads this, buffer
    {
      && buffer.Length == bufread + 1 && Bounded() && maxSize > 0
      && startOfLine <= endOfLine <= end <= bufread && buffer[end] == NUL
      && filePos <= |input| && NUL !in input && NUL !in buffer[endOfLine..end]
      && '\n' !in buffer[startOfLine..endOfLine]
      && (!eof ==> text == buffer[startOfLine..endOfLine] + buffer[endOfLine..end] + input[filePos..])
      && (eof ==> filePos == |input| && text == buffer[startOfLine..endOfLine])
      && (eof ==> if text == [] then endOfLine == end else buffer[endOfLine..end] == ['\n'])
    }

    /** A line has been found: `outLength` bytes from `startOfLine` on. */
    ghost predicate Returned(text: string, outLength: nat)
      reads this, buffer
    {
      && Valid() && startOfLine + outLength + (if eof then 1 else 0) == endOfLine
      && CutsOff(text, buffer[startOfLine..startOfLine + outLength], Rest(), maxSize)
      && (!eof ==> endOfLine == end || (startOfLine < endOfLine && buffer[endOfLine - 1] == '\n'))
    }

    /** The scan for the end of the line. */
    method FindEnd(ghost text: string) returns (pos: nat)
      requires Looking(text)
      ensures startOfLine <= endOfLine <= pos <= end < buffer.Length && maxSize > 0
      ensures '\n' !in buffer[endOfLine..pos] && (pos < end ==> buffer[pos] == '\n')
      ensures pos == end && eof ==> startOfLine == end
    {
      pos := endOfLine;
      while buffer[pos] != '\n' && buffer[pos] != NUL
        invariant endOfLine <= pos <= end && '\n' !in buffer[endOfLine..pos]
        decreases end - pos
      {
        pos := pos + 1;
      }
      if pos < end {
        assert buffer[pos] in buffer[endOfLine..end];
      }
    }

    /** More bytes for a line whose end is not in the buffer yet. */
    method FillMore(ghost text: string) returns (length: nat)
      requires Looking(text) && '\n' !in buffer[endOfLine..end] && end - startOfLine < maxSize
      modifies this, buffer
      ensures buffer == old(buffer) || fresh(buffer)
      ensures Looking(text)
      ensures length == 0 ==> text == [] && Valid() && Rest() == []
      ensures filePos <= |input|
      ensures length > 0 ==> old(!eof) && (filePos > old(filePos) || (eof && filePos == old(filePos)))
    {
      ghost var line, more, coming := buffer[startOfLine..endOfLine], buffer[endOfLine..end], input[filePos..];
      assert buffer[startOfLine..end] == line + more;
      ghost var was, from := eof, filePos;
      if eof {
        assert more != ['\n'];
      }
      length := FillBuffer();
      if !was {
        hide Looking;
        LookingOn(text, line + more, from);
      }
    }

    /** The bytes added belong to the same text. */
    lemma LookingOn(text: string, seen: string, from: nat)
      requires buffer.Length == bufread + 1 && Bounded() && maxSize > 0
      requires startOfLine == 0 && endOfLine <= end <= bufread && buffer[end] == NUL && buffer[..endOfLine] == seen
      requires from <= filePos <= |input| && NUL !in input && '\n' !in seen && text == seen + input[from..]
      requires eof ==> filePos == from == |input| && buffer[endOfLine..end] == ['\n'] && endOfLine > 0
      requires !eof ==> buffer[endOfLine..end] == input[from..filePos]
      ensures Looking(text)
    {
      if !eof {
        assert input[from..] == input[from..filePos] + input[filePos..];
        assert NUL !in input[from..filePos];
      }
    }

    /** intern_read_line: `outLength` bytes from `startOfLine` on, with the newline if it is one
        of the file. */
    method InternReadLine(ghost text: string) returns (found: bool, outLength: nat)
      requires Valid() && text == Rest()
      modifies this, buffer
      ensures buffer == old(buffer) || fresh(buffer)
      ensures Valid()
      ensures !found ==> text == [] == Rest()
      ensures found ==> Returned(text, outLength)
    {
      startOfLine := endOfLine;
      StartLooking(text);
      hide Looking, CutsOff, Returned;
      while true
        invariant buffer == old(buffer) || fresh(buffer)
        invariant Looking(text)
        decreases |input| - filePos + if eof then 0 else 1
      {
        var pos := FindEnd(text);
        if pos == end {
          if pos - startOfLine < maxSize {
            var length := FillMore(text);
            if length == 0 {
              return false, 0;
            }
            continue;
          }
          pos := pos - 1;
        }
        found, outLength := TakeLine(text, pos);
        return;
      }
    }

    lemma StartLooking(text: string)
      requires startOfLine == endOfLine <= end <= buffer.Length && filePos <= |input| && text == Rest()
      requires Valid()
      ensures Looking(text)
    {
    }

    /** The line ends with the byte at `pos`. */
    method TakeLine(ghost text: string, pos: nat) returns (found: bool, outLength: nat)
      requires Looking(text) && startOfLine <= pos < end && endOfLine <= pos + 1
      requires endOfLine <= pos ==> '\n' !in buffer[endOfLine..pos]
      requires buffer[pos] == '\n' || (pos + 1 == end && pos + 1 - startOfLine >= maxSize && !eof)
      modifies this`endOfLine
      ensures found && Valid()
      ensures Returned(text, outLength)
    {
      if eof {
        LastTaken(text, pos);
      } else {
        PartTaken(text, pos);
      }
      hide CutsOff;
      endOfLine := pos + 1;
      outLength := pos + 1 - (if eof then 1 else 0) - startOfLine;
      found := true;
    }

    lemma LastTaken(text: string, pos: nat)
      requires Looking(text) && eof && startOfLine <= pos < end && endOfLine <= pos + 1
      requires endOfLine <= pos ==> '\n' !in buffer[endOfLine..pos]
      requires buffer[pos] == '\n'
      ensures pos + 1 == end && buffer[startOfLine..pos] == text && CutsOff(text, text, [], maxSize)
    {
      NoneBefore(buffer[..end], startOfLine, endOfLine, pos);
      WholeLine(text, maxSize);
    }

    lemma PartTaken(text: string, pos: nat)
      requires Looking(text) && !eof && startOfLine <= pos < end && endOfLine <= pos + 1
      requires endOfLine <= pos ==> '\n' !in buffer[endOfLine..pos]
      requires buffer[pos] == '\n' || (pos + 1 == end && pos + 1 - startOfLine >= maxSize)
      ensures CutsOff(text, buffer[startOfLine..pos + 1], buffer[pos + 1..end] + input[filePos..], maxSize)
    {
      var b, coming := buffer[..], input[filePos..];
      NoNewline(b, startOfLine, endOfLine, pos);
      CutAt(b, startOfLine, pos, end, coming, maxSize);
      assert b[startOfLine..endOfLine] + b[endOfLine..end] == b[startOfLine..end];
    }

    /** batch_readline: the next line without its newline. */
    method BatchReadline() returns (line: Option<string>)
      requires Valid()
      modifies this, buffer
      ensures buffer == old(buffer) || fresh(buffer)
      ensures Valid()
      ensures line.None? <==> old(Rest()) == []
      ensures line.None? ==> Rest() == []
      ensures line.Some? ==> SplitsOff(old(Rest()), line.value, Rest(), maxSize)
      ensures line.Some? ==> |line.value| <= 2 * (maxSize + 4096)
    {
      ghost var text := Rest();
      hide Valid, Looking, Returned, SplitsOff;
      var found, outLength := InternReadLine(text);
      if !found {
        return None;
      }
      ReturnedBound(text, outLength);
      var bytes := Terminate(text, outLength);
      line := Some(bytes);
    }

    lemma ReturnedBound(text: string, outLength: nat)
      requires Returned(text, outLength)
      ensures outLength <= 2 * (maxSize + 4096)
    {
    }

    /** The newline is cut off ... */
    method LineAt(ghost text: string, outLength: nat) returns (line: string)
      requires Returned(text, outLength)
      ensures text != [] && SplitsOff(text, line, Rest(), maxSize) && |line| <= outLength
      ensures startOfLine + |line| == endOfLine ==> endOfLine == end
    {
      ghost var raw := buffer[startOfLine..startOfLine + outLength];
      Stripped(text, raw, Rest(), maxSize);
      hide SplitsOff, CutsOff;
      line := buffer[startOfLine..startOfLine + outLength];
      if outLength > 0 && line[outLength - 1] == '\n' {
        line := line[..outLength - 1];
      }
    }

    /** ... and a NUL put behind the line. */
    method Terminate(ghost text: string, outLength: nat) returns (line: string)
      requires Returned(text, outLength)
      modifies buffer
      ensures Valid() && text != [] && SplitsOff(text, line, Rest(), maxSize) && |line| <= outLength
    {
      line := LineAt(text, outLength);
      hide SplitsOff, CutsOff;
      ghost var tail := buffer[endOfLine..end];
      buffer[startOfLine + |line|] := NUL;
      assert buffer[endOfLine..end] == tail;
    }
  }

  // ---------------------------------------------------------------- independent of the pieces

  /** A start of the text without a newline is not longer than one that a newline follows. */
  lemma NotLonger(text: string, a: string, b: string)
    requires a <= text && b <= text && (|a| < |text| ==> text[|a|] == '\n') && '\n' !in b
    ensures |b| <= |a|
  {
    assert forall k | 0 <= k < |b| :: text[k] == b[k] && b[k] in b;
  }

  /** There is only one way to split off the first line. */
  lemma FirstLineIs(text: string, line: string)
    requires '\n' !in line && line <= text && (|line| < |text| ==> text[|line|] == '\n')
    ensures FirstLine(text) == line
  {
    var first := FirstLine(text);
    NotLonger(text, first, line);
    NotLonger(text, line, first);
    assert first == text[..|first|] && line == text[..|line|];
  }

  /** Where the first line is short enough, it is what was split off. */
  lemma ShortLine(text: string, line: string, rest: string, maxSize: nat)
    requires SplitsOff(text, line, rest, maxSize) && text != [] && AllShort(text, maxSize)
    ensures LinesOf(text) == [line] + LinesOf(rest)
    ensures AllShort(rest, maxSize) && |rest| < |text|
  {
    assert LinesOf(text)[0] == FirstLine(text);
    assert |FirstLine(text)| < maxSize;
    if text == line + ['\n'] + rest {
      FirstLineIs(text, line);
      assert text[|line| + 1..] == rest;
    } else {
      NotLonger(text, FirstLine(text), line);
      assert text == line;
      FirstLineIs(text, line);
    }
    forall other | other in LinesOf(rest) ensures |other| < maxSize {
      assert other in LinesOf(text);
    }
  }

  ghost predicate AllShort(text: string, maxSize: nat) {
    forall line | line in LinesOf(text) :: |line| < maxSize
  }

  lemma NoLines()
    ensures LinesOf([]) == []
  {
  }

  /** Calls of batch_readline until it returns nothing: however the file was read, these are
      its lines. */
  method ReadAll(b: LineBuffer) returns (lines: seq<string>)
    requires b.Valid() && AllShort(b.Rest(), b.maxSize)
    modifies b, b.buffer
    ensures lines == LinesOf(old(b.Rest()))
    ensures b.Valid() && b.Rest() == []
  {
    hide LinesOf, AllShort, SplitsOff;
    lines := [];
    NoLines();
    ghost var text := b.Rest();
    while true
      invariant b.Valid() && AllShort(b.Rest(), b.maxSize) && lines + LinesOf(b.Rest()) == LinesOf(text)
      invariant b.buffer == old(b.buffer) || fresh(b.buffer)
      decreases |b.Rest()|
    {
      ghost var before := b.Rest();
      var line := b.BatchReadline();
      if line.None? {
        return;
      }
      ShortLine(before, line.value, b.Rest(), b.maxSize);
      assert lines + ([line.value] + LinesOf(b.Rest())) == lines + [line.value] + LinesOf(b.Rest());
      lines := lines + [line.value];
    }
  }

  /** A whole file. */
  method ReadFile(input: string, maxSize: nat) returns (lines: seq<string>)
    requires NUL !in input && maxSize > 0 && AllShort(input, maxSize)
    ensures lines == LinesOf(input)
  {
    var b := new LineBuffer(input, maxSize);
    lines := ReadAll(b);
  }
}
