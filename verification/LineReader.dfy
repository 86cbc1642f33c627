/** The reading loop of `cmd_pipe_output`: lines put together again from the chunks that a
    buffer of bounded size delivers. */
module LineReader {
  import opened Strings

  /** Where one `fgets` stops: after a newline, when the buffer is full, or at the end. */
  function ChunkEnd(stream: string, pos: nat, capacity: nat): (e: nat)
    requires pos < |stream| && capacity >= 1
    ensures pos < e <= |stream| && e - pos <= capacity
    ensures '\n' !in stream[pos..e - 1]
    ensures stream[e - 1] != '\n' && e - pos < capacity ==> e == |stream|
    decreases |stream| - pos
  {
    if stream[pos] == '\n' || capacity == 1 || pos + 1 == |stream| then pos + 1
    else ChunkEnd(stream, pos + 1, capacity - 1)
  }

  /** What C string functions see of a buffer: everything before the first NUL. */
  function CString(chunk: string): string {
    chunk[..IndexOf(chunk, '\0')]
  }

  /** The lines of a text; an unterminated last line counts if it is not empty. */
  function SplitLines(s: string): seq<string>
    decreases |s|
  {
    var k := IndexOf(s, '\n');
    if k == |s| then (if s == "" then [] else [s]) else [s[..k]] + SplitLines(s[k + 1..])
  }

  function JoinLines(lines: seq<string>): string {
    if lines == [] then "" else lines[0] + "\n" + JoinLines(lines[1..])
  }

  lemma FirstLine(line: string, rest: string)
    requires '\n' !in line
    ensures SplitLines(line + "\n" + rest) == [line] + SplitLines(rest)
  {
    var s := line + "\n" + rest;
    assert s[..|line|] == line && s[|line| + 1..] == rest;
    IndexOfFirst(s, '\n', |line|);
  }

  lemma LastLine(line: string)
    requires '\n' !in line
    ensures SplitLines(line) == if line == "" then [] else [line]
  {
    IndexOfFirst(line, '\n', |line|);
  }

  predicate Terminated(s: string) {
    s == "" || s[|s| - 1] == '\n'
  }

  lemma OneLineRejoined(line: string)
    requires '\n' !in line
    ensures JoinLines(SplitLines(line)) == line <==> Terminated(line)
  {
    LastLine(line);
    hide SplitLines;
    if line != "" {
      JoinFirst(line, []);
      assert |JoinLines([line])| != |line|;
    }
  }

  lemma TerminatedTail(line: string, rest: string)
    ensures Terminated(line + "\n" + rest) <==> Terminated(rest)
  {
    var s := line + "\n" + rest;
    assert rest == "" ==> s[|s| - 1] == '\n';
    assert rest != "" ==> s[|s| - 1] == rest[|rest| - 1];
  }

  /** Rejoining the lines restores exactly the texts that are empty or end in a newline. */
  lemma {:induction false} RejoinIffTerminated(s: string)
    ensures JoinLines(SplitLines(s)) == s <==> Terminated(s)
    decreases |s|
  {
    hide SplitLines, JoinLines, Terminated;
    var k := IndexOf(s, '\n');
    if k < |s| {
      var line, rest := s[..k], s[k + 1..];
      RejoinIffTerminated(rest);
      assert s == line + "\n" + rest;
      FirstLine(line, rest);
      TerminatedTail(line, rest);
      JoinFirst(line, SplitLines(rest));
      SameTail(line + "\n", JoinLines(SplitLines(rest)), rest);
    } else {
      assert s[..k] == s;
      OneLineRejoined(s);
    }
  }

  lemma JoinFirst(line: string, lines: seq<string>)
    ensures JoinLines([line] + lines) == (line + "\n") + JoinLines(lines)
    ensures JoinLines([line]) == (line + "\n") + ""
  {
    assert ([line] + lines)[1..] == lines;
  }

  lemma SameTail(head: string, x: string, y: string)
    ensures head + x == head + y <==> x == y
  {
    assert (head + x)[|head|..] == x && (head + y)[|head|..] == y;
  }

  /** Every character but the newline survives in some line. */
  lemma {:induction false} SplitKeeps(s: string, c: char)
    requires c in s && c != '\n'
    ensures exists line :: line in SplitLines(s) && c in line
    decreases |s|
  {
    var k := IndexOf(s, '\n');
    if k < |s| && c !in s[..k] {
      assert s == s[..k] + "\n" + s[k + 1..];
      SplitKeeps(s[k + 1..], c);
      var line :| line in SplitLines(s[k + 1..]) && c in line;
      assert line in SplitLines(s);
    } else {
      assert SplitLines(s)[0] in SplitLines(s);
    }
  }

  /** The lines already complete and the text still to come make up the whole. */
  ghost predicate Progress(stream: string, lines: seq<string>, output: string, rest: string) {
    && '\n' !in output && '\0' !in output && (forall line :: line in lines ==> '\0' !in line)
    && ('\0' !in stream ==> lines + SplitLines(output + rest) == SplitLines(stream) && '\0' !in rest)
  }

  /** One chunk: with a newline at its end it completes a line, otherwise it extends one. */
  lemma ChunkProgress(stream: string, lines: seq<string>, output: string, chunk: string, rest: string)
    requires Progress(stream, lines, output, chunk + rest)
    requires chunk != "" && '\n' !in chunk[..|chunk| - 1]
    ensures var buffer := CString(chunk);
            if buffer != "" && buffer[|buffer| - 1] == '\n'
            then Progress(stream, lines + [output + buffer[..|buffer| - 1]], "", rest)
            else Progress(stream, lines, output + buffer, rest)
  {
    if '\0' !in stream {
      assert '\0' !in chunk && '\0' !in rest by {
        assert forall c :: c in chunk || c in rest ==> c in chunk + rest;
      }
      WholeChunk(chunk);
      if chunk[|chunk| - 1] == '\n' {
        NewLine(lines, output, chunk[..|chunk| - 1], rest);
        assert chunk == chunk[..|chunk| - 1] + "\n";
      } else {
        assert output + (chunk + rest) == (output + chunk) + rest;
        assert chunk == chunk[..|chunk| - 1] + [chunk[|chunk| - 1]];
      }
    }
  }

  lemma NewLine(lines: seq<string>, output: string, text: string, rest: string)
    requires '\n' !in output && '\n' !in text
    ensures lines + SplitLines(output + (text + "\n" + rest)) == (lines + [output + text]) + SplitLines("" + rest)
  {
    hide SplitLines;
    var line, more := output + text, "\n" + rest;
    assert text + "\n" + rest == text + more && line + "\n" + rest == line + more;
    assert output + (text + more) == line + more;
    FirstLine(line, rest);
    assert "" + rest == rest;
    assert lines + ([line] + SplitLines(rest)) == (lines + [line]) + SplitLines(rest);
  }

  lemma ProgressStart(stream: string)
    ensures Progress(stream, [], "", stream[0..])
  {
    assert "" + stream[0..] == stream;
    assert [] + SplitLines(stream) == SplitLines(stream);
  }

  lemma ProgressEnd(stream: string, lines: seq<string>, output: string)
    requires Progress(stream, lines, output, "")
    ensures lines + (if output == "" then [] else [output]) == SplitLines(stream) <==> '\0' !in stream
  {
    LastLine(output);
    assert output + "" == output;
    var all := lines + if output == "" then [] else [output];
    assert forall line :: line in all ==> '\0' !in line;
    if '\0' in stream {
      SplitKeeps(stream, '\0');
      var line :| line in SplitLines(stream) && '\0' in line;
      assert line !in all;
    }
  }

  /** The loop, for a buffer that takes `capacity` characters per read (99 in the original).
      Whatever that number, the lines are those of the whole stream exactly if the stream
      has no NUL character. */
  method CollectLines(stream: string, capacity: nat) returns (lines: seq<string>)
    requires capacity >= 1
    ensures lines == SplitLines(stream) <==> '\0' !in stream
  {
    lines := [];
    var output := "";
    var pos := 0;
    ProgressStart(stream);
    hide Progress, SplitLines, CString, ChunkEnd;
    while pos < |stream|
      invariant pos <= |stream| && Progress(stream, lines, output, stream[pos..])
    {
      var e := ChunkEnd(stream, pos, capacity);
      ghost var chunk := stream[pos..e];
      assert stream[pos..] == chunk + stream[e..] && chunk[..|chunk| - 1] == stream[pos..e - 1];
      ChunkProgress(stream, lines, output, chunk, stream[e..]);
      var buffer := CString(stream[pos..e]);
      pos := e;
      if |buffer| > 0 && buffer[|buffer| - 1] == '\n' {
        buffer := buffer[..|buffer| - 1];
        output := output + buffer;
        lines := lines + [output];
        output := "";
      } else {
        output := output + buffer;
      }
    }
    assert stream[pos..] == "";
    ProgressEnd(stream, lines, output);
    if output != "" {
      lines := lines + [output];
    }
  }

  /** Whatever follows the first NUL of a chunk is lost. */
  lemma CutAtNul(text: string, rest: string)
    requires '\0' !in text
    ensures CString(text + "\0" + rest) == text
  {
    var chunk := text + "\0" + rest;
    assert chunk[..|text|] == text;
    IndexOfFirst(chunk, '\0', |text|);
  }

  lemma WholeChunk(chunk: string)
    requires '\0' !in chunk
    ensures CString(chunk) == chunk
  {
    IndexOfFirst(chunk, '\0', |chunk|);
  }
}
