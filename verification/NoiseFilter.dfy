// The line filter on the standard output of an MCP child process (core/mcp_stdio_noise_filter.py).
module NoiseFilter {
  import opened Text

  // Complete lines of `text`, and what follows the last newline, when `open` has been read before.
  function Scan(open: string, text: string): (seq<string>, string)
    decreases |text|
  {
    if text == "" then ([], open)
    else if text[0] == '\n' then
      var (lines, tail) := Scan("", text[1..]);
      ([open] + lines, tail)
    else Scan(open + [text[0]], text[1..])
  }

  // text.split("\n")
  function Split(text: string): (r: seq<string>)
    ensures r != []
  {
    var (lines, tail) := Scan("", text);
    lines + [tail]
  }

  predicate LooksLikeJsonRpc(line: string) {
    var s := Strip(line);
    s != "" && (s[0] == '{' || s[0] == '[')
  }

  // A line is kept exactly when its first character that is not white space opens an object or array.
  lemma LooksLikeExactly(line: string)
    ensures LooksLikeJsonRpc(line) <==> exists k :: 0 <= k < |line| && (line[k] == '{' || line[k] == '[') && OnlyBefore(IsSpace, line, k)
  {
  }

  function Filter(keep: string -> bool, lines: seq<string>): seq<string> {
    if lines == [] then []
    else (if keep(lines[0]) then [lines[0]] else []) + Filter(keep, lines[1..])
  }

  function Read(keep: string -> bool, forwarded: seq<string>, buffer: string, chunk: string): (seq<string>, string) {
    var lines := Split(buffer + chunk);
    (forwarded + Filter(keep, lines[..|lines| - 1]), lines[|lines| - 1])
  }

  // The reader: the unfinished tail, and the lines handed on to message parsing.
  class StdoutReader {
    var buffer: string
    var forwarded: seq<string>

    constructor ()
      ensures buffer == "" && forwarded == []
    {
      buffer, forwarded := "", [];
    }

    method OnChunk(chunk: string)
      modifies this
      ensures (forwarded, buffer) == Read(LooksLikeJsonRpc, old(forwarded), old(buffer), chunk)
    {
      var lines := Split(buffer + chunk);
      buffer := lines[|lines| - 1];
      Forward(lines[..|lines| - 1], LooksLikeJsonRpc);
    }

    method Forward(lines: seq<string>, keep: string -> bool)
      modifies this`forwarded
      ensures forwarded == old(forwarded) + Filter(keep, lines)
    {
      for k := 0 to |lines|
        invariant forwarded + Filter(keep, lines[k..]) == old(forwarded) + Filter(keep, lines)
      {
        assert lines[k..][0] == lines[k] && lines[k..][1..] == lines[k + 1..];
        if keep(lines[k]) { forwarded := forwarded + [lines[k]]; }
      }
    }
  }

  function ReadAll(keep: string -> bool, forwarded: seq<string>, buffer: string, chunks: seq<string>): (seq<string>, string)
    decreases |chunks|
  {
    if chunks == [] then (forwarded, buffer)
    else
      var (f, b) := Read(keep, forwarded, buffer, chunks[0]);
      ReadAll(keep, f, b, chunks[1..])
  }

  // Lines and tail put back together.
  function Unsplit(lines: seq<string>, tail: string): string {
    if lines == [] then tail else lines[0] + "\n" + Unsplit(lines[1..], tail)
  }

  // Splitting loses nothing and leaves no newline in any line or in the tail.
  lemma {:induction false} ScanExact(open: string, text: string)
    requires '\n' !in open
    ensures var (lines, tail) := Scan(open, text);
            && Unsplit(lines, tail) == open + text
            && '\n' !in tail && forall k :: 0 <= k < |lines| ==> '\n' !in lines[k]
    decreases |text|
  {
    if text == "" {
      assert open + text == open;
    } else if text[0] == '\n' {
      ScanExact("", text[1..]);
      assert "" + text[1..] == text[1..];
      assert open + text == open + "\n" + text[1..];
    } else {
      ScanExact(open + [text[0]], text[1..]);
      assert open + text == (open + [text[0]]) + text[1..];
    }
  }

  lemma Assoc(a: seq<string>, b: seq<string>, c: seq<string>)
    ensures (a + b) + c == a + (b + c)
  {
  }

  // Scanning may stop anywhere and go on with the tail.
  lemma {:induction false} ScanContinues(open: string, x: string, y: string)
    ensures var (l1, t1) := Scan(open, x);
            var (l2, t2) := Scan(t1, y);
            Scan(open, x + y) == (l1 + l2, t2)
    decreases |x|
  {
    if x == "" {
      assert x + y == y;
      assert [] + Scan(open, y).0 == Scan(open, y).0;
    } else {
      assert (x + y)[0] == x[0] && (x + y)[1..] == x[1..] + y;
      if x[0] == '\n' {
        ScanContinues("", x[1..], y);
        var (l1, t1) := Scan("", x[1..]);
        Assoc([open], l1, Scan(t1, y).0);
      } else {
        ScanContinues(open + [x[0]], x[1..], y);
      }
    }
  }

  lemma {:induction false} ScanOpen(open: string, x: string)
    requires '\n' !in x
    ensures Scan(open, x) == ([], open + x)
    decreases |x|
  {
    if x == "" {
      assert open + x == open;
    } else {
      ScanOpen(open + [x[0]], x[1..]);
      assert (open + [x[0]]) + x[1..] == open + x;
    }
  }

  // What one chunk does, given that the buffer is an unfinished line.
  lemma {:induction false} ReadIsScan(keep: string -> bool, forwarded: seq<string>, buffer: string, chunk: string)
    requires '\n' !in buffer
    ensures var (lines, tail) := Scan(buffer, chunk);
            Read(keep, forwarded, buffer, chunk) == (forwarded + Filter(keep, lines), tail) && '\n' !in tail
  {
    ScanOpen("", buffer);
    assert "" + buffer == buffer;
    ScanContinues("", buffer, chunk);
    ScanExact(buffer, chunk);
    var (lines, tail) := Scan(buffer, chunk);
    assert [] + lines == lines;
    assert Split(buffer + chunk) == lines + [tail];
    assert (lines + [tail])[..|lines|] == lines;
  }

  lemma {:induction false} FilterAppend(keep: string -> bool, a: seq<string>, b: seq<string>)
    ensures Filter(keep, a + b) == Filter(keep, a) + Filter(keep, b)
  {
    if a == [] {
      assert a + b == b;
    } else {
      assert (a + b)[0] == a[0] && (a + b)[1..] == a[1..] + b;
      FilterAppend(keep, a[1..], b);
      Assoc(if keep(a[0]) then [a[0]] else [], Filter(keep, a[1..]), Filter(keep, b));
    }
  }

  // Each line is forwarded at its place, or not, by itself.
  lemma FilterExact(keep: string -> bool, a: seq<string>, line: string, b: seq<string>)
    ensures Filter(keep, a + ([line] + b)) == Filter(keep, a) + ((if keep(line) then [line] else []) + Filter(keep, b))
    ensures Filter(keep, []) == []
  {
    FilterAppend(keep, a, [line] + b);
    assert ([line] + b)[1..] == b;
  }

  lemma {:induction false} ReadAllIsScan(keep: string -> bool, forwarded: seq<string>, buffer: string, chunks: seq<string>)
    requires '\n' !in buffer
    ensures var (lines, tail) := Scan(buffer, Concat(chunks));
            ReadAll(keep, forwarded, buffer, chunks) == (forwarded + Filter(keep, lines), tail)
    decreases |chunks|
  {
    if chunks == [] {
      assert forwarded + [] == forwarded;
    } else {
      var (l1, t1) := Scan(buffer, chunks[0]);
      ReadIsScan(keep, forwarded, buffer, chunks[0]);
      ReadAllIsScan(keep, forwarded + Filter(keep, l1), t1, chunks[1..]);
      ScanContinues(buffer, chunks[0], Concat(chunks[1..]));
      var l2 := Scan(t1, Concat(chunks[1..])).0;
      FilterAppend(keep, l1, l2);
      Assoc(forwarded, Filter(keep, l1), Filter(keep, l2));
    }
  }

  // However the child's output is cut into chunks, the lines handed on are the ones to keep among its
  // newline-terminated lines, in order, and the unfinished tail stays in the buffer.  The reader keeps
  // the lines that look like JSON.
  lemma ChunkingIrrelevant(keep: string -> bool, chunks: seq<string>)
    ensures var (lines, tail) := Scan("", Concat(chunks));
            && ReadAll(keep, [], "", chunks) == (Filter(keep, lines), tail)
            && Unsplit(lines, tail) == Concat(chunks)
            && '\n' !in tail && forall k :: 0 <= k < |lines| ==> '\n' !in lines[k]
  {
    ReadAllIsScan(keep, [], "", chunks);
    ScanExact("", Concat(chunks));
    var lines := Scan("", Concat(chunks)).0;
    assert [] + Filter(keep, lines) == Filter(keep, lines);
    assert "" + Concat(chunks) == Concat(chunks);
  }
}
