/** What a session can make of a stream, for every way the network cuts it up: `do_read` finds every line end, but may
    lose the byte behind it. */
module Readings {
  import opened Strings
  import opened Wire

  /** Lines, each with its newline, in which `stream` can be read: behind each line one byte may be missing. */
  ghost predicate IsReading(stream: Bytes, lines: seq<Bytes>)
    decreases |stream|
  {
    match Find(stream, '\n', 0)
    case None => lines == []
    case Some(k) =>
      && lines != [] && lines[0] == stream[..k + 1]
      && (IsReading(stream[k + 1..], lines[1..]) || (k + 2 <= |stream| && IsReading(stream[k + 2..], lines[1..])))
  }

  /** One step of `Receive`: the first line of the first arrival, then the rest as if it arrived on an empty buffer. */
  lemma ReceiveStep(buffer: Bytes, chunks: seq<Bytes>, k: nat)
    requires chunks != [] && Find(buffer + chunks[0], '\n', 0) == Some(k)
    ensures var s := buffer + chunks[0];
            Receive(buffer, chunks).lines ==
            [s[..k + 1]] + Receive([], [Erase(s, k + 1)] + chunks[1..]).lines
  {
    var s, tail := buffer + chunks[0], chunks[1..];
    var after := Drain(Erase(s, k + 1));
    var later := Receive(after.rest, tail);
    assert ([Erase(s, k + 1)] + tail)[1..] == tail && [] + Erase(s, k + 1) == Erase(s, k + 1);
    assert [s[..k + 1]] + after.lines + later.lines == [s[..k + 1]] + (after.lines + later.lines);
  }

  /** The first newline of a stream whose front has one. */
  lemma FirstNewline(front: Bytes, tail: Bytes, k: nat)
    requires Find(front, '\n', 0) == Some(k)
    ensures Find(front + tail, '\n', 0) == Some(k) && (front + tail)[..k + 1] == front[..k + 1]
    ensures k + 2 <= |front| ==> (front + tail)[k + 2..] == front[k + 2..] + tail
    ensures k + 1 == |front| ==> (front + tail)[k + 1..] == tail
  {
    FindIs(front + tail, '\n', 0, k);
  }

  lemma ReceiveNothing(buffer: Bytes, chunks: seq<Bytes>)
    requires chunks != [] && '\n' !in buffer + chunks[0]
    ensures Receive(buffer, chunks).lines == Receive(buffer + chunks[0], chunks[1..]).lines
  {
    hide Drain;
    DrainNothing(buffer + chunks[0]);
    var later := Receive(buffer + chunks[0], chunks[1..]);
    assert [] + later.lines == later.lines;
  }

  /** What `ReceiveStep` leaves of a stream is the stream behind the first line, without its first byte if that byte
      arrived together with the line. */
  lemma StreamStep(buffer: Bytes, chunks: seq<Bytes>, k: nat)
    requires chunks != [] && Find(buffer + chunks[0], '\n', 0) == Some(k)
    ensures var s, stream := buffer + chunks[0], buffer + Concat(chunks);
            var left := Concat([Erase(s, k + 1)] + chunks[1..]);
            && Find(stream, '\n', 0) == Some(k) && stream[..k + 1] == s[..k + 1]
            && |left| < |stream| == |buffer| + |Concat(chunks)|
            && (left == stream[k + 1..] || (k + 2 <= |stream| && left == stream[k + 2..]))
  {
    hide Find;
    var s, tail := buffer + chunks[0], Concat(chunks[1..]);
    Assoc(buffer, chunks[0], tail);
    FirstNewline(s, tail, k);
    ConcatCons(Erase(s, k + 1), chunks[1..]);
    assert [] + tail == tail;
  }

  lemma ReadingStep(stream: Bytes, k: nat, later: seq<Bytes>)
    requires Find(stream, '\n', 0) == Some(k)
    requires IsReading(stream[k + 1..], later) || (k + 2 <= |stream| && IsReading(stream[k + 2..], later))
    ensures IsReading(stream, [stream[..k + 1]] + later)
  {
    hide Find;
    assert ([stream[..k + 1]] + later)[1..] == later;
  }

  lemma ReadingNone(stream: Bytes)
    requires '\n' !in stream
    ensures IsReading(stream, [])
  {
  }

  lemma {:induction false} ReceiveIsReading(buffer: Bytes, chunks: seq<Bytes>)
    requires '\n' !in buffer
    ensures IsReading(buffer + Concat(chunks), Receive(buffer, chunks).lines)
    decreases |buffer| + |Concat(chunks)|, |chunks|
  {
    hide Find, Drain, Receive, Erase, IsReading;
    if chunks == [] {
      assert buffer + [] == buffer;
      ReceiveNone(buffer);
      ReadingNone(buffer);
    } else {
      var s := buffer + chunks[0];
      var f := Find(s, '\n', 0);
      if f == None {
        ReceiveNothing(buffer, chunks);
        Assoc(buffer, chunks[0], Concat(chunks[1..]));
        ReceiveIsReading(s, chunks[1..]);
      } else {
        var after := [Erase(s, f.value + 1)] + chunks[1..];
        StreamStep(buffer, chunks, f.value);
        ReceiveStep(buffer, chunks, f.value);
        ReceiveIsReading([], after);
        assert [] + Concat(after) == Concat(after);
        ReadingStep(buffer + Concat(chunks), f.value, Receive([], after).lines);
      }
    }
  }

  lemma ReceiveNone(buffer: Bytes)
    ensures Receive(buffer, []).lines == []
  {
  }

  lemma ReceiveFirst(chunk: Bytes, line: Bytes, chunks: seq<Bytes>)
    requires Drain(chunk) == Framed([line], [])
    ensures Receive([], [chunk] + chunks).lines == [line] + Receive([], chunks).lines
    ensures Concat([chunk] + chunks) == chunk + Concat(chunks)
  {
    assert [] + chunk == chunk && ([chunk] + chunks)[1..] == chunks;
  }

  /** Some way to cut up the stream delivers these lines. */
  ghost predicate IsReceived(stream: Bytes, lines: seq<Bytes>) {
    exists chunks :: Concat(chunks) == stream && Receive([], chunks).lines == lines
  }

  lemma ReceiveMore(chunk: Bytes, line: Bytes, stream: Bytes, lines: seq<Bytes>)
    requires Drain(chunk) == Framed([line], []) && IsReceived(stream, lines)
    ensures IsReceived(chunk + stream, [line] + lines)
  {
    hide Drain, Receive, Concat;
    var chunks :| Concat(chunks) == stream && Receive([], chunks).lines == lines;
    ReceiveFirst(chunk, line, chunks);
  }

  lemma ReceiveNoLine(stream: Bytes)
    requires '\n' !in stream
    ensures IsReceived(stream, [])
  {
    hide Drain, Receive, Concat;
    DrainNothing(stream);
    ReceiveOne(stream);
    ConcatOne(stream);
  }

  /** A line that arrives on its own, or together with the byte behind it. */
  lemma ReceivedStep(stream: Bytes, k: nat, n: nat, later: seq<Bytes>)
    requires Find(stream, '\n', 0) == Some(k) && k + 1 <= n <= k + 2 && n <= |stream|
    requires IsReceived(stream[n..], later)
    ensures IsReceived(stream, [stream[..k + 1]] + later)
  {
    hide Drain, IsReceived, Find;
    var line := stream[..k + 1];
    if n == k + 1 {
      DrainOne(line);
    } else {
      DrainSkipsOnly(line, stream[k + 1]);
      assert stream[..n] == line + [stream[k + 1]];
    }
    ReceiveMore(stream[..n], line, stream[n..], later);
    assert stream[..n] + stream[n..] == stream;
  }

  lemma {:induction false} ReadingIsReceived(stream: Bytes, lines: seq<Bytes>)
    requires IsReading(stream, lines)
    ensures IsReceived(stream, lines)
    decreases |stream|
  {
    hide IsReceived, Find;
    var f := Find(stream, '\n', 0);
    if f == None {
      ReceiveNoLine(stream);
    } else {
      var n := if IsReading(stream[f.value + 1..], lines[1..]) then f.value + 1 else f.value + 2;
      ReadingIsReceived(stream[n..], lines[1..]);
      ReceivedStep(stream, f.value, n, lines[1..]);
      assert lines == [lines[0]] + lines[1..];
    }
  }

  lemma ConcatOne(chunk: Bytes)
    ensures Concat([chunk]) == chunk
  {
  }

  lemma DrainSkipsOnly(line: Bytes, c: Byte)
    requires IsLine(line)
    ensures Drain(line + [c]) == Framed([line], [])
  {
    DrainSkips(line, c, []);
    assert [c] + [] == [c] && Drain([]) == Framed([], []);
  }

  /** The lines a session reads from a stream, over all ways to cut it up, are exactly its readings. */
  lemma ReadingsExactly(stream: Bytes, lines: seq<Bytes>)
    ensures IsReceived(stream, lines) <==> IsReading(stream, lines)
  {
    hide Receive, IsReading, Concat;
    forall chunks | Concat(chunks) == stream && Receive([], chunks).lines == lines
      ensures IsReading(stream, lines)
    {
      ReceiveIsReading([], chunks);
      assert [] + stream == stream;
    }
    if IsReading(stream, lines) { ReadingIsReceived(stream, lines); }
  }

  // ---- Streams of one line, and the ends of longer ones ----

  lemma ReadingOfLine(line: Bytes, lines: seq<Bytes>)
    requires IsLine(line) && IsReading(line, lines)
    ensures lines == [line]
  {
    FindIs(line, '\n', 0, |line| - 1);
    assert line[..|line|] == line && line[|line|..] == [];
    assert lines[1..] == [];
  }

  /** A stream that ends in a line of at least two bytes: what is read ends with that line, whole or without its first
      byte, and has nothing else behind its first line when everything before is one line. */
  lemma {:induction false} ReadingEnds(front: Bytes, line: Bytes, lines: seq<Bytes>)
    requires Last(front) == Some('\n') && IsLine(line) && |line| >= 2 && IsReading(front + line, lines)
    ensures |lines| >= 2 && (lines[|lines| - 1] == line || lines[|lines| - 1] == line[1..])
    ensures IsLine(front) ==> lines == [front, line] || lines == [front, line[1..]]
    decreases |front|
  {
    hide IsReading, Find;
    var s := front + line;
    var k := FirstLine(front, line, lines);
    assert lines == [lines[0]] + lines[1..];
    var j := if IsReading(s[k + 1..], lines[1..]) then k + 1 else k + 2;
    if j < |front| {
      assert s[j..] == front[j..] + line && Last(front[j..]) == Some('\n');
      ReadingEnds(front[j..], line, lines[1..]);
      assert k + 1 < |front| && front[k] == '\n';
    } else if j == |front| {
      assert s[j..] == line && front[..|front|] == front;
      ReadingOfLine(line, lines[1..]);
    } else {
      assert s[j..] == line[1..] && IsLine(line[1..]) && front[..|front|] == front;
      ReadingOfLine(line[1..], lines[1..]);
    }
  }

  lemma FirstLine(front: Bytes, tail: Bytes, lines: seq<Bytes>) returns (k: nat)
    requires Last(front) == Some('\n') && IsReading(front + tail, lines)
    ensures k < |front| && front[k] == '\n' && lines != [] && lines[0] == front[..k + 1]
    ensures k + 1 < |front| ==> !IsLine(front)
    ensures IsReading((front + tail)[k + 1..], lines[1..])
            || (k + 2 <= |front + tail| && IsReading((front + tail)[k + 2..], lines[1..]))
  {
    k := Find(front, '\n', 0).value;
    FirstNewline(front, tail, k);
  }

  ghost predicate IsPiece(part: Bytes, s: Bytes) {
    exists a: nat, b: nat :: IsSlice(part, s, a, b)
  }

  predicate IsSlice(part: Bytes, s: Bytes, a: nat, b: nat) {
    a <= b <= |s| && part == s[a..b]
  }

  lemma PieceOfSuffix(part: Bytes, s: Bytes, from: nat)
    requires from <= |s| && IsPiece(part, s[from..])
    ensures IsPiece(part, s)
  {
    var a: nat, b: nat :| IsSlice(part, s[from..], a, b);
    assert s[from..][a..b] == s[from + a..from + b];
    assert IsSlice(part, s, from + a, from + b);
  }

  /** Every line that is read before the last one is a piece of what was sent before the last one. */
  lemma {:induction false} ReadingPieces(front: Bytes, line: Bytes, lines: seq<Bytes>)
    requires front == [] || Last(front) == Some('\n')
    requires IsLine(line) && |line| >= 2 && IsReading(front + line, lines)
    ensures lines != [] && forall i :: 0 <= i < |lines| - 1 ==> IsPiece(lines[i], front)
    decreases |front|, 0
  {
    hide IsReading, Find, IsPiece;
    if front == [] {
      assert front + line == line;
      ReadingOfLine(line, lines);
    } else {
      var k := FirstLine(front, line, lines);
      FirstIsPiece(front, k + 1);
      ReadingAfter(front, line, lines, k);
    }
  }

  lemma FirstIsPiece(s: Bytes, n: nat)
    requires n <= |s|
    ensures IsPiece(s[..n], s)
  {
    assert s[..n] == s[0..n];
    assert IsSlice(s[..n], s, 0, n);
  }

  /** The same for the lines behind the first newline. */
  lemma {:induction false} ReadingAfter(front: Bytes, line: Bytes, lines: seq<Bytes>, k: nat)
    requires k < |front| && Last(front) == Some('\n') && IsLine(line) && |line| >= 2 && lines != []
    requires IsReading((front + line)[k + 1..], lines[1..]) || IsReading((front + line)[k + 2..], lines[1..])
    ensures forall i :: 1 <= i < |lines| - 1 ==> IsPiece(lines[i], front[k + 1..]) && IsPiece(lines[i], front)
    decreases |front| - k - 1, 1
  {
    hide IsReading, IsPiece;
    var s := front + line;
    var j := if IsReading(s[k + 1..], lines[1..]) then k + 1 else k + 2;
    if j <= |front| {
      assert s[j..] == front[j..] + line;
      ReadingPieces(front[j..], line, lines[1..]);
      forall i | 1 <= i < |lines| - 1
        ensures IsPiece(lines[i], front[k + 1..]) && IsPiece(lines[i], front)
      {
        assert lines[i] == lines[1..][i - 1];
        assert front[k + 1..][j - (k + 1)..] == front[j..];
        PieceOfSuffix(lines[i], front[k + 1..], j - (k + 1));
        PieceOfSuffix(lines[i], front, k + 1);
      }
    } else {
      assert s[j..] == line[1..];
      ReadingOfLine(line[1..], lines[1..]);
    }
  }

  /** If the front starts with a part without a newline, then what is read between the first and the last line is a
      piece of the rest of it. */
  lemma ReadingBetween(head: Bytes, body: Bytes, line: Bytes, lines: seq<Bytes>)
    requires '\n' !in head && Last(body) == Some('\n') && IsLine(line) && |line| >= 2
    requires IsReading(head + body + line, lines)
    ensures forall i :: 1 <= i < |lines| - 1 ==> IsPiece(lines[i], body)
  {
    hide IsReading, IsPiece;
    var front := head + body;
    var k := FirstLine(front, line, lines);
    assert k >= |head|;
    ReadingAfter(front, line, lines, k);
    forall i | 1 <= i < |lines| - 1
      ensures IsPiece(lines[i], body)
    {
      assert front[k + 1..] == body[k + 1 - |head|..];
      PieceOfSuffix(lines[i], body, k + 1 - |head|);
    }
  }

  // ---- Empty lines ----

  lemma {:induction false} ReadLinesAreLines(stream: Bytes, lines: seq<Bytes>)
    requires IsReading(stream, lines)
    ensures forall i :: 0 <= i < |lines| ==> IsLine(lines[i])
    decreases |stream|
  {
    hide Find;
    if lines != [] {
      var k := Find(stream, '\n', 0).value;
      if IsReading(stream[k + 1..], lines[1..]) {
        ReadLinesAreLines(stream[k + 1..], lines[1..]);
      } else {
        ReadLinesAreLines(stream[k + 2..], lines[1..]);
      }
      assert forall i :: 1 <= i < |lines| ==> lines[i] == lines[1..][i - 1];
    }
  }

  predicate IsEmptyLine(line: Bytes) {
    line == "\n" || line == "\r\n"
  }

  lemma ChompedAway(line: Bytes)
    requires IsLine(line)
    ensures Chomp(line) == [] <==> IsEmptyLine(line)
  {
    assert line == line[..|line| - 1] + "\n";
  }

  /** An empty text is dispatched just when a line was read empty, with or without a carriage return. When no chunk
      carries a byte past a newline, that is just when the peer sent an empty line. */
  lemma EmptyTextExactly(chunks: seq<Bytes>)
    ensures [] in Dispatched(Receive([], chunks).lines) <==>
            exists i :: 0 <= i < |Receive([], chunks).lines| && IsEmptyLine(Receive([], chunks).lines[i])
    ensures AllWellPaced(chunks) ==>
              ([] in Dispatched(Receive([], chunks).lines) <==>
               exists i :: 0 <= i < |Lines(Concat(chunks)).lines| && IsEmptyLine(Lines(Concat(chunks)).lines[i]))
  {
    hide Receive, IsEmptyLine, Chomp, IsLine, IsReading, Lines;
    var lines := Receive([], chunks).lines;
    ReceiveIsReading([], chunks);
    ReadLinesAreLines([] + Concat(chunks), lines);
    forall i | 0 <= i < |lines|
      ensures Dispatched(lines)[i] == [] <==> IsEmptyLine(lines[i])
    {
      ChompedAway(lines[i]);
    }
    if AllWellPaced(chunks) { FramingExact(chunks); }
  }

  lemma LinesOfTwo(first: Bytes, second: Bytes)
    requires IsLine(first) && IsLine(second)
    ensures Lines(first + second).lines == [first, second]
  {
    LinesOfTail(first, second);
    LinesOfOne(second);
  }

  /** Otherwise it is not: a line of one byte that is lost is read as empty, though no empty line was sent, and an empty
      line that is lost is not read at all. */
  lemma LostByteMakesEmpty()
    ensures Dispatched(Receive([], ["/a\nx\n"]).lines) == ["/a", ""] && Lines("/a\nx\n").lines == ["/a\n", "x\n"]
    ensures Dispatched(Receive([], ["/a\n\n"]).lines) == ["/a"] && Lines("/a\n\n").lines == ["/a\n", "\n"]
  {
    hide Drain, Receive, Lines;
    var a, end: Bytes := "/a\n", "\n";
    assert "/a\nx\n" == a + (['x'] + end) == a + "x\n" && "/a\n\n" == a + ['\n'] == a + end;
    ReceiveOne("/a\nx\n");
    DrainSkips(a, 'x', end);
    DrainOne(end);
    ReceiveOne("/a\n\n");
    DrainSkipsOnly(a, '\n');
    LinesOfTwo(a, "x\n");
    LinesOfTwo(a, end);
    assert Chomp(a) == "/a" && Chomp(end) == "";
  }
}
