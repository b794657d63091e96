/** The text protocol as `Session` reads it: framing by lines, and splitting a line into fields. */
module Wire {
  import opened Strings

  // ---- Fields of a line (src/service/session.cpp) ----

  /** Splitting at every space; a text without spaces is one field. */
  function Split(s: Bytes): (r: seq<Bytes>)
    ensures r != []
  {
    if s == [] then [[]]
    else
      var r := Split(s[1..]);
      if s[0] == ' ' then [[]] + r else [[s[0]] + r[0]] + r[1..]
  }

  function DropEmptyLast(fields: seq<Bytes>): seq<Bytes> {
    if fields != [] && fields[|fields| - 1] == [] then fields[..|fields| - 1] else fields
  }

  /** What `parse` yields. */
  function Fields(line: Bytes): seq<Bytes> {
    DropEmptyLast(Split(line))
  }

  function Join(fields: seq<Bytes>): Bytes {
    if fields == [] then []
    else if |fields| == 1 then fields[0]
    else fields[0] + " " + Join(fields[1..])
  }

  predicate SpaceFree(fields: seq<Bytes>) {
    forall i :: 0 <= i < |fields| ==> ' ' !in fields[i]
  }

  lemma {:induction false} SplitSingle(field: Bytes)
    requires ' ' !in field
    ensures Split(field) == [field]
  {
    if field != [] {
      SplitSingle(field[1..]);
      assert [field[0]] + field[1..] == field;
    }
  }

  /** Splitting at a space in a text splits both sides on their own. */
  lemma {:induction false} SplitConcat(s: Bytes, t: Bytes)
    ensures Split(s + ([' '] + t)) == Split(s) + Split(t)
  {
    var whole := s + ([' '] + t);
    if s == [] {
      assert whole[1..] == t;
    } else {
      assert whole[1..] == s[1..] + ([' '] + t);
      SplitConcat(s[1..], t);
      SplitCons(s[0], Split(s[1..]), Split(t));
    }
  }

  lemma SplitCons(c: Byte, r: seq<Bytes>, more: seq<Bytes>)
    requires r != []
    ensures [[]] + (r + more) == ([[]] + r) + more
    ensures [[c] + (r + more)[0]] + (r + more)[1..] == ([[c] + r[0]] + r[1..]) + more
  {
    assert (r + more)[1..] == r[1..] + more;
  }

  /** A space-free field in front of a space comes off whole. */
  lemma SplitFirst(field: Bytes, rest: Bytes)
    requires ' ' !in field
    ensures Split(field + ([' '] + rest)) == [field] + Split(rest)
  {
    SplitConcat(field, rest);
    SplitSingle(field);
  }

  lemma {:induction false} SplitJoin(fields: seq<Bytes>)
    requires fields != [] && SpaceFree(fields)
    ensures Split(Join(fields)) == fields
  {
    if |fields| == 1 {
      SplitSingle(fields[0]);
    } else {
      SplitJoin(fields[1..]);
      SplitFirst(fields[0], Join(fields[1..]));
      Assoc(fields[0], " ", Join(fields[1..]));
    }
  }

  lemma JoinSpace(r: seq<Bytes>)
    requires r != []
    ensures Join([[]] + r) == [' '] + Join(r)
  {
    assert ([[]] + r)[1..] == r;
    assert [] + " " + Join(r) == [' '] + Join(r);
  }

  lemma JoinByte(c: Byte, r: seq<Bytes>)
    requires r != []
    ensures Join([[c] + r[0]] + r[1..]) == [c] + Join(r)
  {
    var q := [[c] + r[0]] + r[1..];
    assert q[1..] == r[1..];
    if |r| > 1 {
      Assoc([c], r[0], " ");
      Assoc([c], r[0] + " ", Join(r[1..]));
    }
  }

  /** Fields never hold a space, and joined by single spaces they give the text back. */
  lemma {:induction false} JoinSplit(s: Bytes)
    ensures SpaceFree(Split(s)) && Join(Split(s)) == s
  {
    hide Join;
    if s == [] {
      JoinOne([]);
    } else {
      var r := Split(s[1..]);
      JoinSplit(s[1..]);
      assert s == [s[0]] + s[1..];
      if s[0] == ' ' {
        JoinSpace(r);
      } else {
        JoinByte(s[0], r);
      }
    }
  }

  lemma JoinOne(field: Bytes)
    ensures Join([field]) == field
  {
  }

  /** `parse` recovers a list of space-free fields from their joining just when the last one is not empty. */
  lemma ParseInvertsJoin(fields: seq<Bytes>)
    requires fields != [] && SpaceFree(fields)
    ensures Fields(Join(fields)) == fields <==> fields[|fields| - 1] != []
  {
    SplitJoin(fields);
  }

  lemma DropEmptyLastAfter(a: seq<Bytes>, b: seq<Bytes>)
    requires b != []
    ensures DropEmptyLast(a + b) == a + DropEmptyLast(b)
  {
    assert (a + b)[..|a + b| - 1] == a + b[..|b| - 1];
  }

  /** The first field ends at the first space. */
  lemma FieldsAtSpace(command: Bytes, pos: nat)
    requires Find(command, ' ', 0) == Some(pos)
    ensures Fields(command) == [command[..pos]] + Fields(command[pos + 1..])
  {
    hide Find, Split;
    var name, args := command[..pos], command[pos + 1..];
    assert forall i :: 0 <= i < pos ==> name[i] == command[i] && command[i] != ' ';
    assert command == name + ([' '] + args);
    SplitFirst(name, args);
    DropEmptyLastAfter([name], Split(args));
  }

  lemma FirstField(s: Bytes)
    requires Fields(s) != []
    ensures s != [] && (Fields(s)[0] == [] <==> s[0] == ' ')
  {
  }

  /** Splitting the rest of a text, with `temp` read before it. */
  function SplitOnto(temp: Bytes, rest: Bytes): seq<Bytes> {
    [temp + Split(rest)[0]] + Split(rest)[1..]
  }

  lemma SplitOntoStep(temp: Bytes, rest: Bytes)
    requires rest != []
    ensures rest[0] == ' ' ==> SplitOnto(temp, rest) == [temp] + SplitOnto([], rest[1..])
    ensures rest[0] != ' ' ==> SplitOnto(temp, rest) == SplitOnto(temp + [rest[0]], rest[1..])
  {
    var r := Split(rest[1..]);
    assert r == [r[0]] + r[1..];
    if rest[0] == ' ' {
      assert temp + [] == temp && [] + r[0] == r[0];
      assert ([[]] + r)[1..] == r;
    } else {
      Assoc(temp, [rest[0]], r[0]);
    }
  }

  lemma SplitOntoNothing(rest: Bytes)
    ensures SplitOnto([], rest) == Split(rest)
  {
    var r := Split(rest);
    assert r == [r[0]] + r[1..] && [] + r[0] == r[0];
  }

  lemma SplitOntoEnd(temp: Bytes)
    ensures SplitOnto(temp, []) == [temp]
  {
    assert temp + [] == temp;
  }

  lemma AssocFields(a: seq<Bytes>, b: seq<Bytes>, c: seq<Bytes>)
    ensures a + b + c == a + (b + c)
  {
  }

  /** `Session::parse`. */
  method Parse(line: Bytes) returns (commands: seq<Bytes>)
    ensures commands == Fields(line)
  {
    if line == [] {
      return [];
    }
    hide Split;
    commands := [];
    var temp: Bytes := [];
    SplitOntoNothing(line);
    assert line[0..] == line;
    for i := 0 to |line|
      invariant commands + SplitOnto(temp, line[i..]) == Split(line)
    {
      SplitOntoStep(temp, line[i..]);
      assert line[i..][1..] == line[i + 1..];
      if line[i] == ' ' {
        AssocFields(commands, [temp], SplitOnto([], line[i + 1..]));
        commands := commands + [temp];
        temp := [];
      } else {
        temp := temp + [line[i]];
      }
    }
    SplitOntoEnd(temp);
    assert line[|line|..] == [];
    assert (commands + [temp])[..|commands|] == commands;
    if temp != [] {
      commands := commands + [temp];
    }
  }

  // ---- Lines of a stream ----

  /** Lines as read, each with its newline, and the bytes left in the buffer. */
  datatype Framed = Framed(lines: seq<Bytes>, rest: Bytes)

  /** What `do_read` keeps after a line of `length` bytes: `erase(0, length + 1)` also drops the byte that follows
      the newline, if there is one. */
  function Erase(buffer: Bytes, length: nat): Bytes {
    if length + 1 <= |buffer| then buffer[length + 1..] else []
  }

  /** All the lines that one arrival of data completes. */
  function Drain(buffer: Bytes): (r: Framed)
    ensures '\n' !in r.rest
    decreases |buffer|
  {
    match Find(buffer, '\n', 0)
    case None => Framed([], buffer)
    case Some(k) =>
      var later := Drain(Erase(buffer, k + 1));
      Framed([buffer[..k + 1]] + later.lines, later.rest)
  }

  /** The lines read while `chunks` arrive one after another. */
  function Receive(buffer: Bytes, chunks: seq<Bytes>): Framed
    decreases |chunks|
  {
    if chunks == [] then Framed([], buffer)
    else
      var first := Drain(buffer + chunks[0]);
      var later := Receive(first.rest, chunks[1..]);
      Framed(first.lines + later.lines, later.rest)
  }

  /** What is handed to `execute_command`: the line without `\n` and without one `\r` before it. */
  function Dispatched(lines: seq<Bytes>): seq<Bytes> {
    seq(|lines|, i requires 0 <= i < |lines| => Chomp(lines[i]))
  }

  lemma DrainStep(buffer: Bytes)
    requires '\n' in buffer
    ensures var k := Find(buffer, '\n', 0);
            && k.Some?
            && Dispatched(Drain(buffer).lines) ==
               [Chomp(buffer[..k.value + 1])] + Dispatched(Drain(Erase(buffer, k.value + 1)).lines)
            && Drain(buffer).rest == Drain(Erase(buffer, k.value + 1)).rest
  {
  }

  lemma DrainNothing(buffer: Bytes)
    requires '\n' !in buffer
    ensures Drain(buffer) == Framed([], buffer) && Dispatched(Drain(buffer).lines) == []
  {
  }

  /** The same cut without losing a byte. */
  function Lines(stream: Bytes): Framed
    decreases |stream|
  {
    match Find(stream, '\n', 0)
    case None => Framed([], stream)
    case Some(k) =>
      var later := Lines(stream[k + 1..]);
      Framed([stream[..k + 1]] + later.lines, later.rest)
  }

  function Concat(parts: seq<Bytes>): Bytes {
    if parts == [] then [] else parts[0] + Concat(parts[1..])
  }

  /** No byte follows a newline within the chunk. */
  predicate WellPaced(chunk: Bytes) {
    forall i :: 0 <= i < |chunk| - 1 ==> chunk[i] != '\n'
  }

  predicate AllWellPaced(chunks: seq<Bytes>) {
    forall i :: 0 <= i < |chunks| ==> WellPaced(chunks[i])
  }

  lemma {:induction false} ConcatAppend(a: seq<Bytes>, b: seq<Bytes>)
    ensures Concat(a + b) == Concat(a) + Concat(b)
  {
    if a == [] {
      assert a + b == b;
    } else {
      assert (a + b)[1..] == a[1..] + b;
      ConcatAppend(a[1..], b);
      Assoc(a[0], Concat(a[1..]), Concat(b));
    }
  }

  /** A newline-free buffer and a well-paced chunk: either nothing is complete, or all of it is one line and the
      buffer ends up empty. */
  lemma DrainWellPaced(buffer: Bytes, chunk: Bytes)
    requires '\n' !in buffer && WellPaced(chunk)
    ensures Drain(buffer + chunk) == Lines(buffer + chunk)
    ensures var r := Drain(buffer + chunk);
            r == Framed([], buffer + chunk) || (r == Framed([buffer + chunk], []) && Last(buffer + chunk) == Some('\n'))
  {
    var s := buffer + chunk;
    var f := Find(s, '\n', 0);
    if f.Some? && f.value < |s| - 1 {
      NewlineInChunk(buffer, chunk, f.value);
    }
    if f.Some? {
      assert s[..|s|] == s;
      assert s[|s|..] == [];
      assert Drain([]) == Framed([], []) == Lines([]);
    }
  }

  function Last(s: Bytes): Option<Byte> {
    if s == [] then None else Some(s[|s| - 1])
  }

  lemma NewlineInChunk(buffer: Bytes, chunk: Bytes, k: nat)
    requires '\n' !in buffer && k < |buffer + chunk| && (buffer + chunk)[k] == '\n'
    ensures |buffer| <= k && chunk[k - |buffer|] == '\n'
  {
  }

  lemma {:induction false} LinesOfTail(line: Bytes, tail: Bytes)
    requires line != [] && Last(line) == Some('\n') && WellPaced(line)
    ensures Lines(line + tail) == Framed([line] + Lines(tail).lines, Lines(tail).rest)
  {
    var s := line + tail;
    FindIs(s, '\n', 0, |line| - 1);
    assert s[..|line|] == line && s[|line|..] == tail;
  }

  lemma LinesOfOne(line: Bytes)
    requires line != [] && Last(line) == Some('\n') && WellPaced(line)
    ensures Lines(line) == Framed([line], [])
  {
    LinesOfTail(line, []);
    assert line + [] == line && Lines([]) == Framed([], []);
  }

  /** A whole line is well paced: its only newline ends it. */
  lemma DrainedLineIsPaced(buffer: Bytes, chunk: Bytes)
    requires '\n' !in buffer && WellPaced(chunk)
    ensures WellPaced(buffer + chunk)
  {
    var s := buffer + chunk;
    forall i | 0 <= i < |s| - 1
      ensures s[i] != '\n'
    {
      if s[i] == '\n' {
        NewlineInChunk(buffer, chunk, i);
      }
    }
  }

  /** Whatever the chunking, well-paced data is cut exactly where the stream has its newlines. */
  lemma {:induction false} ReceiveWellPaced(buffer: Bytes, chunks: seq<Bytes>)
    requires '\n' !in buffer && AllWellPaced(chunks)
    ensures Receive(buffer, chunks) == Lines(buffer + Concat(chunks))
    decreases |chunks|
  {
    if chunks == [] {
      assert buffer + [] == buffer;
    } else {
      var s, tail := buffer + chunks[0], Concat(chunks[1..]);
      DrainWellPaced(buffer, chunks[0]);
      Assoc(buffer, chunks[0], tail);
      var first := Drain(s);
      ReceiveWellPaced(first.rest, chunks[1..]);
      if first.lines == [] {
        assert [] + Receive(s, chunks[1..]).lines == Receive(s, chunks[1..]).lines;
      } else {
        assert [] + tail == tail;
        DrainedLineIsPaced(buffer, chunks[0]);
        LinesOfTail(s, tail);
      }
    }
  }

  /** `Lines` cuts a stream after each newline and nowhere else, and keeps every byte. */
  lemma {:induction false} LinesKeepAll(stream: Bytes)
    ensures Concat(Lines(stream).lines) + Lines(stream).rest == stream
    ensures forall i :: 0 <= i < |Lines(stream).lines| ==> IsLine(Lines(stream).lines[i])
    ensures '\n' !in Lines(stream).rest
    decreases |stream|
  {
    hide Find;
    var f := Find(stream, '\n', 0);
    if f.Some? {
      var head, tail := stream[..f.value + 1], stream[f.value + 1..];
      LinesKeepAll(tail);
      ConcatCons(head, Lines(tail).lines);
      Assoc(head, Concat(Lines(tail).lines), Lines(tail).rest);
      assert head + tail == stream;
    }
  }

  /** A line's one newline is its last byte. */
  predicate IsLine(line: Bytes) {
    Last(line) == Some('\n') && WellPaced(line)
  }

  lemma ConcatCons(a: Bytes, b: seq<Bytes>)
    ensures Concat([a] + b) == a + Concat(b)
  {
    assert ([a] + b)[1..] == b;
  }

  /** Bytes that reached a line or stayed in the buffer. */
  function Kept(f: Framed): nat {
    |Concat(f.lines)| + |f.rest|
  }

  lemma {:induction false} DrainKeepsAtMost(buffer: Bytes)
    ensures Kept(Drain(buffer)) <= |buffer|
    ensures Find(buffer, '\n', 0).Some? && Find(buffer, '\n', 0).value < |buffer| - 1 ==> Kept(Drain(buffer)) < |buffer|
    decreases |buffer|
  {
    var f := Find(buffer, '\n', 0);
    if f.Some? {
      var r := Drain(buffer);
      DrainKeepsAtMost(Erase(buffer, f.value + 1));
      assert r.lines[1..] == Drain(Erase(buffer, f.value + 1)).lines;
    }
  }

  lemma DrainLoses(buffer: Bytes, chunk: Bytes)
    requires !WellPaced(chunk)
    ensures Kept(Drain(buffer + chunk)) < |buffer| + |chunk|
  {
    var i :| 0 <= i < |chunk| - 1 && chunk[i] == '\n';
    var s := buffer + chunk;
    assert s[|buffer| + i] == '\n';
    DrainKeepsAtMost(s);
  }

  lemma {:induction false} ReceiveKeepsAtMost(buffer: Bytes, chunks: seq<Bytes>)
    ensures Kept(Receive(buffer, chunks)) <= |buffer| + |Concat(chunks)|
    ensures !AllWellPaced(chunks) ==> Kept(Receive(buffer, chunks)) < |buffer| + |Concat(chunks)|
    decreases |chunks|
  {
    if chunks != [] {
      var first := Drain(buffer + chunks[0]);
      DrainKeepsAtMost(buffer + chunks[0]);
      ReceiveKeepsAtMost(first.rest, chunks[1..]);
      ConcatAppend(first.lines, Receive(first.rest, chunks[1..]).lines);
      if !WellPaced(chunks[0]) {
        DrainLoses(buffer, chunks[0]);
      } else if !AllWellPaced(chunks) {
        var i :| 0 <= i < |chunks| && !WellPaced(chunks[i]);
        assert chunks[1..][i - 1] == chunks[i];
      }
    }
  }

  /** The lines dispatched from an empty buffer are the lines sent, each complete and in order, just when no chunk
      carries a byte past a newline; otherwise bytes are lost. */
  lemma FramingExact(chunks: seq<Bytes>)
    ensures Receive([], chunks) == Lines(Concat(chunks)) <==> AllWellPaced(chunks)
    ensures Concat(Receive([], chunks).lines) + Receive([], chunks).rest == Concat(chunks) <==> AllWellPaced(chunks)
  {
    ReceiveKeepsAtMost([], chunks);
    LinesKeepAll(Concat(chunks));
    assert [] + Concat(chunks) == Concat(chunks);
    if AllWellPaced(chunks) {
      ReceiveWellPaced([], chunks);
    }
  }

  lemma DrainOne(line: Bytes)
    requires IsLine(line)
    ensures Drain(line) == Framed([line], [])
  {
    hide Drain;
    assert [] + line == line;
    DrainWellPaced([], line);
    LinesOfOne(line);
  }

  /** The byte behind a complete line is lost, whatever it is. */
  lemma DrainSkips(line: Bytes, c: Byte, rest: Bytes)
    requires IsLine(line)
    ensures Drain(line + ([c] + rest)) == Framed([line] + Drain(rest).lines, Drain(rest).rest)
  {
    var s := line + ([c] + rest);
    FindIs(s, '\n', 0, |line| - 1);
    assert s[..|line|] == line && Erase(s, |line|) == rest;
  }

  /** Two commands in one segment: the first byte of the second is gone. */
  lemma PipelinedByteIsLost()
    ensures Dispatched(Receive([], ["/a\n/b\n"]).lines) == ["/a", "b"]
  {
    hide Drain, Find;
    var s, first, second: Bytes := "/a\n/b\n", "/a\n", "b\n";
    assert s == first + (['/'] + second) && [] + s == s;
    DrainSkips(first, '/', second);
    DrainOne(second);
    ReceiveOne(s);
    assert Drain(s).lines == [first, second];
    assert Chomp(first) == "/a" && Chomp(second) == "b";
  }

  lemma ReceiveOne(chunk: Bytes)
    ensures Receive([], [chunk]) == Drain(chunk)
  {
    hide Drain;
    var r := Drain(chunk);
    assert [] + chunk == chunk && [chunk][1..] == [] && r.lines + [] == r.lines;
  }

  lemma {:induction false} PacedInParts(chunks: seq<Bytes>)
    requires WellPaced(Concat(chunks))
    ensures AllWellPaced(chunks)
  {
    if chunks != [] {
      var s, tail := Concat(chunks), Concat(chunks[1..]);
      assert forall i :: 0 <= i < |chunks[0]| ==> s[i] == chunks[0][i];
      assert forall i :: 0 <= i < |tail| ==> s[|chunks[0]| + i] == tail[i];
      PacedInParts(chunks[1..]);
      assert forall i :: 1 <= i < |chunks| ==> chunks[i] == chunks[1..][i - 1];
    }
  }
}
