/** The client: the token it splices into the commands it sends, and how it picks that token out of what it reads. */
module Clients {
  import opened Strings
  import opened Readings
  import opened Wire

  const TOKEN_PREFIX: Bytes := "TOKEN: "

  /** `s.find(part) != npos`. */
  predicate Contains(s: Bytes, part: Bytes) {
    part <= s || (s != [] && Contains(s[1..], part))
  }

  predicate IsAt(s: Bytes, part: Bytes, k: nat) {
    k + |part| <= |s| && s[k..k + |part|] == part
  }

  /** `find` searches everywhere. */
  lemma {:induction false} ContainsIff(s: Bytes, part: Bytes)
    ensures Contains(s, part) <==> exists k: nat :: IsAt(s, part, k)
  {
    if part <= s {
      assert IsAt(s, part, 0);
    } else if s != [] {
      ContainsIff(s[1..], part);
      forall k: nat | IsAt(s[1..], part, k)
        ensures IsAt(s, part, k + 1)
      {
        assert s[1..][k..k + |part|] == s[k + 1..k + 1 + |part|];
      }
      forall k: nat | IsAt(s, part, k)
        ensures k > 0 && IsAt(s[1..], part, k - 1)
      {
        assert s[0..|part|] == s[..|part|];
        if k > 0 { assert s[1..][k - 1..k - 1 + |part|] == s[k..k + |part|]; }
      }
    }
  }

  /** `command.insert(pos + 1, token + " ")`. */
  function Splice(command: Bytes, pos: nat, token: Bytes): Bytes
    requires pos < |command|
  {
    command[..pos + 1] + (token + " ") + command[pos + 1..]
  }

  /** A text that names a login or a registration anywhere goes out without a token. */
  predicate SentAsTyped(command: Bytes) {
    Contains(command, "/login") || Contains(command, "/register")
  }

  /** The line, without its newline, that one round of `do_write` sends for a typed command; `None` when it sends
      nothing. */
  function Outgoing(token: Bytes, command: Bytes): Option<Bytes> {
    if command == "/quit" || command == "/commands" then Some(command)
    else
      match Find(command, ' ', 0)
      case None => None
      case Some(pos) => Some(if SentAsTyped(command) then command else Splice(command, pos, token))
  }

  /** What goes out for a typed text, written out: `/quit` and `/commands` as they are; nothing for another text without
      a space; a text with "/login" or "/register" anywhere as typed; any other with the token and a space behind its
      first space. */
  lemma OutgoingExactly(token: Bytes, typed: Bytes)
    ensures typed == "/quit" || typed == "/commands" ==> Outgoing(token, typed) == Some(typed)
    ensures ' ' !in typed && typed != "/quit" && typed != "/commands" ==> Outgoing(token, typed) == None
    ensures ' ' in typed && (exists k: nat :: IsAt(typed, "/login", k) || IsAt(typed, "/register", k)) ==>
              Outgoing(token, typed) == Some(typed)
    ensures forall name: Bytes, rest: Bytes |
              ' ' !in name && typed == name + " " + rest
              && !(exists k: nat :: IsAt(typed, "/login", k) || IsAt(typed, "/register", k)) ::
              Outgoing(token, typed) == Some(name + " " + token + " " + rest)
  {
    hide Contains;
    ContainsIff(typed, "/login");
    ContainsIff(typed, "/register");
    forall name: Bytes, rest: Bytes | ' ' !in name && typed == name + " " + rest
      ensures Find(typed, ' ', 0) == Some(|name|)
      ensures Splice(typed, |name|, token) == name + " " + token + " " + rest
    {
      SpliceIs(name, rest, token);
    }
  }

  lemma SpliceIs(name: Bytes, rest: Bytes, token: Bytes)
    requires ' ' !in name
    ensures Find(name + " " + rest, ' ', 0) == Some(|name|)
    ensures Splice(name + " " + rest, |name|, token) == name + " " + token + " " + rest
  {
    var typed := name + " " + rest;
    FindIs(typed, ' ', 0, |name|);
    assert typed[..|name| + 1] == name + " " && typed[|name| + 1..] == rest;
    assert name + " " + (token + " ") + rest == name + " " + token + " " + rest;
  }

  /** The fields of a command with those of a token behind its name. */
  function WithToken(fields: seq<Bytes>, token: Bytes): seq<Bytes> {
    if fields == [] then [] else [fields[0]] + Split(token) + fields[1..]
  }

  /** The token the client holds after one read that returned `answer`. */
  function TokenAfter(token: Bytes, answer: Bytes): Bytes {
    if !Contains(answer, TOKEN_PREFIX) then token
    else
      match Find(answer, ' ', 0)
      case None => token
      case Some(pos) => Chomp(answer[pos + 1..])
  }

  /** A spliced command is parsed into its name, the fields of the token (the token itself, when it has no space), and
      the fields of what followed the name. */
  lemma SpliceThenParse(command: Bytes, pos: nat, token: Bytes)
    requires Find(command, ' ', 0) == Some(pos)
    ensures Fields(Splice(command, pos, token)) == [command[..pos]] + Split(token) + Fields(command[pos + 1..])
    ensures ' ' !in token ==> Split(token) == [token]
  {
    hide Find, Split;
    var name, args := command[..pos], command[pos + 1..];
    assert forall i :: 0 <= i < pos ==> name[i] == command[i] && command[i] != ' ';
    var tail := token + ([' '] + args);
    SplitConcat(token, args);
    SplitFirst(name, tail);
    assert command[..pos + 1] == name + [' '];
    assert Splice(command, pos, token) == name + ([' '] + tail);
    AssocFields([name], Split(token), Split(args));
    DropEmptyLastAfter([name] + Split(token), Split(args));
    if ' ' !in token { SplitSingle(token); }
  }

  /** What parsing a sent text gives: the fields that were typed, with those of the token behind the first of them
      unless the text names a login or a registration. */
  lemma OutgoingFields(token: Bytes, typed: Bytes)
    requires Outgoing(token, typed).Some?
    ensures Fields(Outgoing(token, typed).value) ==
            if ' ' in typed && !SentAsTyped(typed) then WithToken(Fields(typed), token) else Fields(typed)
  {
    hide Split, SentAsTyped, Splice, Fields;
    var pos := Find(typed, ' ', 0);
    if pos.Some? {
      SpliceThenParse(typed, pos.value, token);
      FieldsAtSpace(typed, pos.value);
    }
  }

  class Client {
    var token: Bytes

    constructor ()
      ensures token == []
    {
      token := [];
    }

    /** One round of `do_write`. */
    method Write(typed: Bytes) returns (sent: Option<Bytes>)
      ensures sent == None <==> ' ' !in typed && typed != "/quit" && typed != "/commands"
      ensures sent.Some? ==> Outgoing(token, typed).Some? && sent.value == Outgoing(token, typed).value + "\n"
      ensures sent.Some? && '\n' !in typed ==>
                ('\n' in sent.value[..|sent.value| - 1] <==> '\n' in token && ' ' in typed && !SentAsTyped(typed))
      ensures sent.Some? ==>
                Fields(sent.value[..|sent.value| - 1]) ==
                if ' ' in typed && !SentAsTyped(typed) then WithToken(Fields(typed), token) else Fields(typed)
    {
      hide Contains, Fields, WithToken;
      if Outgoing(token, typed).Some? {
        OutgoingFields(token, typed);
        if '\n' !in typed { OutgoingBytes(token, typed); }
        assert (Outgoing(token, typed).value + "\n")[..|Outgoing(token, typed).value|] == Outgoing(token, typed).value;
      }
      var command := typed;
      if command == [] {
        return None;
      }
      if command == "/quit" || command == "/commands" {
        return Some(command + "\n");
      } else if Contains(command, "/login") || Contains(command, "/register") {
        var pos := Find(command, ' ', 0);
        return if pos.Some? then Some(command + "\n") else None;
      } else {
        var pos := Find(command, ' ', 0);
        if pos == None {
          return None;
        }
        command := command[..pos.value + 1] + (token + " ") + command[pos.value + 1..];
        return Some(command + "\n");
      }
    }

    /** One round of `do_read`. */
    method Read(answer: Bytes)
      modifies this
      ensures token == TokenAfter(old(token), answer)
    {
      if Contains(answer, TOKEN_PREFIX) {
        var pos := Find(answer, ' ', 0);
        if pos != None {
          token := answer[pos.value + 1..];
          if token != [] && token[|token| - 1] == '\n' {
            token := token[..|token| - 1];
          }
          if token != [] && token[|token| - 1] == '\r' {
            token := token[..|token| - 1];
          }
        }
      }
    }
  }

  // ---- A sent line arrives ----

  /** The bytes in which a sent text reaches the server, cut anywhere. */
  predicate Sends(token: Bytes, typed: Bytes, chunks: seq<Bytes>) {
    Outgoing(token, typed).Some? && Concat(chunks) == Outgoing(token, typed).value + "\n"
  }

  lemma SpliceBytes(command: Bytes, pos: nat, token: Bytes)
    requires pos < |command|
    ensures var line := Splice(command, pos, token);
            && |line| == |command| + |token| + 1
            && Last(line) == (if pos + 1 < |command| then Last(command) else Some(' '))
            && ('\n' in line <==> '\n' in command || '\n' in token)
            && line[..pos + 1] == command[..pos + 1]
            && line[pos + 1] == (if token == [] then ' ' else token[0])
  {
    var line, front := Splice(command, pos, token), command[..pos + 1] + (token + " ");
    assert line == front + command[pos + 1..];
    assert command == command[..pos + 1] + command[pos + 1..];
  }

  lemma OutgoingBytes(token: Bytes, typed: Bytes)
    requires '\n' !in typed && Outgoing(token, typed).Some?
    ensures var line := Outgoing(token, typed).value;
            && ('\n' in line <==> '\n' in token && ' ' in typed && !SentAsTyped(typed))
            && |line| >= 2 && (Last(line) == Some('\r') <==> Last(typed) == Some('\r'))
  {
    hide Contains, Splice;
    var pos := Find(typed, ' ', 0);
    if SentAsTyped(typed) {
      ContainsIff(typed, "/login");
      ContainsIff(typed, "/register");
      assert |typed| >= 6;
    } else if pos.Some? {
      SpliceBytes(typed, pos.value, token);
    }
  }

  lemma ChompSent(line: Bytes)
    requires '\n' !in line
    ensures Chomp(line + "\n") == ChompByte(line, '\r') && Last(line + "\n") == Some('\n') && WellPaced(line + "\n")
  {
    assert (line + "\n")[..|line|] == line;
  }

  /** However the network cuts it up, a sent text without a newline is read as one line, and handed on as it was sent
      just when the typed text does not end in a carriage return. */
  lemma OutgoingIsOneLine(token: Bytes, typed: Bytes, chunks: seq<Bytes>)
    requires '\n' !in typed && Sends(token, typed, chunks) && '\n' !in Outgoing(token, typed).value
    ensures Receive([], chunks) == Framed([Concat(chunks)], [])
    ensures Dispatched(Receive([], chunks).lines) == [ChompByte(Outgoing(token, typed).value, '\r')]
    ensures ChompByte(Outgoing(token, typed).value, '\r') == Outgoing(token, typed).value <==> Last(typed) != Some('\r')
  {
    hide Outgoing, Lines, Receive, Drain, Concat;
    var line := Outgoing(token, typed).value;
    OutgoingBytes(token, typed);
    ChompSent(line);
    assert [] + Concat(chunks) == line + "\n";
    PacedInParts(chunks);
    ReceiveWellPaced([], chunks);
    LinesOfOne(line + "\n");
    assert Dispatched([line + "\n"]) == [Chomp(line + "\n")];
  }

  /** A second space follows the one behind the name: the line presents the empty token. */
  predicate SecondSpace(line: Bytes, pos: nat) {
    pos + 1 < |line| && line[pos + 1] == ' '
  }

  predicate StartsEmpty(token: Bytes) {
    token == [] || token[0] == ' '
  }

  /** The first newline of a sent text, and what the server hands on up to there: never empty, the name of the command,
      its space, and then what was typed or the start of the token. Nothing is assumed of the token. */
  lemma FirstDispatched(token: Bytes, typed: Bytes, pos: nat, chunks: seq<Bytes>)
    requires '\n' !in typed && Find(typed, ' ', 0) == Some(pos) && Sends(token, typed, chunks)
    ensures Dispatched(Receive([], chunks).lines) != []
    ensures var first := Dispatched(Receive([], chunks).lines)[0];
            && Find(first, ' ', 0) == Some(pos) && first[..pos] == typed[..pos]
            && (SecondSpace(first, pos) <==> if SentAsTyped(typed) then SecondSpace(typed, pos) else StartsEmpty(token))
    ensures '\n' !in token || SentAsTyped(typed) ==> |Dispatched(Receive([], chunks).lines)| == 1
  {
    hide Outgoing, SentAsTyped, Receive, Chomp, Find, SecondSpace, IsReading;
    var line, stream := Outgoing(token, typed).value, Concat(chunks);
    OutgoingBytes(token, typed);
    OutgoingFront(token, typed, pos);
    ReceiveIsReading([], chunks);
    assert [] + stream == line + "\n";
    NameIsRead(line, pos, Receive([], chunks).lines);
    if '\n' !in line { OutgoingIsOneLine(token, typed, chunks); }
  }

  lemma OutgoingFront(token: Bytes, typed: Bytes, pos: nat)
    requires Find(typed, ' ', 0) == Some(pos) && '\n' !in typed
    ensures Outgoing(token, typed).Some?
    ensures var line := Outgoing(token, typed).value;
            && Find(line, ' ', 0) == Some(pos) && line[..pos] == typed[..pos] && '\n' !in line[..pos]
            && (SecondSpace(line, pos) <==> if SentAsTyped(typed) then SecondSpace(typed, pos) else StartsEmpty(token))
  {
    hide SentAsTyped, Splice;
    var line := Outgoing(token, typed).value;
    if !SentAsTyped(typed) {
      SpliceBytes(typed, pos, token);
      assert forall i :: 0 <= i <= pos ==> line[i] == line[..pos + 1][i] == typed[i];
      FindIs(line, ' ', 0, pos);
    }
  }

  /** The first line read of a text whose front, up to its first space, has no newline. */
  lemma NameIsRead(line: Bytes, pos: nat, lines: seq<Bytes>)
    requires Find(line, ' ', 0) == Some(pos) && '\n' !in line[..pos] && IsReading(line + "\n", lines)
    ensures lines != [] && Find(Chomp(lines[0]), ' ', 0) == Some(pos) && Chomp(lines[0])[..pos] == line[..pos]
    ensures SecondSpace(Chomp(lines[0]), pos) <==> SecondSpace(line, pos)
  {
    hide Find, Chomp;
    var stream := line + "\n";
    assert stream[|line|] == '\n' && stream[..|line|] == line;
    var k := Find(stream, '\n', 0).value;
    CutBehindName(stream, |line|, pos, k);
    ChompKeepsName(lines[0], pos);
  }

  lemma CutBehindName(stream: Bytes, n: nat, pos: nat, k: nat)
    requires n < |stream| && stream[n] == '\n' && Find(stream[..n], ' ', 0) == Some(pos) && '\n' !in stream[..n][..pos]
    requires Find(stream, '\n', 0) == Some(k)
    ensures var front := stream[..k + 1];
            && Find(front, ' ', 0) == Some(pos) && front[..pos] == stream[..n][..pos]
            && (SecondSpace(front, pos) <==> SecondSpace(stream[..n], pos))
  {
    hide Find;
    assert forall i :: 0 <= i < n ==> stream[..n][i] == stream[i];
    assert forall i :: 0 <= i < pos ==> stream[..n][..pos][i] == stream[i];
    assert pos < k <= n;
    FindIs(stream[..k + 1], ' ', 0, pos);
  }

  /** Trimming a line keeps its name and what follows the space behind it. */
  lemma ChompKeepsName(s: Bytes, pos: nat)
    requires Find(s, ' ', 0) == Some(pos)
    ensures Find(Chomp(s), ' ', 0) == Some(pos) && Chomp(s)[..pos] == s[..pos]
    ensures SecondSpace(Chomp(s), pos) <==> SecondSpace(s, pos)
  {
    hide Find, Chomp;
    ChompFront(s, pos);
    FindIs(Chomp(s), ' ', 0, pos);
    if SecondSpace(s, pos) { ChompFront(s, pos + 1); }
  }

  /** What is dropped at the end of a line comes after its spaces. */
  lemma ChompFront(s: Bytes, k: nat)
    requires k < |s| && s[k] == ' '
    ensures k < |Chomp(s)| <= |s| && Chomp(s) == s[..|Chomp(s)|]
  {
  }

  // ---- A token that spans lines ----

  /** A client that read a greeting together with the token message behind it holds the end of the greeting, the prefix
      and the token. What it then sends is read as at least two lines, exactly two if that greeting is one line; the
      last one starts with "TOKEN:", or with "OKEN:" if its first byte was lost, and any between the first and the last
      are pieces of the greeting, behind a part of it (`quiet`) that has no newline. */
  lemma LateTokenLines(greeting: Bytes, quiet: nat, token: Bytes, typed: Bytes, pos: nat, chunks: seq<Bytes>)
    requires Last(greeting) == Some('\n') && '\n' !in token
    requires '\n' !in typed && Find(typed, ' ', 0) == Some(pos) && !SentAsTyped(typed)
    requires Sends(greeting + TOKEN_PREFIX + token, typed, chunks)
    requires quiet < |greeting| && '\n' !in greeting[..quiet]
    ensures var lines := Dispatched(Receive([], chunks).lines);
            && |lines| >= 2 && (IsLine(greeting) ==> |lines| == 2)
            && (Named(lines[|lines| - 1], TOKEN_PREFIX[..6]) || Named(lines[|lines| - 1], TOKEN_PREFIX[1..6]))
            && (forall i :: 1 <= i < |lines| - 1 ==> IsLineOf(lines[i], greeting[quiet..]))
  {
    hide SentAsTyped, Receive, Chomp, IsReading, Named, IsPiece;
    var front, last := typed[..pos + 1] + greeting, TOKEN_PREFIX + (token + " " + typed[pos + 1..] + "\n");
    var lines := Receive([], chunks).lines;
    LateTokenBytes(greeting, token, typed, pos);
    ReceiveIsReading([], chunks);
    assert [] + Concat(chunks) == front + last;
    ReadingEnds(front, last, lines);
    PrefixedLine(token + " " + typed[pos + 1..]);
    assert Dispatched(lines)[|lines| - 1] == Chomp(lines[|lines| - 1]);
    var head, body := typed[..pos + 1] + greeting[..quiet], greeting[quiet..];
    assert head + body == front && '\n' !in head;
    ReadingBetween(head, body, last, lines);
    forall i | 1 <= i < |lines| - 1
      ensures IsLineOf(Dispatched(lines)[i], body)
    {
      assert IsPiece(lines[i], body) && Dispatched(lines)[i] == Chomp(lines[i]);
    }
  }

  /** A piece of a text, handed on as a line. */
  ghost predicate IsLineOf(line: Bytes, text: Bytes) {
    exists part :: IsPiece(part, text) && line == Chomp(part)
  }

  lemma LateTokenBytes(greeting: Bytes, token: Bytes, typed: Bytes, pos: nat)
    requires Last(greeting) == Some('\n') && '\n' !in token && '\n' !in typed && pos < |typed|
    ensures var front, last := typed[..pos + 1] + greeting, TOKEN_PREFIX + (token + " " + typed[pos + 1..] + "\n");
            && Splice(typed, pos, greeting + TOKEN_PREFIX + token) + "\n" == front + last
            && Last(front) == Some('\n') && IsLine(last) && |last| >= 2
            && (IsLine(greeting) ==> IsLine(front))
  {
    var rest := typed[pos + 1..];
    assert IsLine(TOKEN_PREFIX + (token + " " + rest + "\n"));
    SpliceAssoc(typed[..pos + 1], greeting, TOKEN_PREFIX, token, rest);
  }

  lemma SpliceAssoc(name: Bytes, a: Bytes, b: Bytes, c: Bytes, rest: Bytes)
    ensures name + (a + b + c + " ") + rest + "\n" == (name + a) + (b + (c + " " + rest + "\n"))
  {
  }

  /** The first field of a line that has a space. */
  predicate Named(line: Bytes, name: Bytes) {
    Find(line, ' ', 0) == Some(|name|) && line[..|name|] == name
  }

  lemma PrefixedLine(rest: Bytes)
    ensures var line := TOKEN_PREFIX + (rest + "\n");
            Named(Chomp(line), TOKEN_PREFIX[..6]) && Named(Chomp(line[1..]), TOKEN_PREFIX[1..6])
  {
    var line := TOKEN_PREFIX + (rest + "\n");
    NamedAfterChomp(line, 6);
    NamedAfterChomp(line[1..], 5);
  }

  lemma NamedAfterChomp(line: Bytes, k: nat)
    requires k < |line| && line[k] == ' ' && Absent(line, ' ', 0, k)
    ensures Named(Chomp(line), line[..k])
  {
    ChompFront(line, k);
    FindIs(Chomp(line), ' ', 0, k);
  }
}
