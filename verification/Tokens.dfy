/** Which token a client holds after its reads: the replies to a login may reach it cut at any place. */
module Tokens {
  import opened Clients
  import opened Strings
  import opened Wire

  /** The token the client holds after reading a stream in parts. */
  function TokenAfterAll(held: Bytes, parts: seq<Bytes>): Bytes
    decreases |parts|
  {
    if parts == [] then held else TokenAfterAll(TokenAfter(held, parts[0]), parts[1..])
  }

  lemma ContainsMore(a: Bytes, s: Bytes, c: Bytes, part: Bytes)
    requires Contains(s, part)
    ensures Contains(a + s + c, part)
  {
    ContainsIff(s, part);
    ContainsIff(a + s + c, part);
    var k: nat :| IsAt(s, part, k);
    assert (a + s + c)[|a| + k..|a| + k + |part|] == s[k..k + |part|];
    assert IsAt(a + s + c, part, |a| + k);
  }

  /** Parts of a text without the prefix leave the token alone. */
  lemma {:induction false} NoPrefixNoChange(held: Bytes, parts: seq<Bytes>)
    requires !Contains(Concat(parts), TOKEN_PREFIX)
    ensures TokenAfterAll(held, parts) == held
    decreases |parts|
  {
    hide Contains;
    if parts != [] {
      var tail := Concat(parts[1..]);
      assert [] + parts[0] + tail == Concat(parts) && parts[0] + tail + [] == Concat(parts);
      if Contains(parts[0], TOKEN_PREFIX) { ContainsMore([], parts[0], tail, TOKEN_PREFIX); }
      if Contains(tail, TOKEN_PREFIX) { ContainsMore(parts[0], tail, [], TOKEN_PREFIX); }
      NoPrefixNoChange(held, parts[1..]);
    }
  }

  /** A greeting, the token message as `LoginCommand` writes it behind the greeting, and whatever is written later. */
  function Replies(greeting: Bytes, token: Bytes, more: Bytes): Bytes {
    greeting + (TOKEN_PREFIX + (token + "\n" + more))
  }

  /** Part `i` of the stream has the whole prefix that starts at byte `from`. */
  predicate HoldsPrefix(parts: seq<Bytes>, i: nat, from: nat) {
    i < |parts| && |Concat(parts[..i])| <= from && from + |TOKEN_PREFIX| <= |Concat(parts[..i + 1])|
  }

  ghost predicate SomeHoldsPrefix(parts: seq<Bytes>, from: nat) {
    exists i: nat :: HoldsPrefix(parts, i, from)
  }

  /** Where the bytes of the replies are. */
  lemma RepliesBytes(greeting: Bytes, token: Bytes, more: Bytes)
    ensures var s, p := Replies(greeting, token, more), |greeting|;
            && |s| == p + 8 + |token| + |more| && s[..p] == greeting && s[p..p + 7] == TOKEN_PREFIX
            && s[p + 7..] == token + "\n" + more
  {
    var message := token + "\n" + more;
    assert Replies(greeting, token, more) == greeting + TOKEN_PREFIX + message;
    Slices(greeting, TOKEN_PREFIX, message);
  }

  lemma AtByte(s: Bytes, part: Bytes, k: nat, i: nat)
    requires IsAt(s, part, k) && i < |part|
    ensures s[k + i] == part[i]
  {
    assert s[k + i] == s[k..k + |part|][i];
  }

  /** Behind a text without spaces and a newline, the prefix occurs only in what follows. */
  lemma OccursInMore(token: Bytes, more: Bytes, k: nat)
    requires ' ' !in token && IsAt(token + "\n" + more, TOKEN_PREFIX, k)
    ensures k > |token| && IsAt(more, TOKEN_PREFIX, k - |token| - 1)
  {
    var s, e := token + "\n" + more, |token|;
    assert s == token + ("\n" + more) && s[e] == '\n';
    assert forall i :: 0 <= i < e ==> s[i] == token[i];
    assert s[e + 1..] == more;
    AtByte(s, TOKEN_PREFIX, k, 6);
    assert k + 6 > e;
    if k <= e {
      AtByte(s, TOKEN_PREFIX, k, e - k);
    } else {
      assert more[k - e - 1..k - e - 1 + 7] == s[k..k + 7];
    }
  }

  /** Behind an unfinished prefix, the prefix occurs only in what follows. */
  lemma OccursInTail(rest: Bytes, tail: Bytes, k: nat)
    requires |rest| < 7 && rest == TOKEN_PREFIX[7 - |rest|..] && IsAt(rest + tail, TOKEN_PREFIX, k)
    ensures k >= |rest| && IsAt(tail, TOKEN_PREFIX, k - |rest|)
  {
    var s := rest + tail;
    if k < |rest| {
      AtByte(s, TOKEN_PREFIX, k, 0);
    } else {
      assert tail[k - |rest|..k - |rest| + 7] == s[k..k + 7];
    }
  }

  lemma NotContainedLater(s: Bytes, from: nat, part: Bytes)
    requires from <= |s| && !Contains(s, part)
    ensures !Contains(s[from..], part)
  {
    hide Contains;
    assert s[..from] + s[from..] + [] == s;
    if Contains(s[from..], part) { ContainsMore(s[..from], s[from..], [], part); }
  }

  lemma NoPrefixAfterToken(token: Bytes, more: Bytes)
    requires ' ' !in token && !Contains(more, TOKEN_PREFIX)
    ensures !Contains(token + "\n" + more, TOKEN_PREFIX)
  {
    hide Contains;
    ContainsIff(token + "\n" + more, TOKEN_PREFIX);
    ContainsIff(more, TOKEN_PREFIX);
    if k: nat :| IsAt(token + "\n" + more, TOKEN_PREFIX, k) {
      OccursInMore(token, more, k);
    }
  }

  lemma NoPrefixInRest(rest: Bytes, tail: Bytes)
    requires |rest| < 7 && rest == TOKEN_PREFIX[7 - |rest|..] && !Contains(tail, TOKEN_PREFIX)
    ensures !Contains(rest + tail, TOKEN_PREFIX)
  {
    hide Contains;
    ContainsIff(rest + tail, TOKEN_PREFIX);
    ContainsIff(tail, TOKEN_PREFIX);
    if k: nat :| IsAt(rest + tail, TOKEN_PREFIX, k) {
      OccursInTail(rest, tail, k);
    }
  }

  /** Behind the start of the prefix, nothing that follows is taken for another token, unless it brings its own. */
  lemma NoPrefixBehind(greeting: Bytes, token: Bytes, more: Bytes, from: nat)
    requires ' ' !in token && !Contains(more, TOKEN_PREFIX)
    requires |greeting| < from <= |Replies(greeting, token, more)|
    ensures !Contains(Replies(greeting, token, more)[from..], TOKEN_PREFIX)
  {
    hide Contains, Replies;
    var s, p, tail := Replies(greeting, token, more), |greeting|, token + "\n" + more;
    RepliesBytes(greeting, token, more);
    NoPrefixAfterToken(token, more);
    if from >= p + 7 {
      NotContainedLater(tail, from - (p + 7), TOKEN_PREFIX);
      assert s[from..] == tail[from - (p + 7)..];
    } else {
      NoPrefixInRest(TOKEN_PREFIX[from - p..], tail);
      assert s[from..] == TOKEN_PREFIX[from - p..] + tail by {
        assert s[from..] == s[p..p + 7][from - p..] + s[p + 7..];
      }
    }
  }

  /** An occurrence before the written prefix lies in the greeting and its next six bytes. */
  lemma PrefixEarlier(greeting: Bytes, token: Bytes, more: Bytes, k: nat)
    requires k < |greeting| && IsAt(Replies(greeting, token, more), TOKEN_PREFIX, k)
    ensures Contains(greeting + TOKEN_PREFIX[..6], TOKEN_PREFIX)
  {
    hide Contains, Replies;
    var s, front := Replies(greeting, token, more), greeting + TOKEN_PREFIX[..6];
    RepliesBytes(greeting, token, more);
    TakeOf(s, |greeting|, |greeting| + 7, 6);
    assert front == s[..|greeting| + 6] by {
      assert s[..|greeting|] + s[|greeting|..|greeting| + 6] == s[..|greeting| + 6];
    }
    assert front[k..k + 7] == s[k..k + 7];
    assert IsAt(front, TOKEN_PREFIX, k);
    ContainsIff(front, TOKEN_PREFIX);
  }

  lemma TakeOf(s: Bytes, from: nat, to: nat, n: nat)
    requires from + n <= to <= |s|
    ensures s[from..to][..n] == s[from..from + n]
  {
  }

  lemma ReadHasPrefix(s: Bytes, p: nat, n: nat)
    requires p + 7 <= n <= |s| && s[p..p + 7] == TOKEN_PREFIX
    ensures var part := s[..n];
            && Contains(part, TOKEN_PREFIX) && IsAt(part, TOKEN_PREFIX, p)
            && part[..p] == s[..p] && part[p + 7..] == s[p + 7..][..n - p - 7]
  {
    hide Contains;
    TakeFront(s, n, 0, p);
    TakeFront(s, n, p, p + 7);
    TakeTail(s, n, p + 7);
    assert IsAt(s[..n], TOKEN_PREFIX, p);
    ContainsIff(s[..n], TOKEN_PREFIX);
  }

  lemma TakeFront(s: Bytes, n: nat, from: nat, to: nat)
    requires from <= to <= n <= |s|
    ensures s[..n][from..to] == s[from..to]
  {
  }

  lemma TakeTail(s: Bytes, n: nat, from: nat)
    requires from <= n <= |s|
    ensures s[..n][from..] == s[from..][..n - from]
  {
  }

  /** The prefix has its only space at its end. */
  lemma SpaceOfPrefix(s: Bytes, k: nat)
    requires IsAt(s, TOKEN_PREFIX, k) && Absent(s, ' ', 0, k)
    ensures Find(s, ' ', 0) == Some(k + 6)
  {
    AtByte(s, TOKEN_PREFIX, k, 0);
    AtByte(s, TOKEN_PREFIX, k, 1);
    AtByte(s, TOKEN_PREFIX, k, 2);
    AtByte(s, TOKEN_PREFIX, k, 3);
    AtByte(s, TOKEN_PREFIX, k, 4);
    AtByte(s, TOKEN_PREFIX, k, 5);
    AtByte(s, TOKEN_PREFIX, k, 6);
    FindIs(s, ' ', 0, k + 6);
  }

  /** A read that starts within a greeting without spaces: what follows the prefix is kept. */
  lemma TokenOfCleanRead(held: Bytes, greeting: Bytes, token: Bytes, more: Bytes, part: Bytes)
    requires ' ' !in greeting && part <= Replies(greeting, token, more) && |greeting| + 7 <= |part|
    ensures TokenAfter(held, part) == Chomp((token + "\n" + more)[..|part| - |greeting| - 7])
  {
    hide Contains, Replies, Chomp, Find;
    RepliesBytes(greeting, token, more);
    PrefixIsTake(part, Replies(greeting, token, more));
    ReadHasPrefix(Replies(greeting, token, more), |greeting|, |part|);
    assert Absent(part, ' ', 0, |greeting|) by {
      assert forall i :: 0 <= i < |greeting| ==> part[i] == part[..|greeting|][i];
    }
    SpaceOfPrefix(part, |greeting|);
  }

  /** A read that takes in a space of the greeting: what the client keeps is the rest of the greeting and then the token
      message, up to the end of the read. */
  lemma TokenOfLateRead(held: Bytes, greeting: Bytes, token: Bytes, more: Bytes, part: Bytes, at: nat)
    requires Find(greeting, ' ', 0) == Some(at)
    requires part <= Replies(greeting, token, more) && |greeting| + 7 <= |part|
    ensures TokenAfter(held, part) ==
            greeting[at + 1..] + TOKEN_PREFIX + Chomp((token + "\n" + more)[..|part| - |greeting| - 7])
    ensures ' ' in TokenAfter(held, part)
  {
    hide TokenAfter, Replies, Chomp;
    var s, p := Replies(greeting, token, more), |greeting|;
    RepliesBytes(greeting, token, more);
    PrefixIsTake(part, s);
    KeptOfLateRead(held, s, p, |part|, at);
  }

  lemma KeptOfLateRead(held: Bytes, s: Bytes, p: nat, n: nat, at: nat)
    requires p + 7 <= n <= |s| && s[p..p + 7] == TOKEN_PREFIX && Find(s[..p], ' ', 0) == Some(at)
    ensures TokenAfter(held, s[..n]) == s[..p][at + 1..] + TOKEN_PREFIX + Chomp(s[p + 7..][..n - p - 7])
    ensures ' ' in TokenAfter(held, s[..n])
  {
    hide Contains, Chomp, Find;
    var part := s[..n];
    ReadHasPrefix(s, p, n);
    SpaceOfFront(part, p, at);
    CutInThree(part, at + 1, p, p + 7);
    var front := s[..p][at + 1..] + TOKEN_PREFIX;
    ChompBehindSpace(front, s[p + 7..][..n - p - 7]);
    assert front[|front| - 1] == ' ';
  }

  lemma PrefixIsTake(part: Bytes, s: Bytes)
    requires part <= s
    ensures part == s[..|part|]
  {
  }

  lemma SpaceOfFront(s: Bytes, p: nat, at: nat)
    requires p <= |s| && Find(s[..p], ' ', 0) == Some(at)
    ensures Find(s, ' ', 0) == Some(at)
  {
    assert forall i :: 0 <= i < p ==> s[i] == s[..p][i];
    FindIs(s, ' ', 0, at);
  }

  lemma CutInThree(s: Bytes, from: nat, a: nat, b: nat)
    requires from <= a <= b <= |s|
    ensures s[from..] == s[..a][from..] + s[a..b] + s[b..]
  {
  }

  lemma ChompBehindSpace(front: Bytes, end: Bytes)
    requires Last(front) == Some(' ')
    ensures Chomp(front + end) == front + Chomp(end)
  {
  }

  /** What is kept of a token message is the token just when the read ends with the message or one byte before. */
  lemma ChompOfToken(token: Bytes, more: Bytes, n: nat)
    requires '\n' !in token && n <= |token| + 1 + |more|
    ensures Chomp((token + "\n" + more)[..n]) == token <==>
            |token| <= n <= |token| + 1 && Last(token) != Some('\r')
  {
    var s := token + "\n" + more;
    if n <= |token| {
      assert s[..n] == token[..n];
    } else if n == |token| + 1 {
      assert s[..n] == token + "\n" && (token + "\n")[..|token|] == token;
    } else {
      ChompLength(s[..n]);
      assert s[..n][|token|] == '\n';
    }
  }

  /** Two bytes are dropped only if they are `\r\n`. */
  lemma ChompLength(s: Bytes)
    ensures |Chomp(s)| >= |s| - 2
    ensures |Chomp(s)| == |s| - 2 ==> s[|s| - 2] == '\r'
  {
  }

  /** Part `i` starts behind the last space of the greeting and ends with the token message or just before its
      newline. */
  predicate BringsToken(greeting: Bytes, token: Bytes, parts: seq<Bytes>, i: nat)
    requires HoldsPrefix(parts, i, |greeting|)
  {
    && ' ' !in greeting[|Concat(parts[..i])|..]
    && |greeting| + 7 + |token| <= |Concat(parts[..i + 1])| <= |greeting| + 8 + |token|
  }

  lemma TokenOfRead(held: Bytes, greeting: Bytes, token: Bytes, more: Bytes, part: Bytes)
    requires ' ' !in token && '\n' !in token && Last(token) != Some('\r')
    requires part <= Replies(greeting, token, more) && |greeting| + 7 <= |part|
    ensures TokenAfter(held, part) == token <==>
            ' ' !in greeting && |greeting| + 7 + |token| <= |part| <= |greeting| + 8 + |token|
  {
    hide TokenAfter, Chomp;
    var at := Find(greeting, ' ', 0);
    RepliesBytes(greeting, token, more);
    if at.Some? {
      TokenOfLateRead(held, greeting, token, more, part, at.value);
    } else {
      TokenOfCleanRead(held, greeting, token, more, part);
      ChompOfToken(token, more, |part| - |greeting| - 7);
    }
  }

  lemma RepliesBehind(greeting: Bytes, token: Bytes, more: Bytes, n: nat)
    requires n <= |greeting|
    ensures n <= |Replies(greeting, token, more)|
    ensures Replies(greeting, token, more)[n..] == Replies(greeting[n..], token, more)
  {
  }

  /** When one part has the whole prefix, the client holds the token after it just when that part brings it. */
  lemma {:induction false} TokenArrives(held: Bytes, greeting: Bytes, token: Bytes, more: Bytes, parts: seq<Bytes>,
                                        i: nat)
    requires ' ' !in token && '\n' !in token && Last(token) != Some('\r')
    requires Concat(parts) == Replies(greeting, token, more) && HoldsPrefix(parts, i, |greeting|)
    ensures TokenAfterAll(held, parts[..i + 1]) == token <==> BringsToken(greeting, token, parts, i)
    decreases |parts|
  {
    hide TokenAfter, Replies;
    var s, first, tail := Replies(greeting, token, more), parts[0], Concat(parts[1..]);
    ConcatTake(parts, i);
    assert s == first + tail;
    assert parts[..i + 1][1..] == parts[1..][..i];
    if i == 0 {
      TokenOfRead(held, greeting, token, more, first);
      assert greeting[0..] == greeting;
    } else {
      var later := greeting[|first|..];
      RepliesBehind(greeting, token, more, |first|);
      assert tail == s[|first|..];
      ConcatTake(parts[1..], i - 1);
      TokenArrives(TokenAfter(held, first), later, token, more, parts[1..], i - 1);
      assert greeting[|Concat(parts[..i])|..] == later[|Concat(parts[1..][..i - 1])|..];
    }
  }

  lemma {:induction false} TokenAfterAppend(held: Bytes, first: seq<Bytes>, second: seq<Bytes>)
    ensures TokenAfterAll(held, first + second) == TokenAfterAll(TokenAfterAll(held, first), second)
    decreases |first|
  {
    hide TokenAfter;
    if first == [] {
      assert first + second == second;
    } else {
      assert (first + second)[1..] == first[1..] + second;
      TokenAfterAppend(TokenAfter(held, first[0]), first[1..], second);
    }
  }

  /** Later reads leave the token alone, as long as nothing written later looks like a token message. */
  lemma TokenStays(held: Bytes, greeting: Bytes, token: Bytes, more: Bytes, parts: seq<Bytes>, i: nat)
    requires ' ' !in token && !Contains(more, TOKEN_PREFIX)
    requires Concat(parts) == Replies(greeting, token, more) && HoldsPrefix(parts, i, |greeting|)
    ensures TokenAfterAll(held, parts) == TokenAfterAll(held, parts[..i + 1])
  {
    hide TokenAfterAll, Contains, Replies;
    var before, after := parts[..i + 1], parts[i + 1..];
    assert parts == before + after;
    ConcatAppend(before, after);
    RepliesBytes(greeting, token, more);
    NoPrefixBehind(greeting, token, more, |Concat(before)|);
    assert Replies(greeting, token, more)[|Concat(before)|..] == Concat(after);
    TokenAfterAppend(held, before, after);
    NoPrefixNoChange(TokenAfterAll(held, before), after);
  }

  lemma ConcatTake(parts: seq<Bytes>, i: nat)
    requires i < |parts|
    ensures |Concat(parts[..i + 1])| <= |Concat(parts)|
    ensures |Concat(parts[..i])| <= |Concat(parts[..i + 1])|
    ensures Concat(parts[..i + 1]) == parts[0] + Concat(parts[1..][..i])
    ensures i > 0 ==> Concat(parts[..i]) == parts[0] + Concat(parts[1..][..i - 1])
  {
    assert parts == parts[..i + 1] + parts[i + 1..];
    ConcatAppend(parts[..i + 1], parts[i + 1..]);
    assert parts[..i + 1] == parts[..i] + [parts[i]];
    ConcatAppend(parts[..i], [parts[i]]);
    assert parts[..i + 1][1..] == parts[1..][..i];
    if i > 0 { assert parts[..i][1..] == parts[1..][..i - 1]; }
  }

  lemma PrefixInFront(greeting: Bytes, token: Bytes, more: Bytes, first: Bytes)
    requires ' ' !in token && !Contains(more, TOKEN_PREFIX)
    requires first <= Replies(greeting, token, more) && Contains(first, TOKEN_PREFIX)
    ensures |greeting| + 7 <= |first| || Contains(greeting + TOKEN_PREFIX[..6], TOKEN_PREFIX)
  {
    hide Contains, Replies;
    var s, p := Replies(greeting, token, more), |greeting|;
    ContainsIff(first, TOKEN_PREFIX);
    var k: nat :| IsAt(first, TOKEN_PREFIX, k);
    assert first[k..k + 7] == s[k..k + 7];
    if k < p {
      PrefixEarlier(greeting, token, more, k);
    } else if k > p {
      NoPrefixBehind(greeting, token, more, k);
      ContainsIff(s[k..], TOKEN_PREFIX);
      assert s[k..][0..7] == s[k..k + 7];
      assert IsAt(s[k..], TOKEN_PREFIX, 0);
    }
  }

  lemma PrefixLater(parts: seq<Bytes>, greeting: Bytes)
    requires parts != [] && |parts[0]| <= |greeting|
    requires SomeHoldsPrefix(parts[1..], |greeting| - |parts[0]|)
    ensures SomeHoldsPrefix(parts, |greeting|)
  {
    var i: nat :| HoldsPrefix(parts[1..], i, |greeting| - |parts[0]|);
    ConcatTake(parts, i + 1);
    assert HoldsPrefix(parts, i + 1, |greeting|);
  }

  /** When the prefix is cut between two reads, the client keeps what it held. */
  lemma {:induction false} CutPrefixIsMissed(held: Bytes, greeting: Bytes, token: Bytes, more: Bytes, parts: seq<Bytes>)
    requires ' ' !in token && !Contains(more, TOKEN_PREFIX)
    requires !Contains(greeting + TOKEN_PREFIX[..6], TOKEN_PREFIX)
    requires Concat(parts) == Replies(greeting, token, more) && !SomeHoldsPrefix(parts, |greeting|)
    ensures TokenAfterAll(held, parts) == held
    decreases |parts|
  {
    hide Contains, Find;
    var s, first, tail := Replies(greeting, token, more), parts[0], Concat(parts[1..]);
    assert s == first + tail;
    ConcatTake(parts, 0);
    assert !HoldsPrefix(parts, 0, |greeting|);
    assert parts[..0] == [];
    if Contains(first, TOKEN_PREFIX) { PrefixInFront(greeting, token, more, first); }
    if |first| <= |greeting| {
      var later := greeting[|first|..];
      assert tail == s[|first|..] == Replies(later, token, more);
      assert first + (later + TOKEN_PREFIX[..6]) + [] == greeting + TOKEN_PREFIX[..6];
      if Contains(later + TOKEN_PREFIX[..6], TOKEN_PREFIX) {
        ContainsMore(first, later + TOKEN_PREFIX[..6], [], TOKEN_PREFIX);
      }
      if SomeHoldsPrefix(parts[1..], |later|) { PrefixLater(parts, greeting); }
      CutPrefixIsMissed(held, later, token, more, parts[1..]);
    } else {
      assert s[|first|..] == tail;
      NoPrefixBehind(greeting, token, more, |first|);
      NoPrefixNoChange(held, parts[1..]);
    }
  }

  /** Some part brings the token. */
  ghost predicate TokenComesThrough(greeting: Bytes, token: Bytes, parts: seq<Bytes>) {
    exists i: nat :: HoldsPrefix(parts, i, |greeting|) && BringsToken(greeting, token, parts, i)
  }

  /** A greeting, the token message and anything later reach the client in parts, cut anywhere. The part that has the
      whole prefix leaves the token in the client just when it also starts behind the last space of the greeting and
      ends with the token message or just before its newline. As long as nothing later looks like a token message, that
      is what the client holds in the end; if no part has the whole prefix, it keeps what it held (unless the greeting
      brings a prefix of its own). */
  lemma TokenArrivesExactly(held: Bytes, greeting: Bytes, token: Bytes, more: Bytes, parts: seq<Bytes>)
    requires ' ' !in token && '\n' !in token && Last(token) != Some('\r')
    requires Concat(parts) == Replies(greeting, token, more)
    ensures forall i: nat | HoldsPrefix(parts, i, |greeting|) ::
              TokenAfterAll(held, parts[..i + 1]) == token <==> BringsToken(greeting, token, parts, i)
    ensures !Contains(more, TOKEN_PREFIX) && SomeHoldsPrefix(parts, |greeting|) ==>
              (TokenAfterAll(held, parts) == token <==> TokenComesThrough(greeting, token, parts))
    ensures !Contains(more, TOKEN_PREFIX) && !SomeHoldsPrefix(parts, |greeting|)
            && !Contains(greeting + TOKEN_PREFIX[..6], TOKEN_PREFIX) ==>
              TokenAfterAll(held, parts) == held
  {
    hide BringsToken, TokenAfterAll, Contains, Replies;
    forall i: nat | HoldsPrefix(parts, i, |greeting|)
      ensures TokenAfterAll(held, parts[..i + 1]) == token <==> BringsToken(greeting, token, parts, i)
      ensures !Contains(more, TOKEN_PREFIX) ==> TokenAfterAll(held, parts) == TokenAfterAll(held, parts[..i + 1])
    {
      TokenArrives(held, greeting, token, more, parts, i);
      if !Contains(more, TOKEN_PREFIX) { TokenStays(held, greeting, token, more, parts, i); }
    }
    if && !Contains(more, TOKEN_PREFIX) && !SomeHoldsPrefix(parts, |greeting|)
       && !Contains(greeting + TOKEN_PREFIX[..6], TOKEN_PREFIX) {
      CutPrefixIsMissed(held, greeting, token, more, parts);
    }
  }

  /** Read apart, the replies leave the token in the client; read together, they leave it only if the greeting has no
      space; and read together with something later, the token message never leaves it. */
  lemma ApartOrTogether(held: Bytes, greeting: Bytes, token: Bytes, more: Bytes)
    requires ' ' !in token && '\n' !in token && Last(token) != Some('\r')
    ensures TokenAfterAll(held, [greeting, TOKEN_PREFIX + token + "\n"]) == token
    ensures TokenAfterAll(held, [Replies(greeting, token, [])]) == token <==> ' ' !in greeting
    ensures more != [] ==> TokenAfter(held, TOKEN_PREFIX + token + "\n" + more) != token
  {
    hide TokenAfter;
    var message := TOKEN_PREFIX + token + "\n";
    assert message == Replies([], token, []) && message + more == Replies([], token, more);
    RepliesBytes([], token, []);
    RepliesBytes([], token, more);
    RepliesBytes(greeting, token, []);
    TokenOfRead(TokenAfter(held, greeting), [], token, [], message);
    TokenOfRead(held, greeting, token, [], Replies(greeting, token, []));
    TokenOfRead(held, [], token, more, message + more);
    AfterTwo(held, greeting, message);
    AfterOne(held, Replies(greeting, token, []));
  }

  lemma AfterOne(held: Bytes, a: Bytes)
    ensures TokenAfterAll(held, [a]) == TokenAfter(held, a)
  {
    assert [a][1..] == [];
  }

  lemma AfterTwo(held: Bytes, a: Bytes, b: Bytes)
    ensures TokenAfterAll(held, [a, b]) == TokenAfter(TokenAfter(held, a), b)
  {
    assert [a, b][1..] == [b];
    AfterOne(TokenAfter(held, a), b);
  }
}
