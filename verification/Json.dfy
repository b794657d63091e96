/** The JSON texts a token carries: flat objects of strings and integers, printed as `nlohmann::json::dump` prints
    them and read back by a parser for the same grammar (section 7 of RFC 8259 for strings). */
module Json {
  import opened Strings
  import opened Decimal

  datatype Value = Text(text: Bytes) | Number(number: Int64)

  type Object = map<Bytes, Value>

  /** `Truncated`: the input ended inside the object, an error whatever might have followed. `Outside`: a byte was
      met that this grammar has no rule for, so the library alone decides. */
  datatype Parsed<+T> = Done(value: T, rest: Bytes) | Truncated | Outside {
    predicate IsFailure() {
      !Done?
    }

    function PropagateFailure<U>(): Parsed<U>
      requires IsFailure()
    {
      if Truncated? then Truncated else Outside
    }

    function Extract(): (T, Bytes)
      requires !IsFailure()
    {
      (value, rest)
    }
  }

  // ---- UTF-8 (sections 3 and 4 of RFC 3629) ----

  /** How many bytes a sequence with this lead byte has; 0 for a byte that cannot lead. */
  function Need(lead: Byte): nat {
    var b := lead as int;
    if b < 0x80 then 1
    else if 0xC2 <= b <= 0xDF then 2
    else if 0xE0 <= b <= 0xEF then 3
    else if 0xF0 <= b <= 0xF4 then 4
    else 0
  }

  predicate IsTail(c: Byte) {
    0x80 <= c as int <= 0xBF
  }

  /** One complete, well-formed sequence. */
  predicate IsSequence(s: Bytes) {
    && s != [] && |s| == Need(s[0])
    && (forall i :: 1 <= i < |s| ==> IsTail(s[i]))
    && (s[0] as int == 0xE0 ==> s[1] as int >= 0xA0)
    && (s[0] as int == 0xED ==> s[1] as int <= 0x9F)
    && (s[0] as int == 0xF0 ==> s[1] as int >= 0x90)
    && (s[0] as int == 0xF4 ==> s[1] as int <= 0x8F)
  }

  predicate IsUtf8(s: Bytes) {
    s == [] || (0 < Need(s[0]) <= |s| && IsSequence(s[..Need(s[0])]) && IsUtf8(s[Need(s[0])..]))
  }

  // ---- Printing ----

  function HexDigit(d: int): Byte
    requires 0 <= d < 16
  {
    if d < 10 then Digit(d) else ('a' as int + (d - 10)) as char
  }

  function EscapeByte(c: Byte): Bytes {
    if c == '\"' then "\\\""
    else if c == '\\' then "\\\\"
    else if c as int == 8 then "\\b"
    else if c == '\t' then "\\t"
    else if c == '\n' then "\\n"
    else if c as int == 12 then "\\f"
    else if c == '\r' then "\\r"
    else if c < ' ' then "\\u00" + [HexDigit(c as int / 16), HexDigit(c as int % 16)]
    else [c]
  }

  /** The first unit of a non-empty string, as printed: one escaped ASCII byte or one longer sequence. */
  function EscapeUnit(s: Bytes): Bytes
    requires IsUtf8(s) && s != []
  {
    if Need(s[0]) == 1 then EscapeByte(s[0]) else s[..Need(s[0])]
  }

  function Escape(s: Bytes): Bytes
    requires IsUtf8(s)
  {
    if s == [] then [] else EscapeUnit(s) + Escape(s[Need(s[0])..])
  }

  function Quote(s: Bytes): Bytes
    requires IsUtf8(s)
  {
    "\"" + Escape(s) + "\""
  }

  predicate Printable(v: Value) {
    v.Text? ==> IsUtf8(v.text)
  }

  function PrintValue(v: Value): Bytes
    requires Printable(v)
  {
    match v
    case Text(s) => Quote(s)
    case Number(n) => Print(n)
  }

  type Member = (Bytes, Value)

  predicate AllPrintable(members: seq<Member>) {
    forall m :: m in members ==> IsUtf8(m.0) && Printable(m.1)
  }

  function PrintMembers(members: seq<Member>): Bytes
    requires AllPrintable(members)
  {
    if members == [] then []
    else
      var m := members[0];
      Quote(m.0) + ":" + PrintValue(m.1) + if |members| == 1 then [] else "," + PrintMembers(members[1..])
  }

  /** `dump()` of an object whose members are listed in key order; `None` is the exception for text that is not
      UTF-8. */
  function Dump(members: seq<Member>): (r: Option<Bytes>)
    ensures r.Some? ==> r.value != []
  {
    if AllPrintable(members) then Some("{" + PrintMembers(members) + "}") else None
  }

  // ---- Parsing ----

  predicate IsHex(c: Byte) {
    IsDigit(c) || 'a' <= c <= 'f' || 'A' <= c <= 'F'
  }

  function HexValue(c: Byte): (d: int)
    requires IsHex(c)
    ensures 0 <= d < 16
  {
    if IsDigit(c) then DigitValue(c)
    else if 'a' <= c <= 'f' then c as int - 'a' as int + 10
    else c as int - 'A' as int + 10
  }

  /** The byte that a two-character escape stands for. */
  function Unescape(c: Byte): Option<Byte> {
    if c == '\"' || c == '\\' || c == '/' then Some(c)
    else if c == 'b' then Some(8 as char)
    else if c == 't' then Some('\t')
    else if c == 'n' then Some('\n')
    else if c == 'f' then Some(12 as char)
    else if c == 'r' then Some('\r')
    else None
  }

  /** One escape or one UTF-8 sequence inside a string. */
  function ParseUnit(t: Bytes): (r: Parsed<Bytes>)
    ensures r.Done? ==> |r.rest| < |t|
  {
    if t == [] then Truncated
    else if t[0] == '\\' then
      if |t| < 2 then Truncated
      else if t[1] == 'u' then ParseUnicode(t)
      else if Unescape(t[1]) == None then Outside
      else Done([Unescape(t[1]).value], t[2..])
    else if t[0] < ' ' then Outside
    else
      var n := Need(t[0]);
      if n == 0 then Outside
      else if |t| < n then Truncated
      else if IsSequence(t[..n]) then Done(t[..n], t[n..])
      else Outside
  }

  /** A `\uXXXX` escape, in the fragment when it stands for one byte. */
  function ParseUnicode(t: Bytes): (r: Parsed<Bytes>)
    ensures r.Done? ==> |r.rest| < |t|
  {
    if |t| < 6 then Truncated
    else if t[2] != '0' || t[3] != '0' || !IsHex(t[4]) || !IsHex(t[5]) || HexValue(t[4]) >= 8 then Outside
    else Done([(16 * HexValue(t[4]) + HexValue(t[5])) as char], t[6..])
  }

  /** The inside of a string and its closing quote. */
  function ParseChars(t: Bytes): (r: Parsed<Bytes>)
    ensures r.Done? ==> |r.rest| < |t|
    decreases |t|
  {
    if t == [] then Truncated
    else if t[0] == '\"' then Done([], t[1..])
    else
      var (c, rest) :- ParseUnit(t);
      var (cs, rest') :- ParseChars(rest);
      Done(c + cs, rest')
  }

  /** Digits. The byte after the last one is needed to see that the number ended. */
  function ParseDigits(t: Bytes): (r: Parsed<int>)
    ensures r.Done? ==> |r.rest| < |t|
  {
    var k := Run(t);
    if k == |t| then Truncated
    else if k == 0 || (t[0] == '0' && k > 1) || t[k] == '.' || t[k] == 'e' || t[k] == 'E' then Outside
    else Done(FromDigits(t[..k]), t[k..])
  }

  function ParseNumber(t: Bytes): (r: Parsed<Value>)
    requires t != []
    ensures r.Done? ==> |r.rest| < |t|
  {
    var (n, rest) :- ParseDigits(if t[0] == '-' then t[1..] else t);
    var v := if t[0] == '-' then -n else n;
    if -0x8000_0000_0000_0000 <= v < 0x8000_0000_0000_0000 then Done(Number(v), rest) else Outside
  }

  function ParseValue(t: Bytes): (r: Parsed<Value>)
    ensures r.Done? ==> |r.rest| < |t|
  {
    if t == [] then Truncated
    else if t[0] == '\"' then
      var (s, rest) :- ParseChars(t[1..]);
      Done(Text(s), rest)
    else if t[0] == '-' || IsDigit(t[0]) then ParseNumber(t)
    else Outside
  }

  /** `t` with its first byte `c` removed. */
  function Expect(t: Bytes, c: Byte): (r: Parsed<()>)
    ensures r.Done? ==> |r.rest| < |t|
  {
    if t == [] then Truncated else if t[0] == c then Done((), t[1..]) else Outside
  }

  function ParseMember(t: Bytes): (r: Parsed<Member>)
    ensures r.Done? ==> |r.rest| < |t|
  {
    var (_, rest0) :- Expect(t, '\"');
    var (key, rest1) :- ParseChars(rest0);
    var (_, rest2) :- Expect(rest1, ':');
    var (value, rest) :- ParseValue(rest2);
    Done((key, value), rest)
  }

  /** Members up to the closing brace; a repeated key keeps its last value. */
  function ParseMembers(t: Bytes, seen: Object): (r: Parsed<Object>)
    decreases |t|
  {
    var (m, rest) :- ParseMember(t);
    if rest == [] then Truncated
    else if rest[0] == ',' then ParseMembers(rest[1..], seen[m.0 := m.1])
    else if rest[0] == '}' then Done(seen[m.0 := m.1], rest[1..])
    else Outside
  }

  function ParseObject(t: Bytes): (r: Parsed<Object>) {
    var (_, rest) :- Expect(t, '{');
    if rest == [] then Truncated
    else if rest[0] == '}' then Done(map[], rest[1..])
    else ParseMembers(rest, map[])
  }

  /** `json::parse` on a whole text. */
  function Parse(t: Bytes): Parsed<Object> {
    var (o, rest) :- ParseObject(t);
    if rest == [] then Done(o, []) else Outside
  }

  // ---- Printed objects are read back ----

  lemma UnitOfByte(c: Byte, tail: Bytes)
    requires c as int < 0x80
    ensures ParseUnit(EscapeByte(c) + tail) == Done([c], tail)
    ensures EscapeByte(c)[0] != '\"'
  {
    var e := EscapeByte(c);
    assert (e + tail)[|e|..] == tail;
    if |e| == 1 {
      assert (e + tail)[..1] == [c];
    }
  }

  lemma UnitOfSequence(s: Bytes, tail: Bytes)
    requires IsSequence(s) && |s| > 1
    ensures ParseUnit(s + tail) == Done(s, tail)
  {
    assert (s + tail)[..|s|] == s && (s + tail)[|s|..] == tail;
  }

  lemma UnitOfEscape(s: Bytes, tail: Bytes)
    requires IsUtf8(s) && s != []
    ensures ParseUnit(EscapeUnit(s) + tail) == Done(s[..Need(s[0])], tail)
    ensures EscapeUnit(s) != [] && EscapeUnit(s)[0] != '\"'
  {
    if Need(s[0]) == 1 {
      UnitOfByte(s[0], tail);
      assert s[..1] == [s[0]];
    } else {
      UnitOfSequence(s[..Need(s[0])], tail);
    }
  }

  /** One round of the character loop. */
  lemma CharsStep(t: Bytes, c: Bytes, after: Bytes, cs: Bytes, tail: Bytes)
    requires t != [] && t[0] != '\"' && ParseUnit(t) == Done(c, after) && ParseChars(after) == Done(cs, tail)
    ensures ParseChars(t) == Done(c + cs, tail)
  {
  }

  lemma {:induction false} CharsOfEscape(s: Bytes, tail: Bytes)
    requires IsUtf8(s)
    ensures ParseChars(Escape(s) + "\"" + tail) == Done(s, tail)
    decreases |s|
  {
    hide EscapeUnit, ParseUnit, IsSequence, Need;
    if s == [] {
      assert ("\"" + tail)[1..] == tail;
      assert Escape(s) + "\"" + tail == "\"" + tail;
    } else {
      var n := Need(s[0]);
      var after := Escape(s[n..]) + "\"" + tail;
      Assoc(EscapeUnit(s), Escape(s[n..]), "\"");
      Assoc(EscapeUnit(s), Escape(s[n..]) + "\"", tail);
      UnitOfEscape(s, after);
      CharsOfEscape(s[n..], tail);
      CharsStep(EscapeUnit(s) + after, s[..n], after, s[n..], tail);
      assert s[..n] + s[n..] == s;
    }
  }

  lemma DigitsOfPrint(n: nat, tail: Bytes)
    requires tail != [] && (tail[0] == ',' || tail[0] == '}')
    ensures ParseDigits(PrintNat(n) + tail) == Done(n, tail)
  {
    LeadingNumber(n, tail);
  }

  lemma NumberOfDigits(ds: Bytes, n: int, tail: Bytes)
    requires ParseDigits(ds) == Done(n, tail)
    ensures -0x8000_0000_0000_0000 <= -n < 0x8000_0000_0000_0000 ==> ParseNumber("-" + ds) == Done(Number(-n), tail)
    ensures ds != [] && ds[0] != '-' && -0x8000_0000_0000_0000 <= n < 0x8000_0000_0000_0000 ==>
              ParseNumber(ds) == Done(Number(n), tail)
  {
    assert ("-" + ds)[1..] == ds;
  }

  lemma PrintSplit(n: int, tail: Bytes)
    ensures n < 0 ==> Print(n) + tail == "-" + (PrintNat(-n) + tail)
    ensures n >= 0 ==> Print(n) == PrintNat(n) && (PrintNat(n) + tail)[0] != '-'
  {
    if n >= 0 { assert IsDigit(PrintNat(n)[0]); }
  }

  lemma NumberOfPrint(n: Int64, tail: Bytes)
    requires tail != [] && (tail[0] == ',' || tail[0] == '}')
    ensures ParseNumber(Print(n) + tail) == Done(Number(n), tail)
  {
    var m: int := n;
    if n < 0 { m := -m; }
    var ds := PrintNat(m) + tail;
    PrintSplit(n, tail);
    DigitsOfPrint(m, tail);
    NumberOfDigits(ds, m, tail);
  }

  lemma ValueOfPrint(v: Value, tail: Bytes)
    requires Printable(v) && tail != [] && (tail[0] == ',' || tail[0] == '}')
    ensures ParseValue(PrintValue(v) + tail) == Done(v, tail)
  {
    hide ParseChars, ParseNumber, Escape, Print;
    var t := PrintValue(v) + tail;
    match v
    case Text(s) =>
      assert t[1..] == Escape(s) + "\"" + tail;
      CharsOfEscape(s, tail);
    case Number(n) =>
      assert ParseNumber(t) == Done(v, tail) by { NumberOfPrint(n, tail); }
      assert t[0] == '-' || IsDigit(t[0]) by { PrintFirst(n); }
  }

  lemma MemberStep(t: Bytes, key: Bytes, value: Value, valueText: Bytes, tail: Bytes)
    requires t != [] && t[0] == '\"'
    requires ParseChars(t[1..]) == Done(key, ":" + valueText)
    requires ParseValue(valueText) == Done(value, tail)
    ensures ParseMember(t) == Done((key, value), tail)
  {
    assert (":" + valueText)[1..] == valueText;
  }

  lemma MemberOfPrint(m: Member, tail: Bytes)
    requires IsUtf8(m.0) && Printable(m.1) && tail != [] && (tail[0] == ',' || tail[0] == '}')
    ensures ParseMember(Quote(m.0) + ":" + PrintValue(m.1) + tail) == Done(m, tail)
  {
    hide PrintValue, Escape, ParseChars, ParseValue, ParseMember;
    var t := Quote(m.0) + ":" + PrintValue(m.1) + tail;
    var valueText := PrintValue(m.1) + tail;
    assert t[1..] == Escape(m.0) + "\"" + (":" + valueText);
    assert ParseChars(t[1..]) == Done(m.0, ":" + valueText) by { CharsOfEscape(m.0, ":" + valueText); }
    assert ParseValue(valueText) == Done(m.1, tail) by { ValueOfPrint(m.1, tail); }
    MemberStep(t, m.0, m.1, valueText, tail);
  }

  /** The object that a list of members denotes. */
  function Collect(members: seq<Member>, seen: Object): Object {
    if members == [] then seen else Collect(members[1..], seen[members[0].0 := members[0].1])
  }

  /** One round of the member loop, given what follows the member. */
  lemma MembersStep(m: Member, text: Bytes, after: Bytes, seen: Object)
    requires after != [] && ParseMember(text) == Done(m, after)
    ensures after[0] == ',' ==> ParseMembers(text, seen) == ParseMembers(after[1..], seen[m.0 := m.1])
    ensures after[0] == '}' ==> ParseMembers(text, seen) == Done(seen[m.0 := m.1], after[1..])
  {
  }

  /** The object of five members listed one by one. */
  lemma CollectFive(ms: seq<Member>, seen: Object)
    requires |ms| == 5
    ensures Collect(ms, seen) == seen[ms[0].0 := ms[0].1][ms[1].0 := ms[1].1][ms[2].0 := ms[2].1]
                                     [ms[3].0 := ms[3].1][ms[4].0 := ms[4].1]
  {
    var seen1 := seen[ms[0].0 := ms[0].1];
    var seen2 := seen1[ms[1].0 := ms[1].1];
    var seen3 := seen2[ms[2].0 := ms[2].1];
    var seen4 := seen3[ms[3].0 := ms[3].1];
    assert Collect(ms, seen) == Collect(ms[1..], seen1);
    assert ms[1..][1..] == ms[2..] && ms[2..][1..] == ms[3..] && ms[3..][1..] == ms[4..];
    assert Collect(ms[1..], seen1) == Collect(ms[2..], seen2);
    assert Collect(ms[2..], seen2) == Collect(ms[3..], seen3);
    assert Collect(ms[3..], seen3) == Collect(ms[4..], seen4);
  }

  lemma {:induction false} MembersOfPrint(members: seq<Member>, tail: Bytes, seen: Object)
    requires members != [] && AllPrintable(members)
    ensures ParseMembers(PrintMembers(members) + "}" + tail, seen) == Done(Collect(members, seen), tail)
    decreases |members|
  {
    hide PrintValue, Quote, ParseMember, ParseMembers;
    var m, others := members[0], members[1..];
    assert m in members;
    var first := Quote(m.0) + ":" + PrintValue(m.1);
    var t := PrintMembers(members) + "}" + tail;
    if |members| == 1 {
      var after := "}" + tail;
      assert t == first + after;
      assert after[1..] == tail;
      MemberOfPrint(m, after);
      MembersStep(m, t, after, seen);
    } else {
      var next := PrintMembers(others) + "}" + tail;
      var after := "," + next;
      assert t == first + after;
      assert after[1..] == next;
      MemberOfPrint(m, after);
      MembersStep(m, t, after, seen);
      MembersOfPrint(others, tail, seen[m.0 := m.1]);
    }
  }

  lemma ObjectOfMembers(body: Bytes, o: Object)
    requires body != [] && body[0] == '\"' && ParseMembers(body, map[]) == Done(o, [])
    ensures ParseObject("{" + body) == Done(o, []) && Parse("{" + body) == Done(o, [])
  {
    assert ("{" + body)[1..] == body;
  }

  /** Every object that can be printed is read back exactly. */
  lemma ParseDump(members: seq<Member>)
    requires Dump(members).Some?
    ensures ParseObject(Dump(members).value) == Done(Collect(members, map[]), [])
    ensures Parse(Dump(members).value) == Done(Collect(members, map[]), [])
  {
    var body := PrintMembers(members) + "}";
    assert Dump(members).value == "{" + body;
    if members != [] {
      assert body + [] == body;
      MembersOfPrint(members, [], map[]);
      ObjectOfMembers(body, Collect(members, map[]));
    }
  }

  /** A byte that a string holds as it is: printable ASCII but no quote and no backslash. */
  predicate IsPlain(c: Byte) {
    ' ' <= c && c as int < 0x80 && c != '\"' && c != '\\'
  }

  lemma {:induction false} PlainText(s: Bytes)
    requires forall i :: 0 <= i < |s| ==> IsPlain(s[i])
    ensures IsUtf8(s) && Escape(s) == s
    decreases |s|
  {
    if s != [] {
      assert IsPlain(s[0]);
      PlainText(s[1..]);
      assert s[..1] == [s[0]];
      assert EscapeUnit(s) == [s[0]];
      assert s == [s[0]] + s[1..];
    }
  }

  lemma PrintTwo(m: Member, m': Member)
    requires AllPrintable([m, m'])
    ensures IsUtf8(m.0) && Printable(m.1) && IsUtf8(m'.0) && Printable(m'.1)
    ensures PrintMembers([m, m']) ==
            Quote(m.0) + ":" + PrintValue(m.1) + ("," + (Quote(m'.0) + ":" + PrintValue(m'.1)))
  {
    hide Quote, PrintValue, IsUtf8;
    assert m in [m, m'] && m' in [m, m'];
    assert [m, m'][1..] == [m'];
  }

  /** One member, as it is printed. */
  function PrintMember(m: Member): Bytes
    requires IsUtf8(m.0) && Printable(m.1)
  {
    Quote(m.0) + ":" + PrintValue(m.1)
  }

  lemma PrintLast(m: Member)
    requires IsUtf8(m.0) && Printable(m.1)
    ensures PrintMembers([m]) == PrintMember(m)
  {
    hide Quote, PrintValue;
    assert PrintMember(m) + [] == PrintMember(m);
  }

  lemma PrintFront(m: Member, more: seq<Member>)
    requires more != [] && AllPrintable([m] + more)
    ensures IsUtf8(m.0) && Printable(m.1) && AllPrintable(more)
    ensures PrintMembers([m] + more) == PrintMember(m) + ("," + PrintMembers(more))
  {
    hide Quote, PrintValue, IsUtf8;
    assert ([m] + more)[1..] == more && m in [m] + more;
    forall n | n in more
      ensures IsUtf8(n.0) && Printable(n.1)
    {
      assert n in [m] + more;
    }
  }

  lemma PrintFive(a: Member, b: Member, c: Member, d: Member, e: Member)
    requires AllPrintable([a, b, c, d, e])
    ensures AllPrintable([a]) && AllPrintable([b]) && AllPrintable([c]) && AllPrintable([d]) && AllPrintable([e])
    ensures a in [a] && b in [b] && c in [c] && d in [d] && e in [e]
    ensures PrintMembers([a, b, c, d, e]) ==
            PrintMember(a) + ("," + (PrintMember(b) + ("," + (PrintMember(c) + ("," + (PrintMember(d) + ("," +
            PrintMember(e))))))))
  {
    hide PrintMember, PrintMembers, IsUtf8, Printable;
    assert [a, b, c, d, e] == [a] + [b, c, d, e] && [b, c, d, e] == [b] + [c, d, e];
    assert [c, d, e] == [c] + [d, e] && [d, e] == [d] + [e];
    PrintFront(a, [b, c, d, e]);
    PrintFront(b, [c, d, e]);
    PrintFront(c, [d, e]);
    PrintFront(d, [e]);
    assert e in [e];
    PrintLast(e);
  }

  /** Section 7 of RFC 8259, as `dump` uses it: the short escapes, `\u00XX` with lower-case digits for the other control
      characters, and everything else as it is. */
  lemma EscapesAre(c: Byte)
    requires c as int < 0x80
    ensures IsUtf8([c])
    ensures c == '\"' ==> Escape([c]) == "\\\""
    ensures c == '\\' ==> Escape([c]) == "\\\\"
    ensures c as int == 8 ==> Escape([c]) == "\\b"
    ensures c as int == 9 ==> Escape([c]) == "\\t"
    ensures c as int == 10 ==> Escape([c]) == "\\n"
    ensures c as int == 12 ==> Escape([c]) == "\\f"
    ensures c as int == 13 ==> Escape([c]) == "\\r"
    ensures c as int < 8 ==> Escape([c]) == "\\u000" + ["01234567"[c as int]]
    ensures c as int == 11 ==> Escape([c]) == "\\u000b"
    ensures c as int == 14 || c as int == 15 ==> Escape([c]) == "\\u000" + ["ef"[c as int - 14]]
    ensures 16 <= c as int < 32 ==> Escape([c]) == "\\u001" + ["0123456789abcdef"[c as int - 16]]
    ensures 32 <= c as int && c != '\"' && c != '\\' ==> Escape([c]) == [c]
  {
    EscapeOne(c);
  }

  lemma EscapeOne(c: Byte)
    requires c as int < 0x80
    ensures IsUtf8([c]) && Escape([c]) == EscapeByte(c)
  {
    hide EscapeByte;
    assert [c][..1] == [c] && [c][1..] == [];
  }

  lemma {:induction false} ValueIsPrinted(members: seq<Member>, i: nat)
    requires AllPrintable(members) && i < |members|
    ensures Printable(members[i].1) && |PrintMembers(members)| >= |PrintValue(members[i].1)|
  {
    hide Quote, PrintValue, IsUtf8;
    assert members[0] in members && members[i] in members;
    if i > 0 {
      ValueIsPrinted(members[1..], i - 1);
    }
  }

  // ---- What is decided on a text is decided on every longer text ----

  ghost predicate Stable<T(!new)>(short: Parsed<T>, long: Parsed<T>, u: Bytes) {
    && (short.Done? ==> long == Done(short.value, short.rest + u))
    && (short.Outside? ==> long.Outside?)
  }

  lemma UnitStable(t: Bytes, u: Bytes)
    ensures Stable(ParseUnit(t), ParseUnit(t + u), u)
  {
    if t != [] {
      var n := Need(t[0]);
      if n <= |t| { assert (t + u)[..n] == t[..n] && (t + u)[n..] == t[n..] + u; }
      if 2 <= |t| { assert (t + u)[2..] == t[2..] + u; }
      if 6 <= |t| { assert (t + u)[6..] == t[6..] + u; }
    }
  }

  lemma {:induction false} CharsStable(t: Bytes, u: Bytes)
    ensures Stable(ParseChars(t), ParseChars(t + u), u)
    decreases |t|
  {
    if t != [] {
      assert (t + u)[1..] == t[1..] + u;
      UnitStable(t, u);
      var c := ParseUnit(t);
      if t[0] != '\"' && c.Done? {
        CharsStable(c.rest, u);
      }
    }
  }

  lemma DigitsStable(t: Bytes, u: Bytes)
    ensures Stable(ParseDigits(t), ParseDigits(t + u), u)
  {
    var k := Run(t);
    if k < |t| {
      RunIs(t + u, k);
      assert (t + u)[..k] == t[..k] && (t + u)[k..] == t[k..] + u;
    }
  }

  lemma NumberStable(t: Bytes, u: Bytes)
    requires t != []
    ensures Stable(ParseNumber(t), ParseNumber(t + u), u)
  {
    hide ParseDigits;
    if t[0] == '-' {
      assert (t + u)[1..] == t[1..] + u;
      DigitsStable(t[1..], u);
    } else {
      DigitsStable(t, u);
    }
  }

  lemma ValueStable(t: Bytes, u: Bytes)
    ensures Stable(ParseValue(t), ParseValue(t + u), u)
  {
    if t != [] {
      assert (t + u)[1..] == t[1..] + u;
      CharsStable(t[1..], u);
      NumberStable(t, u);
    }
  }

  lemma ExpectStable(t: Bytes, c: Byte, u: Bytes)
    ensures Stable(Expect(t, c), Expect(t + u, c), u)
  {
    if t != [] { assert (t + u)[1..] == t[1..] + u; }
  }

  lemma MemberStable(t: Bytes, u: Bytes)
    ensures Stable(ParseMember(t), ParseMember(t + u), u)
  {
    ExpectStable(t, '\"', u);
    var r0 := Expect(t, '\"');
    if r0.Done? {
      CharsStable(r0.rest, u);
      var r1 := ParseChars(r0.rest);
      if r1.Done? {
        ExpectStable(r1.rest, ':', u);
        var r2 := Expect(r1.rest, ':');
        if r2.Done? { ValueStable(r2.rest, u); }
      }
    }
  }

  lemma {:induction false} MembersStable(t: Bytes, u: Bytes, seen: Object)
    ensures Stable(ParseMembers(t, seen), ParseMembers(t + u, seen), u)
    decreases |t|
  {
    MemberStable(t, u);
    var m := ParseMember(t);
    if m.Done? && m.rest != [] {
      assert (m.rest + u)[1..] == m.rest[1..] + u;
      MembersStable(m.rest[1..], u, seen[m.value.0 := m.value.1]);
    }
  }

  lemma ObjectStable(t: Bytes, u: Bytes)
    ensures Stable(ParseObject(t), ParseObject(t + u), u)
  {
    ExpectStable(t, '{', u);
    var r := Expect(t, '{');
    if r.Done? && r.rest != [] {
      assert (r.rest + u)[1..] == r.rest[1..] + u;
      MembersStable(r.rest, u, map[]);
    }
  }

  lemma CutIsTruncated(t: Bytes, k: nat)
    requires k < |t| && ParseObject(t).Done? && ParseObject(t).rest == []
    ensures Parse(t[..k]).Truncated?
  {
    ObjectStable(t[..k], t[k..]);
    assert t == t[..k] + t[k..];
  }

  /** Nothing may follow an object: such a text is not in the grammar. */
  lemma TrailingIsOutside(t: Bytes, u: Bytes)
    requires Parse(t).Done? && u != []
    ensures Parse(t + u) == Outside
  {
    hide ParseObject;
    ObjectStable(t, u);
    assert [] + u == u;
  }

  /** No proper prefix of a printed object is a text the parser could accept: the input always ends too soon. */
  lemma CutDumpIsTruncated(members: seq<Member>, k: nat)
    requires Dump(members).Some? && k < |Dump(members).value|
    ensures Parse(Dump(members).value[..k]).Truncated?
  {
    ParseDump(members);
    CutIsTruncated(Dump(members).value, k);
  }
}
