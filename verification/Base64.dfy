/** base64url as `src/auth/jwt_utils.cpp` builds it: OpenSSL's base64 filter (section 4 of RFC 4648),
    then a substitution of two characters and removal of the padding, and the reverse on the way back. */
module Base64 {
  import opened Strings

  /** What one `BIO_read` into `char buffer[512]` may return: `sizeof(buffer) - 1` bytes. */
  const READ_LIMIT := 511

  // ---- The alphabet ----

  function Symbol(i: int): Byte
    requires 0 <= i < 64
  {
    if i < 26 then ('A' as int + i) as char
    else if i < 52 then ('a' as int + (i - 26)) as char
    else if i < 62 then ('0' as int + (i - 52)) as char
    else if i == 62 then '+'
    else '/'
  }

  predicate IsSymbol(c: Byte) {
    'A' <= c <= 'Z' || 'a' <= c <= 'z' || '0' <= c <= '9' || c == '+' || c == '/'
  }

  function Sextet(c: Byte): (i: int)
    requires IsSymbol(c)
    ensures 0 <= i < 64 && Symbol(i) == c
  {
    if 'A' <= c <= 'Z' then c as int - 'A' as int
    else if 'a' <= c <= 'z' then c as int - 'a' as int + 26
    else if '0' <= c <= '9' then c as int - '0' as int + 52
    else if c == '+' then 62
    else 63
  }

  lemma SymbolSextet(i: int)
    requires 0 <= i < 64
    ensures IsSymbol(Symbol(i)) && Sextet(Symbol(i)) == i
  {
  }

  predicate IsUrlSymbol(c: Byte) {
    'A' <= c <= 'Z' || 'a' <= c <= 'z' || '0' <= c <= '9' || c == '-' || c == '_'
  }

  // ---- OpenSSL's filter, in both directions ----

  /** 24 bits, as three bytes, become four symbols. */
  function EncodeGroup(a: Byte, b: Byte, c: Byte): (r: Bytes)
    ensures |r| == 4
  {
    var x, y, z := a as int, b as int, c as int;
    [Symbol(x / 4), Symbol(x % 4 * 16 + y / 16), Symbol(y % 16 * 4 + z / 64), Symbol(z % 64)]
  }

  /** `BIO_write` then `BIO_flush` through `BIO_f_base64` with `BIO_FLAGS_BASE64_NO_NL`. */
  function Encode(x: Bytes): Bytes {
    if |x| == 0 then []
    else if |x| == 1 then EncodeGroup(x[0], '\0', '\0')[..2] + "=="
    else if |x| == 2 then EncodeGroup(x[0], x[1], '\0')[..3] + "="
    else EncodeGroup(x[0], x[1], x[2]) + Encode(x[3..])
  }

  function DecodeGroup(a: Byte, b: Byte, c: Byte, d: Byte): (r: Bytes)
    requires IsSymbol(a) && IsSymbol(b) && IsSymbol(c) && IsSymbol(d)
    ensures |r| == 3
  {
    FromSextets(Sextet(a), Sextet(b), Sextet(c), Sextet(d))
  }

  /** Four sextets hold 24 bits, three bytes. */
  function FromSextets(w: int, x: int, y: int, z: int): (r: Bytes)
    requires 0 <= w < 64 && 0 <= x < 64 && 0 <= y < 64 && 0 <= z < 64
    ensures |r| == 3
  {
    [(w * 4 + x / 16) as char, (x % 16 * 16 + y / 4) as char, (y % 4 * 64 + z) as char]
  }

  /** Decoding of well-formed padded base64; `None` on every other text. */
  function Decode(t: Bytes): Option<Bytes> {
    if |t| == 0 then Some([])
    else if |t| < 4 || !IsSymbol(t[0]) || !IsSymbol(t[1]) then None
    else if t[2..] == "==" then Some(DecodeGroup(t[0], t[1], 'A', 'A')[..1])
    else if !IsSymbol(t[2]) then None
    else if t[3..] == "=" then Some(DecodeGroup(t[0], t[1], t[2], 'A')[..2])
    else if !IsSymbol(t[3]) then None
    else
      var rest := Decode(t[4..]);
      if rest == None then None else Some(DecodeGroup(t[0], t[1], t[2], t[3]) + rest.value)
  }

  // ---- The repository's own steps ----

  function ToUrl(c: Byte): Byte {
    if c == '+' then '-' else if c == '/' then '_' else c
  }

  function FromUrl(c: Byte): Byte {
    if c == '-' then '+' else if c == '_' then '/' else c
  }

  function MapToUrl(s: Bytes): (r: Bytes)
    ensures |r| == |s| && forall i :: 0 <= i < |s| ==> r[i] == ToUrl(s[i])
  {
    seq(|s|, i requires 0 <= i < |s| => ToUrl(s[i]))
  }

  function MapFromUrl(s: Bytes): (r: Bytes)
    ensures |r| == |s| && forall i :: 0 <= i < |s| ==> r[i] == FromUrl(s[i])
  {
    seq(|s|, i requires 0 <= i < |s| => FromUrl(s[i]))
  }

  /** `erase(find_last_not_of("=") + 1)`: every trailing `=` goes. */
  function Strip(s: Bytes): (r: Bytes)
    ensures r <= s && (r == [] || r[|r| - 1] != '=')
    ensures forall i :: |r| <= i < |s| ==> s[i] == '='
  {
    if s == [] || s[|s| - 1] != '=' then s else Strip(s[..|s| - 1])
  }

  function Pad(s: Bytes): (r: Bytes)
    ensures s <= r && |r| % 4 == 0 && |r| < |s| + 4
    ensures forall i :: |s| <= i < |r| ==> r[i] == '='
    decreases (4 - |s| % 4) % 4
  {
    if |s| % 4 == 0 then s else Pad(s + "=")
  }

  function UrlEncode(x: Bytes): Bytes {
    Strip(MapToUrl(Encode(x)))
  }

  /** What the filter yields on the re-padded text. `malformed` is OpenSSL's answer on texts that are not
      base64, about which nothing is assumed. */
  function Filter(malformed: Bytes -> Bytes, padded: Bytes): Bytes {
    match Decode(padded)
    case Some(x) => x
    case None => malformed(padded)
  }

  function UrlDecode(malformed: Bytes -> Bytes, t: Bytes): Bytes {
    Clip(Filter(malformed, Pad(MapFromUrl(t))))
  }

  /** One read fills at most `READ_LIMIT` bytes. */
  function Clip(x: Bytes): Bytes {
    if |x| <= READ_LIMIT then x else x[..READ_LIMIT]
  }

  // ---- The codec is lossless ----

  /** Splitting 24 bits into sextets loses nothing. */
  lemma SextetBits(a: Byte, b: Byte, c: Byte)
    ensures var x, y, z := a as int, b as int, c as int;
            FromSextets(x / 4, x % 4 * 16 + y / 16, y % 16 * 4 + z / 64, z % 64) == [a, b, c]
  {
    var x, y, z := a as int, b as int, c as int;
    assert x / 4 * 4 + (x % 4 * 16 + y / 16) / 16 == x;
    assert (x % 4 * 16 + y / 16) % 16 * 16 + (y % 16 * 4 + z / 64) / 4 == y;
    assert (y % 16 * 4 + z / 64) % 4 * 64 + z % 64 == z;
  }

  lemma GroupSymbols(a: Byte, b: Byte, c: Byte)
    ensures var g := EncodeGroup(a, b, c);
            && IsSymbol(g[0]) && IsSymbol(g[1]) && IsSymbol(g[2]) && IsSymbol(g[3])
            && Sextet(g[0]) == a as int / 4 && Sextet(g[1]) == a as int % 4 * 16 + b as int / 16
            && Sextet(g[2]) == b as int % 16 * 4 + c as int / 64 && Sextet(g[3]) == c as int % 64
  {
    SymbolSextet(a as int / 4);
    SymbolSextet(a as int % 4 * 16 + b as int / 16);
    SymbolSextet(b as int % 16 * 4 + c as int / 64);
    SymbolSextet(c as int % 64);
  }

  lemma ThreeBytes(a: Byte, b: Byte, c: Byte)
    ensures var g := EncodeGroup(a, b, c);
            && IsSymbol(g[0]) && IsSymbol(g[1]) && IsSymbol(g[2]) && IsSymbol(g[3])
            && DecodeGroup(g[0], g[1], g[2], g[3]) == [a, b, c]
  {
    GroupSymbols(a, b, c);
    SextetBits(a, b, c);
  }

  /** The first two bytes of a group need three symbols, the first byte needs two. */
  lemma DecodeGroupPrefix(a: Byte, b: Byte, c: Byte, d: Byte)
    requires IsSymbol(a) && IsSymbol(b) && IsSymbol(c) && IsSymbol(d)
    ensures DecodeGroup(a, b, c, 'A')[..2] == DecodeGroup(a, b, c, d)[..2]
    ensures DecodeGroup(a, b, 'A', 'A')[..1] == DecodeGroup(a, b, c, d)[..1]
  {
  }

  lemma OneByte(a: Byte)
    ensures var g := EncodeGroup(a, '\0', '\0');
            IsSymbol(g[0]) && IsSymbol(g[1]) && DecodeGroup(g[0], g[1], 'A', 'A')[..1] == [a]
  {
    var g := EncodeGroup(a, '\0', '\0');
    ThreeBytes(a, '\0', '\0');
    DecodeGroupPrefix(g[0], g[1], g[2], g[3]);
  }

  lemma TwoBytes(a: Byte, b: Byte)
    ensures var g := EncodeGroup(a, b, '\0');
            IsSymbol(g[0]) && IsSymbol(g[1]) && IsSymbol(g[2]) && DecodeGroup(g[0], g[1], g[2], 'A')[..2] == [a, b]
  {
    var g := EncodeGroup(a, b, '\0');
    ThreeBytes(a, b, '\0');
    DecodeGroupPrefix(g[0], g[1], g[2], g[3]);
  }

  /** `Decode` on a text whose first four characters are symbols. */
  lemma DecodeStep(g: Bytes, rest: Bytes, x: Bytes)
    requires |g| == 4 && IsSymbol(g[0]) && IsSymbol(g[1]) && IsSymbol(g[2]) && IsSymbol(g[3])
    requires Decode(rest) == Some(x)
    ensures Decode(g + rest) == Some(DecodeGroup(g[0], g[1], g[2], g[3]) + x)
  {
    var t := g + rest;
    assert t[2..][0] == g[2] && t[3..][0] == g[3];
    assert t[4..] == rest;
  }

  lemma DecodeTwoSymbols(g: Bytes)
    requires |g| == 2 && IsSymbol(g[0]) && IsSymbol(g[1])
    ensures Decode(g + "==") == Some(DecodeGroup(g[0], g[1], 'A', 'A')[..1])
  {
    assert (g + "==")[2..] == "==";
  }

  lemma DecodeThreeSymbols(g: Bytes)
    requires |g| == 3 && IsSymbol(g[0]) && IsSymbol(g[1]) && IsSymbol(g[2])
    ensures Decode(g + "=") == Some(DecodeGroup(g[0], g[1], g[2], 'A')[..2])
  {
    var t := g + "=";
    assert t[2..][0] == g[2];
    assert t[3..] == "=";
  }

  lemma DecodeOne(a: Byte)
    ensures Decode(Encode([a])) == Some([a])
  {
    OneByte(a);
    DecodeTwoSymbols(EncodeGroup(a, '\0', '\0')[..2]);
  }

  lemma DecodeTwo(a: Byte, b: Byte)
    ensures Decode(Encode([a, b])) == Some([a, b])
  {
    TwoBytes(a, b);
    DecodeThreeSymbols(EncodeGroup(a, b, '\0')[..3]);
  }

  lemma DecodeNothing()
    ensures Decode(Encode([])) == Some([])
  {
  }

  lemma EncodeStep(x: Bytes)
    requires |x| >= 3
    ensures Encode(x) == EncodeGroup(x[0], x[1], x[2]) + Encode(x[3..])
  {
    hide EncodeGroup;
  }

  lemma {:induction false} DecodeEncode(x: Bytes)
    ensures Decode(Encode(x)) == Some(x)
  {
    hide Encode, Decode, EncodeGroup, DecodeGroup;
    if x == [] {
      DecodeNothing();
    } else if |x| == 1 {
      DecodeOne(x[0]);
      assert x == [x[0]];
    } else if |x| == 2 {
      DecodeTwo(x[0], x[1]);
      assert x == [x[0], x[1]];
    } else {
      ThreeBytes(x[0], x[1], x[2]);
      EncodeStep(x);
      DecodeEncode(x[3..]);
      DecodeStep(EncodeGroup(x[0], x[1], x[2]), Encode(x[3..]), x[3..]);
      assert x == [x[0], x[1], x[2]] + x[3..];
    }
  }

  /** Length of the encoding of `n` bytes without padding. */
  function BareLength(n: nat): nat {
    n / 3 * 4 + if n % 3 == 0 then 0 else n % 3 + 1
  }

  lemma BareLengthIsCeiling(n: nat)
    ensures BareLength(n) == (4 * n + 2) / 3 && BareLength(n) % 4 != 1
  {
    var k, r := n / 3, n % 3;
    assert n == 3 * k + r;
  }

  /** The encoding without its padding. */
  function Symbols(x: Bytes): (r: Bytes)
    ensures |r| == BareLength(|x|)
    ensures forall i :: 0 <= i < |r| ==> IsSymbol(r[i])
  {
    if |x| == 0 then []
    else if |x| == 1 then
      OneByte(x[0]);
      EncodeGroup(x[0], '\0', '\0')[..2]
    else if |x| == 2 then
      TwoBytes(x[0], x[1]);
      EncodeGroup(x[0], x[1], '\0')[..3]
    else
      ThreeBytes(x[0], x[1], x[2]);
      EncodeGroup(x[0], x[1], x[2]) + Symbols(x[3..])
  }

  /** The padding that the encoding of `n` bytes carries: none, one or two `=`. */
  function Padding(n: nat): (r: Bytes)
    ensures |r| <= 2 && (BareLength(n) + |r|) % 4 == 0
    ensures forall i :: 0 <= i < |r| ==> r[i] == '='
  {
    if n % 3 == 0 then "" else if n % 3 == 1 then "==" else "="
  }

  lemma {:induction false} EncodeForm(x: Bytes)
    ensures Encode(x) == Symbols(x) + Padding(|x|)
  {
    if |x| >= 3 {
      EncodeForm(x[3..]);
      assert |x[3..]| == |x| - 3;
    }
  }

  lemma StripIs(s: Bytes, r: Bytes)
    requires r <= s && (r == [] || r[|r| - 1] != '=')
    requires forall i :: |r| <= i < |s| ==> s[i] == '='
    ensures Strip(s) == r
  {
    var q := Strip(s);
    assert q == s[..|q|] && r == s[..|r|];
  }

  lemma UrlEncodeIs(x: Bytes)
    ensures UrlEncode(x) == MapToUrl(Symbols(x))
  {
    EncodeForm(x);
    var r := MapToUrl(Symbols(x));
    assert MapToUrl(Encode(x)) == r + Padding(|x|);
    assert r != [] ==> IsSymbol(Symbols(x)[|r| - 1]);
    StripIs(MapToUrl(Encode(x)), r);
  }

  /** base64url of `n` bytes: ceil(4n/3) characters, all from the url alphabet, never 1 modulo 4. */
  lemma UrlEncodeForm(x: Bytes)
    ensures |UrlEncode(x)| == (4 * |x| + 2) / 3
    ensures |UrlEncode(x)| % 4 != 1
    ensures forall c :: c in UrlEncode(x) ==> IsUrlSymbol(c)
  {
    UrlEncodeIs(x);
    BareLengthIsCeiling(|x|);
    forall c | c in UrlEncode(x)
      ensures IsUrlSymbol(c)
    {
      var i :| 0 <= i < |Symbols(x)| && MapToUrl(Symbols(x))[i] == c;
      assert IsSymbol(Symbols(x)[i]);
    }
  }

  /** Substituting back undoes the substitution on base64 symbols. */
  lemma FromToUrl(s: Bytes)
    requires forall i :: 0 <= i < |s| ==> IsSymbol(s[i])
    ensures MapFromUrl(MapToUrl(s)) == s
  {
    forall i | 0 <= i < |s|
      ensures FromUrl(ToUrl(s[i])) == s[i]
    {
      assert IsSymbol(s[i]);
    }
  }

  /** Re-padding has one possible outcome. */
  lemma {:induction false} PadIs(s: Bytes, p: Bytes)
    requires (|s| + |p|) % 4 == 0 && |p| < 4
    requires forall i :: 0 <= i < |p| ==> p[i] == '='
    ensures Pad(s) == s + p
    decreases |p|
  {
    if p != [] {
      PadIs(s + "=", p[1..]);
      assert s + p == s + "=" + p[1..];
    }
  }

  lemma PadSymbols(x: Bytes)
    ensures Pad(Symbols(x)) == Encode(x)
  {
    PadIs(Symbols(x), Padding(|x|));
    EncodeForm(x);
  }

  /** Substituting back and re-padding restores the standard encoding, with 0, 1 or 2 `=` appended. */
  lemma PadRestores(x: Bytes)
    ensures Pad(MapFromUrl(UrlEncode(x))) == Encode(x)
    ensures |Encode(x)| <= |UrlEncode(x)| + 2
  {
    assert UrlEncode(x) == MapToUrl(Symbols(x)) by { UrlEncodeIs(x); }
    assert MapFromUrl(MapToUrl(Symbols(x))) == Symbols(x) by { FromToUrl(Symbols(x)); }
    PadSymbols(x);
    assert |Encode(x)| <= |Symbols(x)| + 2 by { EncodeForm(x); }
  }

  /** Decoding an encoding gives the bytes back, up to the 511 that fit one read. */
  lemma UrlRoundTrip(malformed: Bytes -> Bytes, x: Bytes)
    ensures UrlDecode(malformed, UrlEncode(x)) == if |x| <= 511 then x else x[..511]
  {
    PadRestores(x);
    DecodeEncode(x);
  }

  /** The round trip is exact just for inputs that fit. */
  lemma UrlRoundTripExact(malformed: Bytes -> Bytes, x: Bytes)
    ensures UrlDecode(malformed, UrlEncode(x)) == x <==> |x| <= 511
  {
    UrlRoundTrip(malformed, x);
  }

  // ---- The standard ----

  /** The alphabets of sections 4 and 5 of RFC 4648, and the way back from the second to the first. */
  lemma AlphabetIs(i: int)
    requires 0 <= i < 64
    ensures i < 26 ==> Symbol(i) == "ABCDEFGHIJKLMNOPQRSTUVWXYZ"[i]
    ensures 26 <= i < 52 ==> Symbol(i) == "abcdefghijklmnopqrstuvwxyz"[i - 26]
    ensures 52 <= i < 62 ==> Symbol(i) == "0123456789"[i - 52]
    ensures Symbol(62) == '+' && Symbol(63) == '/'
    ensures ToUrl(Symbol(i)) == if i == 62 then '-' else if i == 63 then '_' else Symbol(i)
    ensures FromUrl(ToUrl(Symbol(i))) == Symbol(i)
  {
    if i < 52 { LettersInOrder(if i < 26 then i else i - 26); } else if i < 62 { DigitsInOrder(i - 52); }
  }

  lemma LettersInOrder(k: int)
    requires 0 <= k < 26
    ensures "ABCDEFGHIJKLMNOPQRSTUVWXYZ"[k] == ('A' as int + k) as char
    ensures "abcdefghijklmnopqrstuvwxyz"[k] == ('a' as int + k) as char
  {
  }

  lemma DigitsInOrder(k: int)
    requires 0 <= k < 10
    ensures "0123456789"[k] == ('0' as int + k) as char
  {
  }

  /** The four symbols of a group are the 24 bits of its three bytes, six at a time, the highest first. */
  lemma GroupIsBits(a: Byte, b: Byte, c: Byte)
    ensures var g := EncodeGroup(a, b, c);
            && (forall k :: 0 <= k < 4 ==> IsSymbol(g[k]))
            && 65536 * a as int + 256 * b as int + c as int ==
               262144 * Sextet(g[0]) + 4096 * Sextet(g[1]) + 64 * Sextet(g[2]) + Sextet(g[3])
  {
    GroupSymbols(a, b, c);
  }

  /** The test vectors of section 10 of RFC 4648. */
  lemma TestVectors()
    ensures Encode("") == "" && Encode("f") == "Zg==" && Encode("fo") == "Zm8=" && Encode("foo") == "Zm9v"
    ensures Encode("foob") == "Zm9vYg==" && Encode("fooba") == "Zm9vYmE=" && Encode("foobar") == "Zm9vYmFy"
  {
    hide Encode, EncodeGroup;
    ShortVectors();
    LongVector("foo", "");
    LongVector("foob", "b");
    LongVector("fooba", "ba");
    LongVector("bar", "");
    LongVector("foobar", "bar");
  }

  lemma LongVector(x: Bytes, rest: Bytes)
    requires |x| >= 3 && x[3..] == rest
    ensures Encode(x) == EncodeGroup(x[0], x[1], x[2]) + Encode(rest)
  {
    hide EncodeGroup;
    EncodeStep(x);
  }

  lemma ShortVectors()
    ensures Encode("") == "" && Encode("f") == "Zg==" && Encode("fo") == "Zm8="
    ensures Encode("b") == "Yg==" && Encode("ba") == "YmE="
    ensures EncodeGroup('f', 'o', 'o') == "Zm9v" && EncodeGroup('b', 'a', 'r') == "YmFy"
  {
    hide EncodeGroup;
    TestGroups();
  }

  lemma TestGroups()
    ensures EncodeGroup('f', '\0', '\0')[..2] == "Zg" && EncodeGroup('f', 'o', '\0')[..3] == "Zm8"
    ensures EncodeGroup('f', 'o', 'o') == "Zm9v" && EncodeGroup('b', 'a', 'r') == "YmFy"
    ensures EncodeGroup('b', '\0', '\0')[..2] == "Yg" && EncodeGroup('b', 'a', '\0')[..3] == "YmE"
  {
  }

  // ---- The loops over the local buffers ----

  /** `BIO_write` of a whole string: three bytes at a time, the remainder on flush. */
  method BioWrite(input: Bytes) returns (out: Bytes)
    ensures out == Encode(input)
  {
    out := [];
    var i := 0;
    while i + 3 <= |input|
      invariant 0 <= i <= |input|
      invariant out + Encode(input[i..]) == Encode(input)
    {
      var group := EncodeGroup(input[i], input[i + 1], input[i + 2]);
      assert input[i..][3..] == input[i + 3..];
      assert out + (group + Encode(input[i + 3..])) == out + group + Encode(input[i + 3..]);
      out := out + group;
      i := i + 3;
    }
    if i + 1 == |input| {
      out := out + EncodeGroup(input[i], '\0', '\0')[..2] + "==";
    } else if i + 2 == |input| {
      out := out + EncodeGroup(input[i], input[i + 1], '\0')[..3] + "=";
    }
  }

  /** `base64_url_encode`. */
  method EncodeUrl(input: Bytes) returns (result: Bytes)
    ensures result == UrlEncode(input)
  {
    result := BioWrite(input);
    ghost var full := result;
    for i := 0 to |result|
      invariant |result| == |full|
      invariant forall k :: 0 <= k < i ==> result[k] == ToUrl(full[k])
      invariant forall k :: i <= k < |full| ==> result[k] == full[k]
    {
      if result[i] == '+' {
        result := result[i := '-'];
      } else if result[i] == '/' {
        result := result[i := '_'];
      }
    }
    assert result == MapToUrl(full);
    ghost var mapped := result;
    while |result| > 0 && result[|result| - 1] == '='
      invariant Strip(result) == Strip(mapped)
    {
      result := result[..|result| - 1];
    }
  }

  /** `base64_url_decode`. */
  method DecodeUrl(malformed: Bytes -> Bytes, input: Bytes) returns (result: Bytes)
    ensures result == UrlDecode(malformed, input)
  {
    var decoded: Bytes := input;
    for i := 0 to |decoded|
      invariant |decoded| == |input|
      invariant forall k :: 0 <= k < i ==> decoded[k] == FromUrl(input[k])
      invariant forall k :: i <= k < |input| ==> decoded[k] == input[k]
    {
      if decoded[i] == '-' {
        decoded := decoded[i := '+'];
      } else if decoded[i] == '_' {
        decoded := decoded[i := '/'];
      }
    }
    ghost var mapped := MapFromUrl(input);
    assert decoded == mapped;
    while |decoded| % 4 != 0
      invariant Pad(decoded) == Pad(mapped)
      decreases |Pad(mapped)| - |decoded|
    {
      assert |decoded| < |Pad(decoded)|;
      decoded := decoded + "=";
    }
    var bytes := Filter(malformed, decoded);
    result := if |bytes| <= READ_LIMIT then bytes else bytes[..READ_LIMIT];
  }
}
