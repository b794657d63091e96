/** Decimal text of integers, and `std::stoi`. */
module Decimal {
  import opened Strings

  predicate IsDigit(c: Byte) {
    '0' <= c <= '9'
  }

  function Digit(d: int): Byte
    requires 0 <= d < 10
  {
    ('0' as int + d) as char
  }

  function DigitValue(c: Byte): (d: int)
    requires IsDigit(c)
    ensures 0 <= d < 10
  {
    c as int - '0' as int
  }

  /** Decimal text without leading zeros. */
  function PrintNat(n: nat): (r: Bytes)
    ensures r != [] && forall i :: 0 <= i < |r| ==> IsDigit(r[i])
    ensures n >= 10 ==> r[0] != '0'
    ensures n > 0 ==> r[0] != '0'
  {
    if n < 10 then [Digit(n)] else PrintNat(n / 10) + [Digit(n % 10)]
  }

  function Print(n: int): Bytes {
    if n < 0 then "-" + PrintNat(-n) else PrintNat(n)
  }

  /** The number a run of digits stands for. */
  function FromDigits(ds: Bytes): (n: nat)
    requires forall i :: 0 <= i < |ds| ==> IsDigit(ds[i])
  {
    if ds == [] then 0 else 10 * FromDigits(ds[..|ds| - 1]) + DigitValue(ds[|ds| - 1])
  }

  lemma {:induction false} FromDigitsPrint(n: nat)
    ensures FromDigits(PrintNat(n)) == n
  {
    if n >= 10 {
      FromDigitsPrint(n / 10);
      assert PrintNat(n)[..|PrintNat(n)| - 1] == PrintNat(n / 10);
    }
  }

  /** Length of the longest prefix of digits. */
  function Run(t: Bytes): (k: nat)
    ensures k <= |t| && forall i :: 0 <= i < k ==> IsDigit(t[i])
    ensures k < |t| ==> !IsDigit(t[k])
  {
    if t == [] || !IsDigit(t[0]) then 0 else 1 + Run(t[1..])
  }

  lemma RunIs(t: Bytes, k: nat)
    requires k <= |t| && forall i :: 0 <= i < k ==> IsDigit(t[i])
    requires k < |t| ==> !IsDigit(t[k])
    ensures Run(t) == k
  {
  }

  /** A printed number is the digit run at the front of any text that continues with a non-digit. */
  lemma LeadingNumber(n: nat, tail: Bytes)
    requires tail == [] || !IsDigit(tail[0])
    ensures var t := PrintNat(n) + tail;
            && Run(t) == |PrintNat(n)| && t[..Run(t)] == PrintNat(n) && t[Run(t)..] == tail
            && FromDigits(t[..Run(t)]) == n
  {
    RunIs(PrintNat(n) + tail, |PrintNat(n)|);
    FromDigitsPrint(n);
  }

  // ---- std::stoi ----

  predicate IsSpace(c: Byte) {
    c == ' ' || '\t' <= c <= '\r'
  }

  function SkipSpaces(t: Bytes): Bytes {
    if t != [] && IsSpace(t[0]) then SkipSpaces(t[1..]) else t
  }

  /** `std::stoi`: white space, an optional sign, then as many digits as follow; the rest is ignored. `None` is
      the exception for no digits or for a number that does not fit an `int`. */
  function Stoi(t: Bytes): Option<Int32> {
    var s := SkipSpaces(t);
    var signed := s != [] && (s[0] == '-' || s[0] == '+');
    var ds := if signed then s[1..] else s;
    var n: int := FromDigits(ds[..Run(ds)]);
    var v := if signed && s[0] == '-' then -n else n;
    if Run(ds) == 0 || !(-0x8000_0000 <= v < 0x8000_0000) then None else Some(v)
  }

  /** `stoi` reads back every `int` that was printed. */
  lemma StoiPrint(x: Int32)
    ensures Stoi(Print(x)) == Some(x)
  {
    hide PrintNat, FromDigits, Run, SkipSpaces;
    var y: int := x;
    var n: nat := if y < 0 then -y else y;
    SignedDigits(y);
    AllDigits(n);
    assert PrintNat(n)[..|PrintNat(n)|] == PrintNat(n);
  }

  /** A printed number is one run of digits. */
  lemma AllDigits(n: nat)
    ensures Run(PrintNat(n)) == |PrintNat(n)| > 0 && FromDigits(PrintNat(n)) == n
  {
    RunIs(PrintNat(n), |PrintNat(n)|);
    FromDigitsPrint(n);
  }

  /** A printed integer starts with its sign or a digit, and there is nothing to skip before it. */
  lemma SignedDigits(x: int)
    ensures Print(x) != [] && SkipSpaces(Print(x)) == Print(x)
    ensures x < 0 ==> Print(x)[0] == '-' && Print(x)[1..] == PrintNat(-x)
    ensures x >= 0 ==> IsDigit(Print(x)[0]) && Print(x) == PrintNat(x)
  {
    hide PrintNat;
  }

  /** Every text is white space, a sign or none, a run of digits and a rest; `stoi` reads the run with its sign, and
      fails just when the run is empty or its value does not fit 32 bits. */
  lemma StoiExactly(spaces: Bytes, sign: Bytes, ds: Bytes, rest: Bytes)
    requires forall i :: 0 <= i < |spaces| ==> spaces[i] as int == 32 || 9 <= spaces[i] as int <= 13
    requires (sign == "" || sign == "+" || sign == "-") && forall i :: 0 <= i < |ds| ==> IsDigit(ds[i])
    requires rest == [] || !IsDigit(rest[0])
    requires sign == "" && ds == [] && rest != [] ==> rest[0] != '+' && rest[0] != '-' && !IsSpace(rest[0])
    ensures var n: int := FromDigits(ds);
            var v := if sign == "-" then -n else n;
            Stoi(spaces + (sign + (ds + rest))) ==
            if ds == [] || v < -2147483648 || v > 2147483647 then None else Some(v)
  {
    hide Stoi, FromDigits, SkipSpaces;
    var t := spaces + (sign + (ds + rest));
    SkipExactly(spaces, sign + (ds + rest));
    if sign != "" {
      StoiSigned(t, sign[0], ds, rest);
    } else {
      assert sign + (ds + rest) == ds + rest;
      StoiUnsigned(t, ds, rest);
    }
  }

  lemma StoiSigned(t: Bytes, sign: Byte, ds: Bytes, rest: Bytes)
    requires (sign == '+' || sign == '-') && forall i :: 0 <= i < |ds| ==> IsDigit(ds[i])
    requires (rest == [] || !IsDigit(rest[0])) && SkipSpaces(t) == [sign] + (ds + rest)
    ensures var n: int := FromDigits(ds);
            var v := if sign == '-' then -n else n;
            Stoi(t) == if ds == [] || v < -2147483648 || v > 2147483647 then None else Some(v)
  {
    hide FromDigits, Run, SkipSpaces;
    RunIs(ds + rest, |ds|);
    assert (ds + rest)[..|ds|] == ds && ([sign] + (ds + rest))[1..] == ds + rest;
  }

  lemma StoiUnsigned(t: Bytes, ds: Bytes, rest: Bytes)
    requires (forall i :: 0 <= i < |ds| ==> IsDigit(ds[i])) && (rest == [] || !IsDigit(rest[0]))
    requires ds == [] && rest != [] ==> rest[0] != '+' && rest[0] != '-'
    requires SkipSpaces(t) == ds + rest
    ensures var n: int := FromDigits(ds);
            Stoi(t) == if ds == [] || n > 2147483647 then None else Some(n)
  {
    hide FromDigits, Run, SkipSpaces;
    RunIs(ds + rest, |ds|);
    assert (ds + rest)[..|ds|] == ds;
  }

  lemma {:induction false} SkipExactly(spaces: Bytes, t: Bytes)
    requires forall i :: 0 <= i < |spaces| ==> spaces[i] as int == 32 || 9 <= spaces[i] as int <= 13
    requires t == [] || !IsSpace(t[0])
    ensures SkipSpaces(spaces + t) == t
  {
    if spaces == [] {
      assert spaces + t == t;
    } else {
      assert (spaces + t)[1..] == spaces[1..] + t;
      SkipExactly(spaces[1..], t);
    }
  }

  lemma DigitIs(d: int)
    requires 0 <= d < 10
    ensures Digit(d) == "0123456789"[d] && DigitValue(Digit(d)) == d
  {
  }

  lemma PrintFirst(x: int)
    ensures Print(x) != [] && (Print(x)[0] == '-' || IsDigit(Print(x)[0]))
  {
  }

  /** Printed numbers hold neither spaces nor line ends. */
  lemma PrintBytes(x: int)
    ensures Print(x) != [] && forall c :: c in Print(x) ==> c == '-' || IsDigit(c)
  {
  }
}
