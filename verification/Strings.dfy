/** Byte strings (`std::string`), machine integers and the few string operations every component uses. */
module Strings {

  datatype Option<+T> = None | Some(value: T)

  /** One `char` of a `std::string`: a byte, written as the character with that code. */
  type Byte = c: char | c as int < 256 witness 'a'
  type Bytes = seq<Byte>

  type Int32 = x: int | -0x8000_0000 <= x < 0x8000_0000
  type Int64 = x: int | -0x8000_0000_0000_0000 <= x < 0x8000_0000_0000_0000
  type Size = x: int | 0 <= x < 0x1_0000_0000_0000_0000

  /** `int` to `size_t`: negative numbers wrap around. */
  function Widen(x: Int32): (r: Size)
    ensures (r - x) % 0x1_0000_0000_0000_0000 == 0
  {
    if x < 0 then x + 0x1_0000_0000_0000_0000 else x
  }

  /** Any 64-bit integer to `int`: the low 32 bits, read as a signed number. */
  function Narrow(x: int): (r: Int32)
    ensures (x - r) % 0x1_0000_0000 == 0
  {
    var low := x % 0x1_0000_0000;
    if low < 0x8000_0000 then low else low - 0x1_0000_0000
  }

  lemma NarrowAfterWiden(x: Int32)
    ensures Narrow(Widen(x)) == x
  {
  }

  predicate Absent(s: Bytes, c: Byte, from: nat, to: nat)
    requires to <= |s|
  {
    forall k :: from <= k < to ==> s[k] != c
  }

  /** `s.find(c, from)`: the first index at or after `from` that holds `c`. */
  function Find(s: Bytes, c: Byte, from: nat): (r: Option<nat>)
    ensures r.Some? ==> from <= r.value < |s| && s[r.value] == c && Absent(s, c, from, r.value)
    ensures r.None? ==> Absent(s, c, from, |s|)
    decreases |s| - from
  {
    if from >= |s| then None else if s[from] == c then Some(from) else Find(s, c, from + 1)
  }

  /** The index `Find` returns is the only one with its property. */
  lemma FindIs(s: Bytes, c: Byte, from: nat, at: nat)
    requires from <= at < |s| && s[at] == c && Absent(s, c, from, at)
    ensures Find(s, c, from) == Some(at)
  {
  }

  /** Searching a text from the start of a part free of `c` finds the `c` that follows the part. */
  lemma {:induction false} FindAfter(prefix: Bytes, part: Bytes, c: Byte, tail: Bytes)
    requires c !in part && tail != [] && tail[0] == c
    ensures Find(prefix + part + tail, c, |prefix|) == Some(|prefix| + |part|)
    decreases |part|
  {
    var s := prefix + part + tail;
    if part != [] {
      var longer := prefix + [part[0]];
      assert s[|prefix|] == part[0];
      assert s == longer + part[1..] + tail;
      FindAfter(longer, part[1..], c, tail);
    }
  }

  lemma Assoc(a: Bytes, b: Bytes, c: Bytes)
    ensures a + b + c == a + (b + c)
  {
  }

  lemma Slices(a: Bytes, b: Bytes, c: Bytes)
    ensures (a + b + c)[..|a|] == a && (a + b + c)[|a|..|a| + |b|] == b && (a + b + c)[|a| + |b|..] == c
  {
  }

  /** One trailing `\n` is dropped, then one trailing `\r`. */
  function Chomp(s: Bytes): Bytes {
    ChompByte(ChompByte(s, '\n'), '\r')
  }

  function ChompByte(s: Bytes, c: Byte): Bytes {
    if s != [] && s[|s| - 1] == c then s[..|s| - 1] else s
  }
}
