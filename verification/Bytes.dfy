/**
 Octet strings and the big-endian words the camera's protocols are made of.
 Octets and words are non-negative integers with their width in the type, as in Python, where
 a shift right is a division by a power of two and a low-bit mask is a remainder.
 */
module Bytes {

  type byte = n: int | 0 <= n < 0x100
  type u16 = n: int | 0 <= n < 0x1_0000
  type u32 = n: int | 0 <= n < 0x1_0000_0000
  type bytes = seq<byte>

  datatype Option<+T> = None | Some(value: T)

  /** The octet `;` that ends a string field. */
  const FIELD_SEPARATOR: byte := 0x3B

  function Be16(v: u16): (b: bytes)
    ensures |b| == 2
  {
    [v / 0x100, v % 0x100]
  }

  function Be32(v: u32): (b: bytes)
    ensures |b| == 4
  {
    [v / 0x100_0000, v / 0x1_0000 % 0x100, v / 0x100 % 0x100, v % 0x100]
  }

  /** The big-endian word at `i`. */
  function U16At(s: bytes, i: nat): u16
    requires i + 2 <= |s|
  {
    0x100 * s[i] as int + s[i + 1]
  }

  function U32At(s: bytes, i: nat): u32
    requires i + 4 <= |s|
  {
    0x100_0000 * s[i] as int + 0x1_0000 * s[i + 1] as int + 0x100 * s[i + 2] as int + s[i + 3]
  }

  /** A word written anywhere inside a message is read back from its position. */
  lemma Be16At(prefix: bytes, v: u16, suffix: bytes)
    ensures U16At(prefix + Be16(v) + suffix, |prefix|) == v
  {
  }

  /** A 32-bit word by its halves. */
  lemma Halves(v: u32)
    ensures v == 0x1_0000 * (v / 0x1_0000) + v % 0x1_0000
    ensures v / 0x100_0000 == v / 0x1_0000 / 0x100
    ensures v / 0x100 % 0x100 == v % 0x1_0000 / 0x100
    ensures v % 0x100 == v % 0x1_0000 % 0x100
  {
  }

  lemma Be32At(prefix: bytes, v: u32, suffix: bytes)
    ensures U32At(prefix + Be32(v) + suffix, |prefix|) == v
  {
    var s, n := prefix + Be32(v) + suffix, |prefix|;
    var high, low := v / 0x1_0000, v % 0x1_0000;
    Halves(v);
    assert s[n] == high / 0x100 && s[n + 1] == high % 0x100 && s[n + 2] == low / 0x100 && s[n + 3] == low % 0x100;
    assert high == 0x100 * (high / 0x100) + high % 0x100 && low == 0x100 * (low / 0x100) + low % 0x100;
  }

  /** The octets `part` stand in `s` at position `i`. */
  predicate At(s: bytes, i: nat, part: bytes) {
    i + |part| <= |s| && s[i..i + |part|] == part
  }

  lemma AtSplit(s: bytes, i: nat, a: bytes, b: bytes)
    requires At(s, i, a + b)
    ensures At(s, i, a) && At(s, i + |a|, b)
  {
    assert s[i..i + |a|] == (a + b)[..|a|];
    assert s[i + |a|..i + |a| + |b|] == (a + b)[|a|..];
  }

  lemma AtWhole(a: bytes, b: bytes)
    ensures At(a + b, 0, a)
  {
  }

  lemma AtU16(s: bytes, i: nat, v: u16)
    requires At(s, i, Be16(v))
    ensures i + 2 <= |s| && U16At(s, i) == v
  {
  }

  lemma AtU32(s: bytes, i: nat, v: u32)
    requires At(s, i, Be32(v))
    ensures i + 4 <= |s| && U32At(s, i) == v
  {
    assert s == s[..i] + Be32(v) + s[i + 4..];
    Be32At(s[..i], v, s[i + 4..]);
  }

  lemma AtByte(s: bytes, i: nat, v: byte)
    requires At(s, i, [v])
    ensures i < |s| && s[i] == v
  {
  }

  /** A text field: any octets but the terminator (UTF-8 never uses 0x3B inside a longer sequence). */
  type Name = s: bytes | FIELD_SEPARATOR !in s

  function Terminated(s: bytes): (b: bytes)
    ensures |b| == |s| + 1
  {
    s + [FIELD_SEPARATOR]
  }

  /** The first terminator after a name's start is the one that ends it. */
  lemma AtName(s: bytes, i: nat, name: Name)
    requires At(s, i, Terminated(name))
    ensures i + |name| < |s| && Find(s, i) == Some(i + |name|) && s[i..i + |name|] == name
  {
    AtSplit(s, i, name, [FIELD_SEPARATOR]);
    AtByte(s, i + |name|, FIELD_SEPARATOR);
    FindIs(s, i, i + |name|);
  }

  /** ASCII text as octets; the repository's wire constants are all ASCII. */
  function Ascii(s: string): (b: bytes)
    ensures |b| == |s|
  {
    seq(|s|, i requires 0 <= i < |s| => if s[i] < 128 as char then s[i] as int else 0x3F)
  }

  lemma AsciiAt(s: string, i: nat)
    requires i < |s| && s[i] < 128 as char
    ensures Ascii(s)[i] == s[i] as int
  {
  }

  /** Python's `find(FIELD_SEPARATOR, from)`. */
  function Find(s: bytes, from: nat): (r: Option<nat>)
    ensures r.Some? ==> from <= r.value < |s|
    decreases |s| - from
  {
    if from >= |s| then None
    else if s[from] == FIELD_SEPARATOR then Some(from)
    else Find(s, from + 1)
  }

  /** `Find` yields the first separator at or after `from`, and only that. */
  lemma {:induction false} FindIs(s: bytes, from: nat, e: nat)
    requires from <= e < |s|
    ensures Find(s, from) == Some(e) <==> s[e] == FIELD_SEPARATOR && FIELD_SEPARATOR !in s[from..e]
    decreases e - from
  {
    if from < e {
      FindIs(s, from + 1, e);
      assert s[from..e] == [s[from]] + s[from + 1..e];
    }
  }

  lemma {:induction false} FindNone(s: bytes, from: nat)
    requires from <= |s|
    ensures Find(s, from) == None <==> FIELD_SEPARATOR !in s[from..]
    decreases |s| - from
  {
    if from < |s| {
      FindNone(s, from + 1);
      assert s[from..] == [s[from]] + s[from + 1..];
    }
  }
}
