/** UTF-8 as RFC 3629 section 3 defines it: the encoder, and a decoder that accepts nothing else. */
module Utf8 {
  import opened Wrappers
  import opened Bytes

  function CharBytes(c: char): (b: seq<Byte>)
    ensures 1 <= |b| <= 4
    ensures !IsContinuation(b[0])
    ensures forall k :: 1 <= k < |b| ==> IsContinuation(b[k])
  {
    var n := c as int;
    var m := n / 0x40;   // what is left after the last six bits
    var l := m / 0x40;
    if n < 0x80 then [n]
    else if n < 0x800 then [0xC0 + m, 0x80 + n % 0x40]
    else if n < 0x1_0000 then [0xE0 + l, 0x80 + m % 0x40, 0x80 + n % 0x40]
    else [0xF0 + l / 0x40, 0x80 + l % 0x40, 0x80 + m % 0x40, 0x80 + n % 0x40]
  }

  function Encode(s: string): (b: seq<Byte>)
  {
    if s == "" then [] else CharBytes(s[0]) + Encode(s[1..])
  }

  /** A string's length in bytes. */
  function Len(s: string): (n: nat)
    ensures n == |Encode(s)|
    ensures n >= |s|
  {
    if s == "" then 0 else |CharBytes(s[0])| + Len(s[1..])
  }

  predicate IsContinuation(b: Byte)
  {
    0x80 <= b < 0xC0
  }

  predicate IsScalar(n: int)
  {
    0 <= n < 0xD800 || 0xE000 <= n < 0x11_0000
  }

  /** A byte's value above its marker bits. */
  function Bits(b: Byte, marker: int): int
  {
    (b as int) - marker
  }

  /** A scalar value no smaller than the least one this many bytes may spell. */
  function Checked(n: int, least: int): Option<char>
  {
    if n < least || !IsScalar(n) then None else Some(n as char)
  }

  /** The character the bytes begin with, if they begin with a shortest-form scalar value. */
  function DecodeFirst(b: seq<Byte>): (c: Option<char>)
  {
    if b == [] then None
    else if b[0] < 0x80 then Some(b[0] as char)
    else if |b| < 2 || !IsContinuation(b[1]) then None
    else if 0xC0 <= b[0] < 0xE0 then
      Checked(Bits(b[0], 0xC0) * 0x40 + Bits(b[1], 0x80), 0x80)
    else if |b| < 3 || !IsContinuation(b[2]) then None
    else if 0xE0 <= b[0] < 0xF0 then
      Checked(Bits(b[0], 0xE0) * 0x1000 + Bits(b[1], 0x80) * 0x40 + Bits(b[2], 0x80), 0x800)
    else if |b| < 4 || !IsContinuation(b[3]) then None
    else if 0xF0 <= b[0] < 0xF8 then
      Checked(Bits(b[0], 0xF0) * 0x4_0000 + Bits(b[1], 0x80) * 0x1000 + Bits(b[2], 0x80) * 0x40
              + Bits(b[3], 0x80), 0x1_0000)
    else None
  }

  function Decode(b: seq<Byte>): (s: Option<string>)
  {
    if b == [] then Some("") else
    var c := DecodeFirst(b);
    if c.None? then None else
    DecodeFirstIsPrefix(b);
    var rest := Decode(b[|CharBytes(c.value)|..]);
    if rest.None? then None else Some([c.value] + rest.value)
  }

  lemma DecodeFirstEncoded(c: char, b: seq<Byte>)
    requires CharBytes(c) <= b
    ensures DecodeFirst(b) == Some(c)
  {
    var n, e := c as int, CharBytes(c);
    assert b[0] == e[0];
    assert |e| > 1 ==> b[1] == e[1];
    assert |e| > 2 ==> b[2] == e[2];
    assert |e| > 3 ==> b[3] == e[3];
  }

  lemma DecodeFirstIsPrefix(b: seq<Byte>)
    requires DecodeFirst(b).Some?
    ensures CharBytes(DecodeFirst(b).value) <= b
  {
    var n := DecodeFirst(b).value as int;
    if b[0] < 0x80 {
    } else if b[0] < 0xE0 {
      Digits(0, 0, Bits(b[0], 0xC0), Bits(b[1], 0x80));
      assert CharBytes(n as char) == b[..2];
    } else if b[0] < 0xF0 {
      Digits(0, Bits(b[0], 0xE0), Bits(b[1], 0x80), Bits(b[2], 0x80));
      assert CharBytes(n as char) == b[..3];
    } else {
      Digits(Bits(b[0], 0xF0), Bits(b[1], 0x80), Bits(b[2], 0x80), Bits(b[3], 0x80));
      assert CharBytes(n as char) == b[..4];
    }
  }

  /** The base-64 digits of a number are the ones it was put together from. */
  lemma Digits(w: nat, x: nat, y: nat, z: nat)
    requires x < 0x40 && y < 0x40 && z < 0x40
    ensures var n := w * 0x4_0000 + x * 0x1000 + y * 0x40 + z;
      && n % 0x40 == z && n / 0x40 % 0x40 == y && n / 0x40 / 0x40 % 0x40 == x && n / 0x40 / 0x40 / 0x40 == w
      && n / 0x40 == w * 0x1000 + x * 0x40 + y && n / 0x40 / 0x40 == w * 0x40 + x
  {
  }

  /** Every string's bytes decode to it. */
  lemma {:induction false} DecodeEncode(s: string)
    ensures Decode(Encode(s)) == Some(s)
  {
    if s != "" {
      DecodeFirstEncoded(s[0], Encode(s));
      DecodeEncode(s[1..]);
      assert Encode(s)[|CharBytes(s[0])|..] == Encode(s[1..]);
      assert [s[0]] + s[1..] == s;
    }
  }

  /** Bytes that decode are exactly the bytes of what they decode to. */
  lemma {:induction false} EncodeDecode(b: seq<Byte>)
    requires Decode(b).Some?
    ensures Encode(Decode(b).value) == b
  {
    if b != [] {
      var c := DecodeFirst(b).value;
      DecodeFirstIsPrefix(b);
      EncodeDecode(b[|CharBytes(c)|..]);
      var s := Decode(b).value;
      assert s[0] == c && s[1..] == Decode(b[|CharBytes(c)|..]).value;
      assert b == b[..|CharBytes(c)|] + b[|CharBytes(c)|..];
    }
  }

  lemma {:induction false} EncodeConcat(s: string, t: string)
    ensures Encode(s + t) == Encode(s) + Encode(t)
    ensures Len(s + t) == Len(s) + Len(t)
  {
    if s == "" {
      assert s + t == t;
    } else {
      assert (s + t)[1..] == s[1..] + t;
      EncodeConcat(s[1..], t);
    }
  }
}
