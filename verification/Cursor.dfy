/** Base64 with the URL-safe alphabet (RFC 4648 section 5), unpadded (section 3.2), and canonical
  * on decoding (section 3.5): a final group whose unused bits are not zero is refused.
  */
module Base64Url {
  import opened Wrappers
  import opened Bytes

  type Digit = x: int | 0 <= x < 64

  function DigitChar(d: Digit): (c: char)
    ensures CharDigit(c) == Some(d)
  {
    if d < 26 then 'A' + d as char
    else if d < 52 then 'a' + (d - 26) as char
    else if d < 62 then '0' + (d - 52) as char
    else if d == 62 then '-' else '_'
  }

  function CharDigit(c: char): (d: Option<Digit>)
  {
    if 'A' <= c <= 'Z' then Some((c - 'A') as int)
    else if 'a' <= c <= 'z' then Some((c - 'a') as int + 26)
    else if '0' <= c <= '9' then Some((c - '0') as int + 52)
    else if c == '-' then Some(62)
    else if c == '_' then Some(63)
    else None
  }

  lemma DigitCharOfCharDigit(c: char)
    requires CharDigit(c).Some?
    ensures DigitChar(CharDigit(c).value) == c
  {
  }

  /** Three bytes as four digits, and back. */
  function D0(x: Byte): Digit { (x as int) / 4 }
  function D1(x: Byte, y: Byte): Digit { (x as int) % 4 * 16 + (y as int) / 16 }
  function D2(y: Byte, z: Byte): Digit { (y as int) % 16 * 4 + (z as int) / 64 }
  function D3(z: Byte): Digit { (z as int) % 64 }

  function B0(p: Digit, q: Digit): Byte { (p as int) * 4 + (q as int) / 16 }
  function B1(q: Digit, r: Digit): Byte { (q as int) % 16 * 16 + (r as int) / 4 }
  function B2(r: Digit, s: Digit): Byte { (r as int) % 4 * 64 + (s as int) }

  lemma BytesOfDigits(x: Byte, y: Byte, z: Byte)
    ensures B0(D0(x), D1(x, y)) == x && B1(D1(x, y), D2(y, z)) == y && B2(D2(y, z), D3(z)) == z
  {
  }

  lemma DigitsOfBytes(p: Digit, q: Digit, r: Digit, s: Digit)
    ensures var x, y, z := B0(p, q), B1(q, r), B2(r, s);
      D0(x) == p && D1(x, y) == q && D2(y, z) == r && D3(z) == s
  {
  }

  /** A group is one number of 24 bits, the first byte and the first digit its highest. */
  lemma GroupIsOneNumber(x: Byte, y: Byte, z: Byte)
    ensures 0x1_0000 * (x as int) + 0x100 * (y as int) + (z as int)
         == 0x4_0000 * D0(x) + 0x1000 * D1(x, y) + 0x40 * D2(y, z) + D3(z)
  {
  }

  function Digits(b: seq<Byte>): (ds: seq<Digit>)
  {
    if b == [] then []
    else if |b| == 1 then [D0(b[0]), D1(b[0], 0)]
    else if |b| == 2 then [D0(b[0]), D1(b[0], b[1]), D2(b[1], 0)]
    else [D0(b[0]), D1(b[0], b[1]), D2(b[1], b[2]), D3(b[2])] + Digits(b[3..])
  }

  function Undigits(ds: seq<Digit>): (b: Option<seq<Byte>>)
  {
    if ds == [] then Some([])
    else if |ds| == 1 then None
    else if |ds| == 2 then
      if ds[1] % 16 == 0 then Some([B0(ds[0], ds[1])]) else None
    else if |ds| == 3 then
      if ds[2] % 4 == 0 then Some([B0(ds[0], ds[1]), B1(ds[1], ds[2])]) else None
    else
      var rest := Undigits(ds[4..]);
      if rest.None? then None
      else Some([B0(ds[0], ds[1]), B1(ds[1], ds[2]), B2(ds[2], ds[3])] + rest.value)
  }

  function Chars(ds: seq<Digit>): (s: string)
    ensures |s| == |ds|
  {
    if ds == [] then "" else [DigitChar(ds[0])] + Chars(ds[1..])
  }

  function Unchars(s: string): (ds: Option<seq<Digit>>)
    ensures ds.Some? ==> |ds.value| == |s|
  {
    if s == "" then Some([]) else
    var d, rest := CharDigit(s[0]), Unchars(s[1..]);
    if d.None? || rest.None? then None else Some([d.value] + rest.value)
  }

  function Encode(b: seq<Byte>): string
  {
    Chars(Digits(b))
  }

  function Decode(s: string): Option<seq<Byte>>
  {
    var ds := Unchars(s);
    if ds.None? then None else Undigits(ds.value)
  }

  /** Two encodings that between them use every part of section 5's table: letters, digits, `-` and `_`. */
  lemma KnownEncodings()
    ensures Encode([0x66, 0x6F, 0x6F]) == "Zm9v"
    ensures Encode([0xFB, 0xEF, 0xFF]) == "--__"
  {
    assert Digits([0x66, 0x6F, 0x6F]) == [25, 38, 61, 47] + Digits([]);
    assert Digits([0xFB, 0xEF, 0xFF]) == [62, 62, 63, 63] + Digits([]);
    FourChars(25, 38, 61, 47);
    FourChars(62, 62, 63, 63);
  }

  lemma FourChars(p: Digit, q: Digit, r: Digit, s: Digit)
    ensures Chars([p, q, r, s]) == [DigitChar(p), DigitChar(q), DigitChar(r), DigitChar(s)]
  {
    var ds: seq<Digit> := [p, q, r, s];
    assert ds[1..] == [q, r, s] && ds[1..][1..] == [r, s] && ds[1..][1..][1..] == [s] && [s][1..] == [];
    assert Chars([s]) == [DigitChar(s)] && Chars([r, s]) == [DigitChar(r), DigitChar(s)];
    assert Chars([q, r, s]) == [DigitChar(q), DigitChar(r), DigitChar(s)];
  }

  lemma UndigitsFour(x: Byte, y: Byte, z: Byte, rest: seq<Byte>, ds: seq<Digit>)
    requires Undigits(ds) == Some(rest)
    ensures Undigits([D0(x), D1(x, y), D2(y, z), D3(z)] + ds) == Some([x, y, z] + rest)
  {
    hide D0, D1, D2, D3, B0, B1, B2;
    var all: seq<Digit> := [D0(x), D1(x, y), D2(y, z), D3(z)] + ds;
    BytesOfDigits(x, y, z);
    assert all[4..] == ds;
  }

  lemma {:induction false} UndigitsDigits(b: seq<Byte>)
    ensures Undigits(Digits(b)) == Some(b)
  {
    if b == [] {
      assert b == [];
    } else if |b| == 1 {
      assert b == [b[0]];
      UndigitsOne(b[0]);
    } else if |b| == 2 {
      assert b == [b[0], b[1]];
      UndigitsTwo(b[0], b[1]);
    } else {
      hide D0, D1, D2, D3, B0, B1, B2;
      UndigitsDigits(b[3..]);
      UndigitsFour(b[0], b[1], b[2], b[3..], Digits(b[3..]));
      assert b == [b[0], b[1], b[2]] + b[3..];
    }
  }

  lemma UndigitsOne(x: Byte)
    ensures Undigits(Digits([x])) == Some([x])
  {
    hide D0, D1, D2, D3, B0, B1, B2;
    BytesOfDigits(x, 0, 0);
    UnusedBits(x, 0);
  }

  lemma UndigitsTwo(x: Byte, y: Byte)
    ensures Undigits(Digits([x, y])) == Some([x, y])
  {
    hide D0, D1, D2, D3, B0, B1, B2;
    BytesOfDigits(x, y, 0);
    UnusedBits(x, y);
  }

  /** What a short final group does not use is zero. */
  lemma UnusedBits(x: Byte, y: Byte)
    ensures D1(x, 0) % 16 == 0 && D2(y, 0) % 4 == 0
  {
  }

  lemma {:induction false} DigitsUndigits(ds: seq<Digit>)
    requires Undigits(ds).Some?
    ensures Digits(Undigits(ds).value) == ds
  {
    if |ds| == 2 {
      DigitsOfBytes(ds[0], ds[1], 0, 0);
    } else if |ds| == 3 {
      DigitsOfBytes(ds[0], ds[1], ds[2], 0);
    } else if |ds| >= 4 {
      hide D0, D1, D2, D3, B0, B1, B2;
      DigitsOfBytes(ds[0], ds[1], ds[2], ds[3]);
      DigitsUndigits(ds[4..]);
      var b := Undigits(ds).value;
      assert b[3..] == Undigits(ds[4..]).value;
      assert ds == [ds[0], ds[1], ds[2], ds[3]] + ds[4..];
    }
  }

  lemma {:induction false} UncharsChars(ds: seq<Digit>)
    ensures Unchars(Chars(ds)) == Some(ds)
  {
    hide DigitChar, CharDigit;
    if ds == [] {
      assert Unchars(Chars(ds)).value == ds;
    } else {
      assert Chars(ds)[1..] == Chars(ds[1..]);
      UncharsChars(ds[1..]);
      assert ds == [ds[0]] + ds[1..];
    }
  }

  lemma {:induction false} CharsUnchars(s: string)
    requires Unchars(s).Some?
    ensures Chars(Unchars(s).value) == s
  {
    hide DigitChar, CharDigit;
    if s != "" {
      DigitCharOfCharDigit(s[0]);
      CharsUnchars(s[1..]);
      var ds := Unchars(s).value;
      assert ds[0] == CharDigit(s[0]).value && ds[1..] == Unchars(s[1..]).value;
      assert s == [s[0]] + s[1..];
    }
  }

  lemma DecodeEncode(b: seq<Byte>)
    ensures Decode(Encode(b)) == Some(b)
  {
    UncharsChars(Digits(b));
    UndigitsDigits(b);
  }

  /** Canonical decoding: whatever decodes is what its bytes encode to. */
  lemma EncodeDecode(s: string)
    requires Decode(s).Some?
    ensures Encode(Decode(s).value) == s
  {
    CharsUnchars(s);
    DigitsUndigits(Unchars(s).value);
  }
}

/** The page cursor of `cursor.rs`: base64url of `created_at|id`. */
module Cursor {
  import opened Wrappers
  import opened Bytes
  import Base64Url
  import Utf8

  datatype Cursor = Cursor(createdAt: string, id: string)

  datatype Error = NotIssuedHere

  function Encode(createdAt: string, id: string): string
  {
    Base64Url.Encode(Utf8.Encode(createdAt + "|" + id))
  }

  /** `split_once`: the text before the first bar, and the text after it. */
  function SplitOnce(s: string): (r: Option<Cursor>)
    ensures r.Some? ==> s == r.value.createdAt + "|" + r.value.id && '|' !in r.value.createdAt
    ensures r.None? ==> '|' !in s
  {
    if s == "" then None
    else if s[0] == '|' then Some(Cursor("", s[1..]))
    else
      match SplitOnce(s[1..])
      case None => None
      case Some(c) => Some(Cursor([s[0]] + c.createdAt, c.id))
  }

  function Decode(raw: string): Result<Cursor, Error>
  {
    match Base64Url.Decode(raw)
    case None => Err(NotIssuedHere)
    case Some(bytes) =>
      match Utf8.Decode(bytes)
      case None => Err(NotIssuedHere)
      case Some(text) =>
        match SplitOnce(text)
        case None => Err(NotIssuedHere)
        case Some(c) => Ok(c)
  }

  lemma {:induction false} SplitOnceOfJoined(createdAt: string, id: string)
    ensures SplitOnce(createdAt + "|" + id).Some?
    ensures SplitOnce(createdAt + "|" + id) == Some(Cursor(createdAt, id)) <==> '|' !in createdAt
  {
    var s := createdAt + "|" + id;
    if createdAt == "" {
      assert s[1..] == id;
    } else {
      assert s[0] == createdAt[0];
      if createdAt[0] != '|' {
        SplitOnceOfJoined(createdAt[1..], id);
        assert s[1..] == createdAt[1..] + "|" + id;
        assert createdAt == [createdAt[0]] + createdAt[1..];
      }
    }
  }

  /** A cursor comes back as the row it was made from exactly when the timestamp holds no bar;
    * the id may hold any number of them. */
  lemma RoundTripIff(createdAt: string, id: string)
    ensures Decode(Encode(createdAt, id)).Ok?
    ensures Decode(Encode(createdAt, id)) == Ok(Cursor(createdAt, id)) <==> '|' !in createdAt
  {
    var text := createdAt + "|" + id;
    Base64Url.DecodeEncode(Utf8.Encode(text));
    Utf8.DecodeEncode(text);
    SplitOnceOfJoined(createdAt, id);
  }

  /** An accepted cursor re-encodes to itself, so no two strings name the same page. */
  lemma AcceptedIsCanonical(raw: string)
    requires Decode(raw).Ok?
    ensures Encode(Decode(raw).value.createdAt, Decode(raw).value.id) == raw
  {
    var bytes := Base64Url.Decode(raw).value;
    Base64Url.EncodeDecode(raw);
    Utf8.EncodeDecode(bytes);
  }

  /** The accepted strings are exactly the ones this codec can issue. */
  lemma AcceptedIffIssued(raw: string)
    ensures Decode(raw).Ok? <==> exists t, id :: raw == Encode(t, id)
  {
    if Decode(raw).Ok? {
      AcceptedIsCanonical(raw);
    }
    forall t, id | raw == Encode(t, id)
      ensures Decode(raw).Ok?
    {
      RoundTripIff(t, id);
    }
  }
}
