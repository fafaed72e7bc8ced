/** Little-endian fields, as the archive writer emits them and as a reader picks them up. */
module LittleEndian {
  import opened Bytes

  /** `as u16` and `as u32`: a narrowing cast keeps the low bits. */
  function AsU16(n: nat): nat
  {
    n % 0x1_0000
  }

  function AsU32(n: nat): nat
  {
    n % 0x1_0000_0000
  }

  function Le16(v: nat): (b: seq<Byte>)
    ensures |b| == 2
  {
    [v % 0x100, (v / 0x100) % 0x100]
  }

  function Le32(v: nat): (b: seq<Byte>)
    ensures |b| == 4
  {
    Le16(v) + Le16(v / 0x1_0000)
  }

  function U16At(b: seq<Byte>, at: nat): (v: nat)
    requires at + 2 <= |b|
    ensures v < 0x1_0000
  {
    var low: int, high: int := b[at], b[at + 1];
    low + 0x100 * high
  }

  function U32At(b: seq<Byte>, at: nat): (v: nat)
    requires at + 4 <= |b|
    ensures v < 0x1_0000_0000
  {
    U16At(b, at) + 0x1_0000 * U16At(b, at + 2)
  }

  lemma U32AtLe32(b: seq<Byte>, at: nat, v: nat)
    requires v < 0x1_0000_0000
    requires at + 4 <= |b| && b[at..at + 4] == Le32(v)
    ensures U32At(b, at) == v
  {
    var h := Le32(v);
    assert b[at] == h[0] && b[at + 1] == h[1] && b[at + 2] == h[2] && b[at + 3] == h[3];
  }

  /** A field of `h` is the same field of any buffer that holds `h` at `at`. */
  lemma FieldOf(b: seq<Byte>, at: nat, h: seq<Byte>, k: nat)
    requires at + |h| <= |b| && b[at..at + |h|] == h
    ensures k + 2 <= |h| ==> U16At(b, at + k) == U16At(h, k)
    ensures k + 4 <= |h| ==> U32At(b, at + k) == U32At(h, k)
  {
    assert forall j :: 0 <= j < |h| ==> b[at + j] == h[j] by {
      forall j | 0 <= j < |h|
        ensures b[at + j] == h[j]
      {
        assert b[at + j] == b[at..at + |h|][j];
      }
    }
  }
}

/** Slices of slices. */
module Slicing {
  lemma SubSlice<T>(b: seq<T>, from: nat, to: nat, i: nat, j: nat)
    requires from <= to <= |b| && i <= j <= to - from
    ensures b[from + i..from + j] == b[from..to][i..j]
  {
    var x, y := b[from + i..from + j], b[from..to][i..j];
    forall k | 0 <= k < j - i
      ensures x[k] == y[k]
    {
      assert b[from..to][i + k] == b[from + (i + k)];
    }
  }

  lemma Slices<T>(b: seq<T>, at: nat, x: seq<T>, y: seq<T>, z: seq<T>)
    requires at + |x| + |y| + |z| <= |b|
    requires b[at..at + |x| + |y| + |z|] == x + y + z
    ensures b[at..at + |x|] == x
    ensures b[at + |x|..at + |x| + |y|] == y
    ensures b[at + |x| + |y|..at + |x| + |y| + |z|] == z
  {
    var w := x + y + z;
    assert w[..|x|] == x && w[|x|..|x| + |y|] == y && w[|x| + |y|..] == z;
    SubSlice(b, at, at + |w|, 0, |x|);
    SubSlice(b, at, at + |w|, |x|, |x| + |y|);
    SubSlice(b, at, at + |w|, |x| + |y|, |w|);
  }

  lemma InPrefix<T>(x: seq<T>, y: seq<T>, b: seq<T>, i: nat, j: nat)
    requires x + y <= b && i <= j <= |x| + |y|
    ensures j <= |x| ==> b[i..j] == x[i..j]
    ensures |x| <= i ==> b[i..j] == y[i - |x|..j - |x|]
  {
    assert b[i..j] == (x + y)[i..j];
  }

  lemma Reassociate<T>(a: seq<T>, b: seq<T>, c: seq<T>, d: seq<T>, e: seq<T>)
    ensures a + b + c + d + e == a + (b + c + d + e)
  {
  }
}

/** The stored-method archive writer of `bulk_export.rs`, and a reader for what it writes.
  *
  * The reader follows PKWARE APPNOTE.TXT: the end record of section 4.3.16 is found at the end of
  * the file, it locates the central directory of section 4.3.12, and each entry there locates the
  * local header of section 4.3.7. It believes only recorded fields. CRC-32 is a function of the data.
  */
module Zip {
  import opened Wrappers
  import opened Bytes
  import opened LittleEndian
  import opened Slicing

  datatype Item = Item(name: seq<Byte>, data: seq<Byte>)

  type U32 = x: int | 0 <= x < 0x1_0000_0000

  type Crc = seq<Byte> -> U32

  const LOCAL_SIG: nat := 0x04034b50
  const CENTRAL_SIG: nat := 0x02014b50
  const END_SIG: nat := 0x06054b50

  // ---------------------------------------------------------------------------
  // What is written
  // ---------------------------------------------------------------------------

  /** Signature, version, flags, method, time, date, CRC, stored size, size, name and extra lengths. */
  function LocalHeader(item: Item, crcOf: Crc): (h: seq<Byte>)
    ensures |h| == 30
  {
    var size := AsU32(|item.data|);
    Le32(LOCAL_SIG) + Le16(20) + Le16(0) + Le16(0) + Le16(0) + Le16(0) + Le32(crcOf(item.data))
    + Le32(size) + Le32(size) + Le16(AsU16(|item.name|)) + Le16(0)
  }

  /** Signature, two versions, flags, method, time, date, CRC, two sizes, three lengths, disk,
    * internal and external attributes, and where the local header is. */
  function CentralHeader(item: Item, offset: nat, crcOf: Crc): (h: seq<Byte>)
    ensures |h| == 46
  {
    CentralStart(crcOf(item.data), AsU32(|item.data|), AsU16(|item.name|)) + CentralRest(offset)
  }

  function CentralStart(crc: nat, size: nat, nameLen: nat): (h: seq<Byte>)
    ensures |h| == 30
  {
    Le32(CENTRAL_SIG) + Le16(20) + Le16(20) + Le16(0) + Le16(0) + Le16(0) + Le16(0) + Le32(crc)
    + Le32(size) + Le32(size) + Le16(nameLen)
  }

  function CentralRest(offset: nat): (h: seq<Byte>)
    ensures |h| == 16
  {
    Le16(0) + Le16(0) + Le16(0) + Le16(0) + Le32(0) + Le32(offset)
  }

  /** Signature, two disks, two entry counts, directory size and start, comment length. */
  function EndRecord(entries: nat, size: nat, start: nat): (h: seq<Byte>)
    ensures |h| == 22
  {
    Le32(END_SIG) + Le16(0) + Le16(0) + Le16(AsU16(entries)) + Le16(AsU16(entries))
    + Le32(size) + Le32(start) + Le16(0)
  }

  function LocalsSize(items: seq<Item>): nat
  {
    if items == [] then 0 else
      var n := |items| - 1;
      LocalsSize(items[..n]) + 30 + |items[n].name| + |items[n].data|
  }

  function CentralSize(items: seq<Item>): nat
  {
    if items == [] then 0 else
      var n := |items| - 1;
      CentralSize(items[..n]) + 46 + |items[n].name|
  }

  /** All local records, in order. */
  function Locals(items: seq<Item>, crcOf: Crc): (r: seq<Byte>)
    ensures |r| == LocalsSize(items)
  {
    if items == [] then [] else
      var n := |items| - 1;
      Locals(items[..n], crcOf) + LocalHeader(items[n], crcOf) + items[n].name + items[n].data
  }

  /** The central directory: entry k records where local record k starts. */
  function Central(items: seq<Item>, crcOf: Crc): (r: seq<Byte>)
    ensures |r| == CentralSize(items)
  {
    if items == [] then [] else
      var n := |items| - 1;
      Central(items[..n], crcOf)
      + CentralHeader(items[n], AsU32(LocalsSize(items[..n])), crcOf) + items[n].name
  }

  function WrappingSub(x: nat, y: nat): nat
  {
    (x - y) % 0x1_0000_0000
  }

  /** What one call appends to a buffer that already holds `base` bytes. */
  function Appended(base: nat, items: seq<Item>, crcOf: Crc): seq<Byte>
  {
    var start := base + LocalsSize(items);
    var size := WrappingSub(AsU32(start + CentralSize(items)), AsU32(start));
    Locals(items, crcOf) + Central(items, crcOf) + EndRecord(|items|, size, AsU32(start))
  }

  function Archive(items: seq<Item>, crcOf: Crc): seq<Byte>
  {
    Appended(0, items, crcOf)
  }

  /** The parts that are the same in every record, byte for byte as sections 4.3.7, 4.3.12 and 4.3.16 have them:
    * signatures, version 2.0, no flags, stored, no times; no extra field, comment, disk or attribute. */
  lemma FixedFields(item: Item, offset: nat, crcOf: Crc, entries: nat, size: nat, start: nat)
    ensures LocalHeader(item, crcOf)[..14] == [0x50, 0x4B, 3, 4, 20, 0, 0, 0, 0, 0, 0, 0, 0, 0]
    ensures LocalHeader(item, crcOf)[28..] == [0, 0]
    ensures CentralHeader(item, offset, crcOf)[..16] == [0x50, 0x4B, 1, 2, 20, 0, 20, 0, 0, 0, 0, 0, 0, 0, 0, 0]
    ensures CentralHeader(item, offset, crcOf)[30..42] == [0, 0, 0, 0, 0, 0, 0, 0, 0, 0, 0, 0]
    ensures EndRecord(entries, size, start)[..8] == [0x50, 0x4B, 5, 6, 0, 0, 0, 0]
    ensures EndRecord(entries, size, start)[20..] == [0, 0]
  {
    hide Le32, Le16, AsU32, AsU16;
    FixedBytes();
    assert Le32(LOCAL_SIG) == [0x50, 0x4B, 3, 4] && Le16(0) == [0, 0] && Le32(0) == [0, 0, 0, 0];
  }

  lemma FixedBytes()
    ensures Le32(LOCAL_SIG) == [0x50, 0x4B, 3, 4] && Le32(CENTRAL_SIG) == [0x50, 0x4B, 1, 2]
    ensures Le32(END_SIG) == [0x50, 0x4B, 5, 6]
    ensures Le16(0) == [0, 0] && Le16(20) == [20, 0] && Le32(0) == [0, 0, 0, 0]
  {
  }

  // ---------------------------------------------------------------------------
  // What is read back
  // ---------------------------------------------------------------------------

  /** The data of the local entry at `at`, if its header is one and agrees with the directory. */
  function ReadLocal(b: seq<Byte>, at: nat, name: seq<Byte>, crc: nat, size: nat, crcOf: Crc)
    : Option<seq<Byte>>
  {
    if at + 30 > |b| then None
    else if U32At(b, at) != LOCAL_SIG || U16At(b, at + 8) != 0 then None
    else if U32At(b, at + 14) != crc || U32At(b, at + 18) != size || U32At(b, at + 22) != size then None
    else
      var nameEnd := at + 30 + U16At(b, at + 26);
      var dataAt := nameEnd + U16At(b, at + 28);
      if dataAt + size > |b| || b[at + 30..nameEnd] != name then None
      else if crcOf(b[dataAt..dataAt + size]) != crc then None
      else Some(b[dataAt..dataAt + size])
  }

  /** `count` directory entries that fill exactly `b[at..end]`. */
  function ReadCentral(b: seq<Byte>, at: nat, end: nat, count: nat, crcOf: Crc): Option<seq<Item>>
    requires end <= |b|
    decreases count
  {
    if count == 0 then (if at == end then Some([]) else None)
    else if at + 46 > end then None
    else if U32At(b, at) != CENTRAL_SIG || U16At(b, at + 10) != 0 then None
    else
      var nameEnd := at + 46 + U16At(b, at + 28);
      var next := nameEnd + U16At(b, at + 30) + U16At(b, at + 32);
      if next > end || U32At(b, at + 24) != U32At(b, at + 20) then None
      else
        var name := b[at + 46..nameEnd];
        var data := ReadLocal(b, U32At(b, at + 42), name, U32At(b, at + 16), U32At(b, at + 20), crcOf);
        var rest := ReadCentral(b, next, end, count - 1, crcOf);
        if data.None? || rest.None? then None
        else Some([Item(name, data.value)] + rest.value)
  }

  function ReadArchive(b: seq<Byte>, crcOf: Crc): Option<seq<Item>>
  {
    if |b| < 22 then None
    else
      var end := |b| - 22;
      if U32At(b, end) != END_SIG || U16At(b, end + 8) != U16At(b, end + 10) then None
      else if U16At(b, end + 4) != 0 || U16At(b, end + 6) != 0 || U16At(b, end + 20) != 0 then None
      else if U32At(b, end + 16) + U32At(b, end + 12) != end then None
      else ReadCentral(b, U32At(b, end + 16), end, U16At(b, end + 10), crcOf)
  }

  // ---------------------------------------------------------------------------
  // When nothing is lost
  // ---------------------------------------------------------------------------

  /** Every count, length and offset fits the field it is narrowed into. */
  ghost predicate Fits(items: seq<Item>)
  {
    && ShapesFit(items)
    && LocalsSize(items) < 0x1_0000_0000
    && CentralSize(items) < 0x1_0000_0000
  }

  ghost predicate ShapesFit(items: seq<Item>)
  {
    && |items| < 0x1_0000
    && forall k :: 0 <= k < |items| ==>
         |items[k].name| < 0x1_0000 && |items[k].data| < 0x1_0000_0000
  }

  function TotalSize(items: seq<Item>): nat
  {
    if items == [] then 22 else
      var last := items[|items| - 1];
      TotalSize(items[..|items| - 1]) + 76 + 2 * |last.name| + |last.data|
  }

  lemma {:induction false} SizesAdd(items: seq<Item>)
    ensures LocalsSize(items) + CentralSize(items) + 22 == TotalSize(items)
  {
    if items != [] {
      SizesAdd(items[..|items| - 1]);
    }
  }

  /** The archive's length is 22 bytes plus 76 + 2·|name| + |data| for each entry. */
  lemma ArchiveLength(items: seq<Item>, crcOf: Crc)
    ensures |Archive(items, crcOf)| == TotalSize(items)
  {
    hide Locals, Central, EndRecord, AsU32;
    SizesAdd(items);
  }

  lemma {:induction false} DataWithinTotal(items: seq<Item>, k: nat)
    requires k < |items|
    ensures |items[k].data| < TotalSize(items)
  {
    if k < |items| - 1 {
      DataWithinTotal(items[..|items| - 1], k);
    }
  }

  /** A total below 2^32 is enough for every offset and size; names and count need their own check. */
  lemma SmallTotalFits(items: seq<Item>)
    requires TotalSize(items) < 0x1_0000_0000
    requires |items| < 0x1_0000
    requires forall k :: 0 <= k < |items| ==> |items[k].name| < 0x1_0000
    ensures Fits(items)
  {
    SizesAdd(items);
    forall k | 0 <= k < |items|
      ensures |items[k].data| < 0x1_0000_0000
    {
      DataWithinTotal(items, k);
    }
  }

  // ---------------------------------------------------------------------------
  // Where the records are
  // ---------------------------------------------------------------------------

  function LocalRecord(item: Item, crcOf: Crc): (r: seq<Byte>)
    ensures |r| == 30 + |item.name| + |item.data|
  {
    LocalHeader(item, crcOf) + item.name + item.data
  }

  function CentralRecord(item: Item, offset: nat, crcOf: Crc): (r: seq<Byte>)
    ensures |r| == 46 + |item.name|
  {
    CentralHeader(item, offset, crcOf) + item.name
  }

  /** Local record k occupies its own stretch of `Locals`, which starts where the first k end. */
  lemma {:induction false} LocalsHold(items: seq<Item>, k: nat, crcOf: Crc)
    requires k < |items|
    ensures var at, n := LocalsSize(items[..k]), |LocalRecord(items[k], crcOf)|;
      && at + n == LocalsSize(items[..k + 1]) <= LocalsSize(items)
      && Locals(items, crcOf)[at..at + n] == LocalRecord(items[k], crcOf)
  {
    hide LocalHeader;
    var init := items[..|items| - 1];
    if k < |init| {
      LocalsHold(init, k, crcOf);
      assert init[..k] == items[..k] && init[..k + 1] == items[..k + 1];
    } else {
      assert items[..k + 1] == items;
    }
  }

  /** Directory entry k occupies its own stretch of `Central`, and the next entry starts at its end. */
  lemma {:induction false} CentralHolds(items: seq<Item>, k: nat, crcOf: Crc)
    requires k < |items|
    ensures var at, r := CentralSize(items[..k]), CentralRecord(items[k], AsU32(LocalsSize(items[..k])), crcOf);
      && at + |r| == CentralSize(items[..k + 1]) <= CentralSize(items)
      && Central(items, crcOf)[at..at + |r|] == r
  {
    hide CentralHeader, LocalsSize, AsU32;
    var init := items[..|items| - 1];
    if k < |init| {
      CentralHolds(init, k, crcOf);
      assert init[..k] == items[..k] && init[..k + 1] == items[..k + 1];
    } else {
      assert items[..k + 1] == items;
    }
  }

  // ---------------------------------------------------------------------------
  // Reading one record
  // ---------------------------------------------------------------------------

  lemma LocalHeaderFields(item: Item, crcOf: Crc)
    ensures var h := LocalHeader(item, crcOf);
      && U32At(h, 0) == LOCAL_SIG && U16At(h, 8) == 0 && U32At(h, 14) == crcOf(item.data)
      && U32At(h, 18) == U32At(h, 22) == AsU32(|item.data|)
      && U16At(h, 26) == AsU16(|item.name|) && U16At(h, 28) == 0
  {
    var h := LocalHeader(item, crcOf);
    U32AtLe32(h, 14, crcOf(item.data));
    U32AtLe32(h, 18, AsU32(|item.data|));
    U32AtLe32(h, 22, AsU32(|item.data|));
  }

  lemma CentralStartFields(crc: nat, size: nat, nameLen: nat)
    requires crc < 0x1_0000_0000 && size < 0x1_0000_0000 && nameLen < 0x1_0000
    ensures var h := CentralStart(crc, size, nameLen);
      && U32At(h, 0) == CENTRAL_SIG && U16At(h, 10) == 0 && U32At(h, 16) == crc
      && U32At(h, 20) == U32At(h, 24) == size && U16At(h, 28) == nameLen
  {
    var h := CentralStart(crc, size, nameLen);
    U32AtLe32(h, 16, crc);
    U32AtLe32(h, 20, size);
    U32AtLe32(h, 24, size);
  }

  lemma CentralRestFields(offset: nat)
    requires offset < 0x1_0000_0000
    ensures var h := CentralRest(offset);
      U16At(h, 0) == U16At(h, 2) == 0 && U32At(h, 12) == offset
  {
    U32AtLe32(CentralRest(offset), 12, offset);
  }

  lemma EndRecordFields(entries: nat, size: nat, start: nat)
    requires size < 0x1_0000_0000 && start < 0x1_0000_0000
    ensures var h := EndRecord(entries, size, start);
      && U32At(h, 0) == END_SIG && U16At(h, 4) == U16At(h, 6) == U16At(h, 20) == 0
      && U16At(h, 8) == U16At(h, 10) == AsU16(entries)
      && U32At(h, 12) == size && U32At(h, 16) == start
  {
    var h := EndRecord(entries, size, start);
    U32AtLe32(h, 12, size);
    U32AtLe32(h, 16, start);
  }

  /** The header of a local record reads back, wherever the record stands. */
  lemma LocalReadsBack(b: seq<Byte>, at: nat, item: Item, crcOf: Crc)
    requires |item.name| < 0x1_0000 && |item.data| < 0x1_0000_0000
    requires at + |LocalRecord(item, crcOf)| <= |b|
    requires b[at..at + |LocalRecord(item, crcOf)|] == LocalRecord(item, crcOf)
    ensures ReadLocal(b, at, item.name, crcOf(item.data), |item.data|, crcOf) == Some(item.data)
  {
    hide LocalHeader, U16At, U32At;
    Slices(b, at, LocalHeader(item, crcOf), item.name, item.data);
    LocalHeaderFields(item, crcOf);
    FieldOf(b, at, LocalHeader(item, crcOf), 0);
    FieldOf(b, at, LocalHeader(item, crcOf), 8);
    FieldOf(b, at, LocalHeader(item, crcOf), 14);
    FieldOf(b, at, LocalHeader(item, crcOf), 18);
    FieldOf(b, at, LocalHeader(item, crcOf), 22);
    FieldOf(b, at, LocalHeader(item, crcOf), 26);
    FieldOf(b, at, LocalHeader(item, crcOf), 28);
  }

  /** A directory entry reads back, wherever it stands, if its local record does. */
  lemma EntryReadsBack(item: Item, b: seq<Byte>, localAt: nat, at: nat, end: nat, count: nat, crcOf: Crc)
    requires |item.name| < 0x1_0000 && |item.data| < 0x1_0000_0000 && localAt < 0x1_0000_0000
    requires 0 < count
    requires at + 46 + |item.name| <= end <= |b|
    requires b[at..at + 46 + |item.name|] == CentralRecord(item, localAt, crcOf)
    requires ReadLocal(b, localAt, item.name, crcOf(item.data), |item.data|, crcOf) == Some(item.data)
    requires ReadCentral(b, at + 46 + |item.name|, end, count - 1, crcOf).Some?
    ensures ReadCentral(b, at, end, count, crcOf)
         == Some([item] + ReadCentral(b, at + 46 + |item.name|, end, count - 1, crcOf).value)
  {
    hide ReadLocal, CentralStart, CentralRest, U16At, U32At;
    var start := CentralStart(crcOf(item.data), |item.data|, |item.name|);
    Slices(b, at, start, CentralRest(localAt), item.name);
    CentralStartFields(crcOf(item.data), |item.data|, |item.name|);
    CentralRestFields(localAt);
    FieldOf(b, at, start, 0);
    FieldOf(b, at, start, 10);
    FieldOf(b, at, start, 16);
    FieldOf(b, at, start, 20);
    FieldOf(b, at, start, 24);
    FieldOf(b, at, start, 28);
    FieldOf(b, at + 30, CentralRest(localAt), 0);
    FieldOf(b, at + 30, CentralRest(localAt), 2);
    FieldOf(b, at + 30, CentralRest(localAt), 12);
  }

  // ---------------------------------------------------------------------------
  // The round trip
  // ---------------------------------------------------------------------------

  lemma LocalInArchive(items: seq<Item>, k: nat, b: seq<Byte>, crcOf: Crc)
    requires k < |items| && Fits(items)
    requires Locals(items, crcOf) + Central(items, crcOf) <= b
    ensures ReadLocal(b, LocalsSize(items[..k]), items[k].name, crcOf(items[k].data), |items[k].data|, crcOf)
         == Some(items[k].data)
    ensures LocalsSize(items[..k]) < 0x1_0000_0000
  {
    hide Locals, Central, LocalRecord, ReadLocal;
    var at := LocalsSize(items[..k]);
    LocalsHold(items, k, crcOf);
    InPrefix(Locals(items, crcOf), Central(items, crcOf), b, at, at + |LocalRecord(items[k], crcOf)|);
    LocalReadsBack(b, at, items[k], crcOf);
  }

  lemma CentralInArchive(items: seq<Item>, k: nat, b: seq<Byte>, crcOf: Crc)
    requires k < |items|
    requires Locals(items, crcOf) + Central(items, crcOf) <= b
    ensures var at, r := LocalsSize(items) + CentralSize(items[..k]),
        CentralRecord(items[k], AsU32(LocalsSize(items[..k])), crcOf);
      && at + |r| == LocalsSize(items) + CentralSize(items[..k + 1])
      && at + |r| <= LocalsSize(items) + CentralSize(items)
      && b[at..at + |r|] == r
  {
    hide Locals, Central, CentralRecord, LocalsSize, CentralSize, AsU32;
    CentralHolds(items, k, crcOf);
    InPrefix(Locals(items, crcOf), Central(items, crcOf), b,
             LocalsSize(items) + CentralSize(items[..k]), LocalsSize(items) + CentralSize(items[..k + 1]));
  }

  lemma EndRecordInPlace(b: seq<Byte>, entries: nat, size: nat, start: nat)
    requires size < 0x1_0000_0000 && start < 0x1_0000_0000
    requires 22 <= |b| && b[|b| - 22..] == EndRecord(entries, size, start)
    ensures var end := |b| - 22;
      && U32At(b, end) == END_SIG && U16At(b, end + 4) == U16At(b, end + 6) == U16At(b, end + 20) == 0
      && U16At(b, end + 8) == U16At(b, end + 10) == AsU16(entries)
      && U32At(b, end + 12) == size && U32At(b, end + 16) == start
  {
    hide EndRecord, U16At, U32At;
    var end, h := |b| - 22, EndRecord(entries, size, start);
    EndRecordFields(entries, size, start);
    assert b[end..end + 22] == h;
    FieldOf(b, end, h, 0);
    FieldOf(b, end, h, 4);
    FieldOf(b, end, h, 6);
    FieldOf(b, end, h, 8);
    FieldOf(b, end, h, 10);
    FieldOf(b, end, h, 12);
    FieldOf(b, end, h, 16);
    FieldOf(b, end, h, 20);
  }

  lemma NoEntries(b: seq<Byte>, end: nat, crcOf: Crc)
    requires end <= |b|
    ensures ReadCentral(b, end, end, 0, crcOf) == Some([])
  {
  }

  lemma {:induction false} DirectoryReadsBack(items: seq<Item>, k: nat, b: seq<Byte>, crcOf: Crc)
    requires k <= |items| && Fits(items)
    requires Locals(items, crcOf) + Central(items, crcOf) <= b
    ensures var start := LocalsSize(items);
      ReadCentral(b, start + CentralSize(items[..k]), start + CentralSize(items), |items| - k, crcOf)
      == Some(items[k..])
    decreases |items| - k
  {
    hide ReadLocal, CentralRecord, ReadCentral, Locals, Central;
    if k == |items| {
      assert items[..k] == items;
      NoEntries(b, LocalsSize(items) + CentralSize(items), crcOf);
    } else {
      LocalInArchive(items, k, b, crcOf);
      CentralInArchive(items, k, b, crcOf);
      DirectoryReadsBack(items, k + 1, b, crcOf);
      EntryReadsBack(items[k], b, LocalsSize(items[..k]), LocalsSize(items) + CentralSize(items[..k]),
                     LocalsSize(items) + CentralSize(items), |items| - k, crcOf);
      assert [items[k]] + items[k + 1..] == items[k..];
    }
  }

  /** Reading an archive back gives exactly the items it was built from, in order. */
  lemma ReadBack(items: seq<Item>, crcOf: Crc)
    requires Fits(items)
    ensures ReadArchive(Archive(items, crcOf), crcOf) == Some(items)
  {
    hide ReadCentral, Locals, Central, EndRecord, U16At, U32At, LocalsSize, CentralSize;
    var b := Archive(items, crcOf);
    var start, size := LocalsSize(items), CentralSize(items);
    assert WrappingSub(AsU32(start + size), AsU32(start)) == size;
    var end := |b| - 22;
    assert b[end..] == EndRecord(|items|, size, start);
    EndRecordInPlace(b, |items|, size, start);
    assert items[..0] == [] && items[0..] == items;
    NoSize();
    DirectoryReadsBack(items, 0, b, crcOf);
  }

  lemma NoSize()
    ensures LocalsSize([]) == 0 == CentralSize([])
  {
  }

  lemma {:induction false} ReadShapes(b: seq<Byte>, at: nat, end: nat, count: nat, crcOf: Crc)
    requires end <= |b| && ReadCentral(b, at, end, count, crcOf).Some?
    ensures var items := ReadCentral(b, at, end, count, crcOf).value;
      && |items| == count
      && forall k :: 0 <= k < |items| ==> |items[k].name| < 0x1_0000 && |items[k].data| < 0x1_0000_0000
    decreases count
  {
    hide ReadLocal, U16At, U32At;
    if count > 0 {
      ReadShapes(b, at + 46 + U16At(b, at + 28) + U16At(b, at + 30) + U16At(b, at + 32), end, count - 1, crcOf);
      var data := ReadLocal(b, U32At(b, at + 42), b[at + 46..at + 46 + U16At(b, at + 28)],
                            U32At(b, at + 16), U32At(b, at + 20), crcOf);
      assert |data.value| == U32At(b, at + 20) by {
        LocalDataSize(b, U32At(b, at + 42), b[at + 46..at + 46 + U16At(b, at + 28)],
                      U32At(b, at + 16), U32At(b, at + 20), crcOf);
      }
    }
  }

  lemma LocalDataSize(b: seq<Byte>, at: nat, name: seq<Byte>, crc: nat, size: nat, crcOf: Crc)
    requires ReadLocal(b, at, name, crc, size, crcOf).Some?
    ensures |ReadLocal(b, at, name, crc, size, crcOf).value| == size
  {
    hide U16At, U32At;
  }

  /** Whatever an archive reads back as has counts and lengths the fields can hold. */
  lemma ReadBackNeedsShapes(b: seq<Byte>, items: seq<Item>, crcOf: Crc)
    requires ReadArchive(b, crcOf) == Some(items)
    ensures ShapesFit(items)
  {
    hide ReadCentral, U16At, U32At;
    var end := |b| - 22;
    ReadShapes(b, U32At(b, end + 16), end, U16At(b, end + 10), crcOf);
  }

  lemma WrappedDifference(l: nat, c: nat)
    ensures WrappingSub(AsU32(l + c), AsU32(l)) == AsU32(c)
  {
    var m := 0x1_0000_0000;
    var carry := (l + c) / m - l / m;
    assert AsU32(l + c) - AsU32(l) == c - m * carry;
  }

  /** The end record holds sizes modulo 2^32, and they add up to its own position only unwrapped. */
  lemma ReadBackNeedsSizes(items: seq<Item>, crcOf: Crc)
    requires ReadArchive(Archive(items, crcOf), crcOf).Some?
    ensures LocalsSize(items) < 0x1_0000_0000 && CentralSize(items) < 0x1_0000_0000
  {
    hide ReadCentral, Locals, Central, EndRecord, U16At, U32At;
    var b := Archive(items, crcOf);
    var l, c := LocalsSize(items), CentralSize(items);
    WrappedDifference(l, c);
    assert |b| == l + c + 22 && b[|b| - 22..] == EndRecord(|items|, AsU32(c), AsU32(l));
    EndRecordInPlace(b, |items|, AsU32(c), AsU32(l));
  }

  /** For every item list, however large, the round trip holds exactly when every count, length and
    * offset fits its field. */
  lemma RoundTripIff(items: seq<Item>, crcOf: Crc)
    ensures ReadArchive(Archive(items, crcOf), crcOf) == Some(items) <==> Fits(items)
  {
    hide ReadArchive, Archive, LocalsSize, CentralSize;
    if ReadArchive(Archive(items, crcOf), crcOf) == Some(items) {
      ReadBackNeedsShapes(Archive(items, crcOf), items, crcOf);
      ReadBackNeedsSizes(items, crcOf);
    }
    if Fits(items) {
      ReadBack(items, crcOf);
    }
  }

  /** Below 2^32 bytes only the count and the names need looking at. */
  lemma SmallRoundTripIff(items: seq<Item>, crcOf: Crc)
    requires TotalSize(items) < 0x1_0000_0000
    ensures ReadArchive(Archive(items, crcOf), crcOf) == Some(items)
       <==> |items| < 0x1_0000 && forall k :: 0 <= k < |items| ==> |items[k].name| < 0x1_0000
  {
    hide ReadArchive, Archive;
    RoundTripIff(items, crcOf);
    if |items| < 0x1_0000 && forall k :: 0 <= k < |items| ==> |items[k].name| < 0x1_0000 {
      SmallTotalFits(items);
    }
  }

  /** Two item lists that fit and give the same bytes are the same list. */
  lemma WriterIsInjective(xs: seq<Item>, ys: seq<Item>, crcOf: Crc)
    requires Fits(xs) && Fits(ys)
    requires Archive(xs, crcOf) == Archive(ys, crcOf)
    ensures xs == ys
  {
    hide Archive, ReadArchive;
    ReadBack(xs, crcOf);
    ReadBack(ys, crcOf);
  }

  // ---------------------------------------------------------------------------
  // The writer
  // ---------------------------------------------------------------------------

  class Buffer {
    var bytes: seq<Byte>

    constructor ()
      ensures bytes == []
    {
      bytes := [];
    }

    method ExtendFromSlice(more: seq<Byte>)
      modifies this
      ensures bytes == old(bytes) + more
    {
      bytes := bytes + more;
    }
  }

  lemma Snoc(items: seq<Item>, i: nat, crcOf: Crc)
    requires i < |items|
    ensures Locals(items[..i + 1], crcOf)
         == Locals(items[..i], crcOf) + LocalHeader(items[i], crcOf) + items[i].name + items[i].data
    ensures Central(items[..i + 1], crcOf)
         == Central(items[..i], crcOf)
            + CentralHeader(items[i], AsU32(LocalsSize(items[..i])), crcOf) + items[i].name
  {
    hide LocalHeader, CentralHeader, AsU32;
    assert items[..i + 1][..i] == items[..i];
  }

  /** Adding the narrowed lengths in 32 bits is adding the lengths and narrowing once. */
  lemma OffsetStep(at: nat, name: nat, data: nat)
    ensures AsU32(AsU32(at) + AsU32(AsU32(30 + AsU32(name)) + AsU32(data))) == AsU32(at + 30 + name + data)
  {
    AddMod(30, name);
    AddMod(30 + name, data);
    AddMod(at, 30 + name + data);
    assert AsU32(AsU32(30 + AsU32(name)) + AsU32(data)) == AsU32(30 + name + data);
    assert AsU32(AsU32(at) + AsU32(30 + name + data)) == AsU32(at + (30 + name + data));
  }

  lemma AddMod(x: nat, y: nat)
    ensures AsU32(AsU32(x) + AsU32(y)) == AsU32(x + AsU32(y)) == AsU32(x + y)
  {
  }

  /** `build_zip_stored`. The running offset is a `u32`: it wraps where the source's addition does. */
  method BuildZipStored(buf: Buffer, items: seq<Item>, crcOf: Crc)
    modifies buf
    ensures buf.bytes == old(buf.bytes) + Appended(|old(buf.bytes)|, items, crcOf)
  {
    hide Locals, Central, LocalHeader, CentralHeader, EndRecord, AsU32;
    var centralDir: seq<Byte> := [];
    var offset: nat := AsU32(0);
    ghost var base := buf.bytes;
    assert Locals([], crcOf) == [] && Central([], crcOf) == [];
    assert items[..0] == [];

    for i := 0 to |items|
      invariant buf.bytes == base + Locals(items[..i], crcOf)
      invariant centralDir == Central(items[..i], crcOf)
      // The running offset is where the next local header goes, in 32 bits.
      invariant offset == AsU32(|buf.bytes| - |base|)
    {
      var item := items[i];

      buf.ExtendFromSlice(LocalHeader(item, crcOf));
      buf.ExtendFromSlice(item.name);
      buf.ExtendFromSlice(item.data);

      centralDir := centralDir + CentralHeader(item, offset, crcOf);
      centralDir := centralDir + item.name;

      offset := AsU32(offset + AsU32(AsU32(30 + AsU32(|item.name|)) + AsU32(|item.data|)));

      Snoc(items, i, crcOf);
      Reassociate(base, Locals(items[..i], crcOf), LocalHeader(item, crcOf), item.name, item.data);
      OffsetStep(LocalsSize(items[..i]), |item.name|, |item.data|);
    }
    assert items[..|items|] == items;

    var cdStart := AsU32(|buf.bytes|);
    buf.ExtendFromSlice(centralDir);
    var cdEnd := AsU32(|buf.bytes|);
    buf.ExtendFromSlice(EndRecord(|items|, WrappingSub(cdEnd, cdStart), cdStart));
  }

  /** `build_zip`: what it returns reads back as the items if and only if they fit. */
  method BuildZip(items: seq<Item>, crcOf: Crc) returns (bytes: seq<Byte>)
    ensures ReadArchive(bytes, crcOf) == Some(items) <==> Fits(items)
    ensures |bytes| == TotalSize(items)
  {
    hide Archive, ReadArchive, Fits;
    var buf := new Buffer();
    BuildZipStored(buf, items, crcOf);
    bytes := buf.bytes;
    ArchiveIsAppended(items, crcOf);
    ArchiveLength(items, crcOf);
    RoundTripIff(items, crcOf);
  }

  lemma ArchiveIsAppended(items: seq<Item>, crcOf: Crc)
    ensures Archive(items, crcOf) == [] + Appended(0, items, crcOf)
  {
    hide Appended;
  }
}
