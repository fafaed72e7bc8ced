/** Tables of records as the `csv` module writes and reads them: fields quoted where they must be,
  * records ended by CRLF on the way out and by CRLF, LF or CR on the way in.
  */
module CsvTable {
  import opened CsvLine

  predicate IsNewline(c: char)
  {
    c == '\r' || c == '\n'
  }

  /** What stands after the line end at the front. */
  function AfterBreak(s: string): string
    requires s != ""
  {
    if AtBreak(s, true) then s[2..] else s[1..]
  }

  // ---------------------------------------------------------------------------
  // Writing
  // ---------------------------------------------------------------------------

  /** A record of one empty field is quoted, or it would read as no record at all. */
  function RecordText(fields: seq<string>): string
  {
    if fields == [""] then "\"\"" else JoinFields(fields)
  }

  function WriteRecord(fields: seq<string>): string
  {
    RecordText(fields) + "\r\n"
  }

  function WriteAll(records: seq<seq<string>>): string
  {
    if records == [] then "" else WriteRecord(records[0]) + WriteAll(records[1..])
  }

  // ---------------------------------------------------------------------------
  // Reading
  // ---------------------------------------------------------------------------

  datatype Mode = Start | Bare | Quoted

  /** A field, whether it ended its record, and what follows. */
  datatype Piece = Piece(field: string, last: bool, rest: string)

  /** A quote opens a quoted field only at its start; after the closing quote the field goes on bare. */
  function Field(s: string, buf: string, mode: Mode): (p: Piece)
    ensures |p.rest| <= |s| && (s != "" ==> |p.rest| < |s|) && (!p.last ==> |p.rest| < |s|)
    decreases |s|
  {
    if s == "" then Piece(buf, true, "")
    else if mode == Quoted then
      if s[0] == '"' then
        if |s| > 1 && s[1] == '"' then Field(s[2..], buf + "\"", Quoted) else Field(s[1..], buf, Bare)
      else Field(s[1..], buf + [s[0]], Quoted)
    else if IsNewline(s[0]) then Piece(buf, true, AfterBreak(s))
    else if s[0] == ',' then Piece(buf, false, s[1..])
    else if mode == Start && s[0] == '"' then Field(s[1..], buf, Quoted)
    else Field(s[1..], buf + [s[0]], Bare)
  }

  function Record(s: string): (r: (seq<string>, string))
    ensures r.0 != [] && |r.1| <= |s| && (s != "" ==> |r.1| < |s|)
    decreases |s|
  {
    var p := Field(s, "", Start);
    if p.last then ([p.field], p.rest)
    else
      var (fields, rest) := Record(p.rest);
      ([p.field] + fields, rest)
  }

  /** All records; a blank line is a record without fields. */
  function Records(s: string): seq<seq<string>>
    decreases |s|
  {
    if s == "" then []
    else if IsNewline(s[0]) then [[]] + Records(AfterBreak(s))
    else
      var (fields, rest) := Record(s);
      [fields] + Records(rest)
  }

  // ---------------------------------------------------------------------------
  // Reading undoes writing
  // ---------------------------------------------------------------------------

  lemma {:induction false} FieldDoubled(value: string, buf: string, rest: string)
    requires rest == "" || rest[0] != '"'
    ensures Field(Doubled(value) + "\"" + rest, buf, Quoted) == Field(rest, buf + value, Bare)
    decreases |value|
  {
    var s := Doubled(value) + "\"" + rest;
    if value == "" {
      assert s[1..] == rest && buf + value == buf;
    } else {
      FieldDoubled(value[1..], buf + [value[0]], rest);
      assert buf + [value[0]] + value[1..] == buf + value;
      var n := if value[0] == '"' then 2 else 1;
      assert s[n..] == Doubled(value[1..]) + "\"" + rest;
    }
  }

  lemma {:induction false} FieldBare(value: string, buf: string, rest: string)
    requires Plain(value)
    ensures Field(value + rest, buf, Bare) == Field(rest, buf + value, Bare)
    decreases |value|
  {
    if value == "" {
      assert value + rest == rest && buf + value == buf;
    } else {
      assert value[0] in value;
      FieldBare(value[1..], buf + [value[0]], rest);
      assert buf + [value[0]] + value[1..] == buf + value;
      assert (value + rest)[1..] == value[1..] + rest;
    }
  }

  /** What ends a field. */
  predicate Ends(rest: string)
  {
    rest != "" && (rest[0] == ',' || IsNewline(rest[0]))
  }

  function Cut(value: string, rest: string): Piece
    requires Ends(rest)
  {
    if rest[0] == ',' then Piece(value, false, rest[1..]) else Piece(value, true, AfterBreak(rest))
  }

  lemma FieldOpened(inside: string)
    ensures Field("\"" + inside, "", Start) == Field(inside, "", Quoted)
  {
    assert ("\"" + inside)[1..] == inside;
  }

  lemma FieldOfQuote(value: string, rest: string)
    requires Ends(rest)
    ensures Field(Quote(value) + rest, "", Start) == Cut(value, rest)
  {
    hide Doubled;
    assert "" + value == value;
    assert Field(rest, value, Bare) == Cut(value, rest);
    if !Plain(value) {
      var inside := Doubled(value) + "\"" + rest;
      assert Quote(value) + rest == "\"" + inside;
      FieldOpened(inside);
      FieldDoubled(value, "", rest);
    } else if value == "" {
      assert value + rest == rest;
    } else {
      assert value[0] in value;
      assert (value + rest)[1..] == value[1..] + rest;
      FieldBare(value[1..], "" + [value[0]], rest);
      assert "" + [value[0]] + value[1..] == value;
    }
  }

  lemma RecordStep(s: string)
    ensures var p := Field(s, "", Start);
      Record(s) == if p.last then ([p.field], p.rest) else ([p.field] + Record(p.rest).0, Record(p.rest).1)
  {
    hide Field;
  }

  lemma JoinStep(fields: seq<string>)
    requires fields != []
    ensures JoinFields(fields)
         == if |fields| == 1 then Quote(fields[0]) else Quote(fields[0]) + ("," + JoinFields(fields[1..]))
  {
    hide Quote;
  }

  lemma {:induction false} RecordOfJoin(fields: seq<string>, rest: string)
    requires fields != [] && rest != "" && IsNewline(rest[0])
    ensures Record(JoinFields(fields) + rest) == (fields, AfterBreak(rest))
  {
    hide Quote, Field, Record, JoinFields;
    var s := JoinFields(fields) + rest;
    JoinStep(fields);
    RecordStep(s);
    if |fields| == 1 {
      FieldOfQuote(fields[0], rest);
      assert fields == [fields[0]];
    } else {
      var tail := JoinFields(fields[1..]) + rest;
      assert s == Quote(fields[0]) + ("," + tail);
      FieldOfQuote(fields[0], "," + tail);
      assert ("," + tail)[1..] == tail;
      RecordOfJoin(fields[1..], rest);
      assert [fields[0]] + fields[1..] == fields;
    }
  }

  lemma EmptyFieldReads(rest: string)
    requires rest != "" && IsNewline(rest[0])
    ensures Record("\"\"" + rest) == ([""], AfterBreak(rest))
  {
    var s := "\"\"" + rest;
    assert Doubled("") == "" && s == "\"" + (Doubled("") + "\"" + rest);
    FieldOpened(Doubled("") + "\"" + rest);
    FieldDoubled("", "", rest);
  }

  lemma JoinedStart(fields: seq<string>)
    requires fields != [] && fields != [""]
    ensures JoinFields(fields) != "" && !IsNewline(JoinFields(fields)[0])
  {
    var first := Quote(fields[0]);
    if Plain(fields[0]) && fields[0] != "" {
      assert fields[0][0] in fields[0];
    }
    if first == "" {
      assert fields[0] == "";
      assert fields == [fields[0]] + fields[1..];
    }
  }

  /** A record reads back up to its line end, whichever that is. */
  lemma RecordReads(fields: seq<string>, rest: string)
    requires rest != "" && IsNewline(rest[0])
    ensures Records(RecordText(fields) + rest) == [fields] + Records(AfterBreak(rest))
  {
    hide Record, JoinFields;
    var s := RecordText(fields) + rest;
    if fields == [] {
      assert JoinFields(fields) == "" by { NothingJoined(fields); }
      assert s == rest;
    } else if fields == [""] {
      EmptyFieldReads(rest);
    } else {
      JoinedStart(fields);
      RecordOfJoin(fields, rest);
    }
  }

  lemma NothingJoined(fields: seq<string>)
    requires fields == []
    ensures JoinFields(fields) == ""
  {
  }

  /** Every list of records reads back as it was written: fields with commas, quotes and line breaks,
    * empty records and records of one empty field included. */
  lemma {:induction false} ReadBack(records: seq<seq<string>>)
    ensures Records(WriteAll(records)) == records
  {
    hide Records, WriteRecord;
    if records == [] {
      NothingRead();
    } else {
      var rest := "\r\n" + WriteAll(records[1..]);
      WriteFirst(records);
      assert AtBreak(rest, true) && AfterBreak(rest) == WriteAll(records[1..]);
      RecordReads(records[0], rest);
      ReadBack(records[1..]);
      assert [records[0]] + records[1..] == records;
    }
  }

  lemma WriteFirst(records: seq<seq<string>>)
    requires records != []
    ensures WriteAll(records) == RecordText(records[0]) + ("\r\n" + WriteAll(records[1..]))
  {
  }

  lemma NothingRead()
    ensures Records("") == []
  {
  }

  /** So two tables that give the same text are the same table. */
  lemma WriterIsInjective(xs: seq<seq<string>>, ys: seq<seq<string>>)
    requires WriteAll(xs) == WriteAll(ys)
    ensures xs == ys
  {
    ReadBack(xs);
    ReadBack(ys);
  }

  // ---------------------------------------------------------------------------
  // Reading what others wrote
  // ---------------------------------------------------------------------------

  predicate IsEnd(end: string)
  {
    end == "\r\n" || end == "\n" || end == "\r"
  }

  /** Records with a line end each. */
  function WriteAs(records: seq<seq<string>>, ends: seq<string>): string
    requires |ends| == |records|
  {
    if records == [] then "" else RecordText(records[0]) + ends[0] + WriteAs(records[1..], ends[1..])
  }

  /** A CR and an LF after it would be one line end. */
  predicate Apart(end: string, next: string)
  {
    end != "\r" || next == "" || next[0] != '\n'
  }

  /** Line ends of all three kinds, each apart from what follows it. */
  ghost predicate EndsApart(records: seq<seq<string>>, ends: seq<string>, tail: string)
    requires |ends| == |records|
    decreases |records|
  {
    records == []
    || (IsEnd(ends[0]) && Apart(ends[0], WriteAs(records[1..], ends[1..]) + tail)
        && EndsApart(records[1..], ends[1..], tail))
  }

  /** CRLF, LF and CR, mixed or not, all end a record: the table reads back whichever its writer used, and
    * whatever stands after it is read on. */
  lemma {:induction false} ReadBackAs(records: seq<seq<string>>, ends: seq<string>, tail: string)
    requires |ends| == |records| && EndsApart(records, ends, tail)
    ensures Records(WriteAs(records, ends) + tail) == records + Records(tail)
    decreases |records|
  {
    hide Records, RecordText;
    if records == [] {
      assert WriteAs(records, ends) + tail == tail && records + Records(tail) == Records(tail);
    } else {
      var next := WriteAs(records[1..], ends[1..]) + tail;
      var rest := ends[0] + next;
      assert WriteAs(records, ends) + tail == RecordText(records[0]) + rest;
      assert AfterBreak(rest) == next by {
        assert rest[|ends[0]|..] == next;
      }
      RecordReads(records[0], rest);
      ReadBackAs(records[1..], ends[1..], tail);
      assert [records[0]] + (records[1..] + Records(tail)) == records + Records(tail);
    }
  }

  /** A last record needs no line end. */
  lemma LastReads(fields: seq<string>)
    requires fields != []
    ensures Records(RecordText(fields)) == [fields]
  {
    hide Record, JoinFields;
    if fields == [""] {
      LastEmptyField();
    } else {
      JoinedStart(fields);
      RecordAtEnd(fields);
    }
  }

  lemma LastEmptyField()
    ensures Records("\"\"") == [[""]]
  {
    assert "\"\""[1..] == "\"" && "\""[1..] == "";
    assert Field("\"", "", Quoted) == Piece("", true, "");
    assert Field("\"\"", "", Start) == Piece("", true, "");
    assert Record("\"\"") == ([""], "") && Records("") == [];
  }

  /** Neither a comma nor a line end, and no quote at its start: a field that may stand as it is. */
  predicate Bald(value: string)
  {
    (forall c :: c in value ==> c != ',' && !IsNewline(c)) && (value == "" || value[0] != '"')
  }

  function Commas(fields: seq<string>): string
  {
    if fields == [] then "" else if |fields| == 1 then fields[0] else fields[0] + "," + Commas(fields[1..])
  }

  lemma {:induction false} BareReads(value: string, buf: string, rest: string)
    requires (forall c :: c in value ==> c != ',' && !IsNewline(c)) && Ends(rest)
    ensures Field(value + rest, buf, Bare) == Cut(buf + value, rest)
    decreases |value|
  {
    if value == "" {
      assert value + rest == rest && buf + value == buf;
    } else {
      assert value[0] in value && forall c :: c in value[1..] ==> c in value;
      BareReads(value[1..], buf + [value[0]], rest);
      assert buf + [value[0]] + value[1..] == buf + value;
      assert (value + rest)[1..] == value[1..] + rest;
    }
  }

  lemma BaldReads(value: string, rest: string)
    requires Bald(value) && Ends(rest)
    ensures Field(value + rest, "", Start) == Cut(value, rest)
  {
    if value == "" {
      assert value + rest == rest;
    } else {
      assert value[0] in value && forall c :: c in value[1..] ==> c in value;
      BareReads(value[1..], "" + [value[0]], rest);
      assert "" + [value[0]] + value[1..] == value;
      assert (value + rest)[1..] == value[1..] + rest;
    }
  }

  /** Such fields, joined with commas by hand, are read as they stand, quotes in their middle included. */
  lemma {:induction false} BaldRecordReads(fields: seq<string>, rest: string)
    requires fields != [] && (forall f :: f in fields ==> Bald(f)) && rest != "" && IsNewline(rest[0])
    ensures Record(Commas(fields) + rest) == (fields, AfterBreak(rest))
  {
    hide Field, Bald;
    assert fields[0] in fields;
    if |fields| == 1 {
      BaldReads(fields[0], rest);
      assert fields == [fields[0]];
    } else {
      var tail := Commas(fields[1..]) + rest;
      assert Commas(fields) + rest == fields[0] + ("," + tail);
      BaldReads(fields[0], "," + tail);
      assert ("," + tail)[1..] == tail;
      BaldRecordReads(fields[1..], rest);
      assert [fields[0]] + fields[1..] == fields;
    }
  }

  /** After the closing quote of a quoted field what follows up to its end is taken as it stands too. */
  lemma QuotedThenBare(value: string, more: string, rest: string)
    requires (forall c :: c in more ==> c != ',' && !IsNewline(c)) && (more == "" || more[0] != '"') && Ends(rest)
    ensures Field("\"" + (Doubled(value) + "\"" + (more + rest)), "", Start) == Cut(value + more, rest)
  {
    hide Doubled;
    FieldOpened(Doubled(value) + "\"" + (more + rest));
    assert (more + rest)[0] != '"';
    FieldDoubled(value, "", more + rest);
    assert "" + value == value;
    BareReads(more, value, rest);
  }

  lemma {:induction false} RecordAtEnd(fields: seq<string>)
    requires fields != []
    ensures Record(JoinFields(fields)) == (fields, "")
  {
    hide Quote, Field, Record, JoinFields;
    JoinStep(fields);
    RecordStep(JoinFields(fields));
    if |fields| == 1 {
      FieldAtEnd(fields[0]);
      assert fields == [fields[0]];
    } else {
      var tail := JoinFields(fields[1..]);
      assert JoinFields(fields) == Quote(fields[0]) + ("," + tail);
      FieldOfQuote(fields[0], "," + tail);
      assert ("," + tail)[1..] == tail;
      RecordAtEnd(fields[1..]);
      assert [fields[0]] + fields[1..] == fields;
    }
  }

  lemma FieldAtEnd(value: string)
    ensures Field(Quote(value), "", Start) == Piece(value, true, "")
  {
    hide Doubled;
    assert "" + value == value;
    if !Plain(value) {
      assert Quote(value) == "\"" + (Doubled(value) + "\"" + "");
      FieldOpened(Doubled(value) + "\"" + "");
      FieldDoubled(value, "", "");
    } else if value != "" {
      assert value[0] in value;
      FieldBare(value[1..], "" + [value[0]], "");
      assert value[1..] + "" == value[1..] && "" + [value[0]] + value[1..] == value;
    }
  }

  // ---------------------------------------------------------------------------
  // Fields without a CRLF of their own
  // ---------------------------------------------------------------------------

  /** A text without CRLF has no field with one: a line feed is only ever collected inside quotes, next
    * to what it stands next to in the text. */
  lemma {:induction false} FieldNoCrlf(s: string, buf: string, mode: Mode)
    requires !HasBreak(s, true) && !HasBreak(buf, true)
    requires mode == Quoted ==> !EndsInCr(buf) || s == "" || s[0] != '\n'
    requires mode == Start ==> buf == ""
    ensures !HasBreak(Field(s, buf, mode).field, true) && !HasBreak(Field(s, buf, mode).rest, true)
    decreases |s|
  {
    if s != "" {
      var n := if mode == Quoted && s[0] == '"' && |s| > 1 && s[1] == '"' then 2 else 1;
      assert !HasBreak(s[1..], true) && !HasBreak(s[n..], true);
      if n == 2 {
        OneCharNoCrlf('"');
        ConcatNoCrlf(buf, "\"");
        FieldNoCrlf(s[2..], buf + "\"", Quoted);
      } else if mode == Quoted && s[0] == '"' {
        FieldNoCrlf(s[1..], buf, Bare);
      } else if mode == Quoted {
        OneCharNoCrlf(s[0]);
        ConcatNoCrlf(buf, [s[0]]);
        FieldNoCrlf(s[1..], buf + [s[0]], Quoted);
      } else if IsNewline(s[0]) || s[0] == ',' {
      } else if mode == Start && s[0] == '"' {
        FieldNoCrlf(s[1..], buf, Quoted);
      } else {
        OneCharNoCrlf(s[0]);
        ConcatNoCrlf(buf, [s[0]]);
        FieldNoCrlf(s[1..], buf + [s[0]], Bare);
      }
    }
  }

  lemma OneCharNoCrlf(c: char)
    ensures !HasBreak([c], true)
  {
    assert [c][1..] == "";
  }

  lemma {:induction false} RecordNoCrlf(s: string)
    requires !HasBreak(s, true)
    ensures forall f :: f in Record(s).0 ==> !HasBreak(f, true)
    decreases |s|
  {
    hide Field;
    FieldNoCrlf(s, "", Start);
    var p := Field(s, "", Start);
    if !p.last {
      RecordNoCrlf(p.rest);
    }
  }

  lemma {:induction false} DoubledNoCrlf(value: string)
    requires !HasBreak(value, true)
    ensures !HasBreak(Doubled(value), true)
    ensures value != "" ==> Doubled(value) != "" && Doubled(value)[0] == value[0]
    decreases |value|
  {
    if value != "" {
      DoubledNoCrlf(value[1..]);
      var first := if value[0] == '"' then "\"\"" else [value[0]];
      OneCharNoCrlf(value[0]);
      assert "\"\""[1..] == "\"";
      OneCharNoCrlf('"');
      ConcatNoCrlf(first, Doubled(value[1..]));
    }
  }

  lemma QuoteNoCrlf(value: string)
    requires !HasBreak(value, true)
    ensures !HasBreak(Quote(value), true) && !EndsInCr(Quote(value))
  {
    if Plain(value) {
      assert value != "" ==> value[|value| - 1] in value;
    } else {
      DoubledNoCrlf(value);
      OneCharNoCrlf('"');
      ConcatNoCrlf("\"", Doubled(value));
      ConcatNoCrlf("\"" + Doubled(value), "\"");
    }
  }

  /** Nor has the line such fields are written to. */
  lemma {:induction false} JoinNoCrlf(fields: seq<string>)
    requires forall f :: f in fields ==> !HasBreak(f, true)
    ensures !HasBreak(JoinFields(fields), true)
  {
    hide Quote;
    if |fields| == 1 {
      QuoteNoCrlf(fields[0]);
    } else if |fields| > 1 {
      QuoteNoCrlf(fields[0]);
      JoinNoCrlf(fields[1..]);
      OneCharNoCrlf(',');
      ConcatNoCrlf(",", JoinFields(fields[1..]));
      ConcatNoCrlf(Quote(fields[0]), "," + JoinFields(fields[1..]));
      assert JoinFields(fields) == Quote(fields[0]) + ("," + JoinFields(fields[1..]));
    }
  }
}
