/** The two headers of a ledger. `ledger.py` writes under the header it finds in the first CRLF-ended line,
  * but reads its rows under the first record of the file: when they are the same, and what is lost when
  * they are not.
  */
module LedgerHeaders {
  import opened Wrappers
  import opened CsvLine
  import opened CsvTable
  import opened Ledger
  import opened WhiteSpace

  // ---------------------------------------------------------------------------
  // A text cut at its first CRLF
  // ---------------------------------------------------------------------------

  lemma {:induction false} FieldStartsWith(s: string, buf: string, mode: Mode)
    ensures buf <= Field(s, buf, mode).field
    decreases |s|
  {
    if s != "" {
      if mode == Quoted && s[0] == '"' {
        if |s| > 1 && s[1] == '"' {
          FieldStartsWith(s[2..], buf + "\"", Quoted);
        } else {
          FieldStartsWith(s[1..], buf, Bare);
        }
      } else if mode == Quoted {
        FieldStartsWith(s[1..], buf + [s[0]], Quoted);
      } else if !IsNewline(s[0]) && s[0] != ',' {
        if mode == Start && s[0] == '"' {
          FieldStartsWith(s[1..], buf, Quoted);
        } else {
          FieldStartsWith(s[1..], buf + [s[0]], Bare);
        }
      }
    }
  }

  /** A quoted field that meets a CRLF collects it. */
  lemma QuotedTakesBreak(tail: string, buf: string)
    requires AtBreak(tail, true)
    ensures HasBreak(Field(tail, buf, Quoted).field, true)
  {
    var buf' := buf + ['\r'] + ['\n'];
    assert tail[1..][0] == '\n' && tail[1..][1..] == tail[2..];
    assert Field(tail, buf, Quoted) == Field(tail[1..], buf + ['\r'], Quoted);
    assert Field(tail[1..], buf + ['\r'], Quoted) == Field(tail[2..], buf', Quoted);
    FieldStartsWith(tail[2..], buf', Quoted);
    var field := Field(tail, buf, Quoted).field;
    assert buf' == buf + "\r\n" && field == buf + "\r\n" + field[|buf'|..];
    BreakInside(buf, field[|buf'|..]);
  }

  /** A field reads the same whether the text goes on after a CRLF or stops before it, or else it holds one. */
  lemma {:induction false} FieldCut(line: string, tail: string, buf: string, mode: Mode)
    requires tail == "" || AtBreak(tail, true)
    requires !HasBreak(line, true)
    ensures var p, q := Field(line, buf, mode), Field(line + tail, buf, mode);
      || HasBreak(q.field, true)
      || (p.field == q.field && p.last == q.last && (!p.last ==> q.rest == p.rest + tail && !HasBreak(p.rest, true)))
    decreases |line|
  {
    var s := line + tail;
    if line == "" {
      assert s == tail;
      if tail != "" && mode == Quoted {
        QuotedTakesBreak(tail, buf);
      }
    } else {
      assert s[0] == line[0] && s[1..] == line[1..] + tail;
      if mode == Quoted && line[0] == '"' {
        if |line| > 1 && line[1] == '"' {
          assert s[2..] == line[2..] + tail && line[2..] == line[1..][1..];
          FieldCut(line[2..], tail, buf + "\"", Quoted);
        } else {
          assert |s| > 1 ==> s[1] != '"';
          FieldCut(line[1..], tail, buf, Bare);
        }
      } else if mode == Quoted {
        FieldCut(line[1..], tail, buf + [line[0]], Quoted);
      } else if !IsNewline(line[0]) && line[0] != ',' {
        if mode == Start && line[0] == '"' {
          FieldCut(line[1..], tail, buf, Quoted);
        } else {
          FieldCut(line[1..], tail, buf + [line[0]], Bare);
        }
      }
    }
  }

  lemma {:induction false} RecordCut(line: string, tail: string)
    requires tail == "" || AtBreak(tail, true)
    requires !HasBreak(line, true)
    ensures Record(line + tail).0 == Record(line).0 || !NoCrlf(Record(line + tail).0)
    decreases |line|
  {
    hide Field, HasBreak, AtBreak;
    FieldCut(line, tail, "", Start);
    var p, q := Field(line, "", Start), Field(line + tail, "", Start);
    if HasBreak(q.field, true) {
      assert q.field in Record(line + tail).0;
    } else if !p.last {
      ShorterRest(line);
      RecordCut(p.rest, tail);
      if !NoCrlf(Record(q.rest).0) {
        var name :| name in Record(q.rest).0 && HasBreak(name, true);
        assert name in Record(line + tail).0;
      }
    }
  }

  lemma ShorterRest(line: string)
    ensures !Field(line, "", Start).last ==> |Field(line, "", Start).rest| < |line|
  {
  }

  /** The header a file is written under is the header its rows are read under if and only if no name of the
    * latter holds a CRLF. */
  lemma HeadersAgreeIff(raw: string)
    requires !Blank(raw) && HeaderFor(raw).Some?
    ensures Records(raw) != []
    ensures HeaderFor(raw).value == Records(raw)[0] <==> NoCrlf(Records(raw)[0])
  {
    hide Lines, Record, HasBreak, Canonical;
    var line := Lines(raw, true)[0];
    FirstLineIsPrefix(raw, true);
    LinesHaveNoBreak(raw, true);
    HeaderHasNoCrlf(raw);
    assert raw != "";
    var tail := raw[|line|..];
    assert raw == line + tail;
    if !IsNewline(raw[0]) {
      assert line != "" && line[0] == raw[0];
      RecordCut(line, tail);
    } else if line != "" {
      assert line[0] == raw[0];
    }
  }

  /** A written header is read back if and only if the file is not blank and no name holds a CRLF: else the
    * line is cut inside the name. */
  lemma HeaderReadBackIff(header: seq<string>, rows: seq<Dict>)
    ensures HeaderFor(Written(header, rows)) == Some(header) <==> !Blank(Written(header, rows)) && NoCrlf(header)
  {
    hide Written, Lines, Record, HasBreak, Blank;
    var raw := Written(header, rows);
    if HeaderFor(raw) == Some(header) {
      HeaderHasNoCrlf(raw);
      if Blank(raw) {
        assert "id" in Canonical();
        IdMakesItVisible(header, rows);
      }
    } else if !Blank(raw) && NoCrlf(header) {
      if header == [] {
        NoColumnsIsBlank(rows);
      } else {
        HeaderReadBack(header, rows);
      }
    }
  }

  // ---------------------------------------------------------------------------
  // What is kept
  // ---------------------------------------------------------------------------

  lemma {:induction false} DictKeys(header: seq<string>, fields: seq<string>)
    ensures forall c :: c in DictOf(header, fields) <==> c in header
  {
    if header != [] {
      var n := |header| - 1;
      DictKeys(header[..n], fields);
      assert header == header[..n] + [header[n]];
    }
  }

  lemma {:induction false} RowKeys(header: seq<string>, records: seq<seq<string>>)
    ensures RowsFrom(header, records).Ok? ==>
      forall d, c :: d in RowsFrom(header, records).value && c in d ==> c in header
    decreases |records|
  {
    hide DictOf;
    if records != [] {
      RowKeys(header, records[1..]);
      DictKeys(header, records[0]);
    }
  }

  /** Rows have values under the names of the first record alone. */
  lemma RowsUnderFirstRecord(raw: string)
    requires ReadRows(raw).Ok? && !Blank(raw) && Records(raw) != []
    ensures forall k, c :: 0 <= k < |ReadRows(raw).value| && c in ReadRows(raw).value[k] ==> c in Records(raw)[0]
  {
    hide RowsFrom, Records, Blank;
    RowKeys(Records(raw)[0], Records(raw)[1..]);
  }

  /** The header has a column for every value of the row. */
  ghost predicate Held(header: seq<string>, d: Dict)
  {
    forall c :: c in d && c !in header ==> d[c] == ""
  }

  ghost predicate SameValues(x: Dict, y: Dict)
  {
    forall c :: Get(x, c) == Get(y, c)
  }

  lemma ShownKeepsIff(header: seq<string>, d: Dict)
    ensures SameValues(Shown(header, d), d) <==> Held(header, d)
  {
    hide Shown;
    ShownIs(header, d);
    if SameValues(Shown(header, d), d) {
      forall c | c in d && c !in header
        ensures d[c] == ""
      {
        assert Get(Shown(header, d), c) == Get(d, c);
      }
    }
  }

  /** What an upsert is for: the row with that id, or a new last one, takes the new values. */
  function Intended(rows: seq<Dict>, row: Dict): seq<Dict>
    requires "id" in row
  {
    var i := FindId(rows, row["id"]);
    if i < |rows| then rows[i := rows[i] + row] else rows + [row]
  }

  /** Row by row: after an upsert into a ledger with the `id` column a row has every value it should if and
    * only if the header written has a column for each that is not empty. */
  lemma UpsertKeepsIff(raw: string, row: Dict)
    requires Upserted(raw, row).Ok? && "id" in HeaderFor(raw).value
    ensures var header, wanted := HeaderFor(raw).value, Intended(ReadRows(raw).value, row);
      var after := ReadRows(Upserted(raw, row).value.0);
      && after.Ok? && |after.value| == |wanted|
      && forall k :: 0 <= k < |wanted| ==> (SameValues(after.value[k], wanted[k]) <==> Held(header, wanted[k]))
  {
    hide Blank, HeaderFor, ReadRows, Written, Shown, Known, SameValues, Held;
    var header, rows := HeaderFor(raw).value, ReadRows(raw).value;
    var rows1, wanted := UpsertedRows(header, rows, row).0, Intended(rows, row);
    WrittenReads(raw, header, rows1);
    forall k | 0 <= k < |wanted|
      ensures SameValues(Shown(header, rows1[k]), wanted[k]) <==> Held(header, wanted[k])
    {
      ShownKeepsIff(header, wanted[k]);
      ShownTwice(header, wanted[k]);
    }
  }

  /** So in a ledger whose first record has no CRLF in a name an upsert keeps every other row whole. */
  lemma PlainLedgerKeepsRows(raw: string, row: Dict)
    requires Upserted(raw, row).Ok? && "id" in HeaderFor(raw).value
    requires Blank(raw) || (Records(raw) != [] && NoCrlf(Records(raw)[0]))
    ensures var rows, after := ReadRows(raw).value, ReadRows(Upserted(raw, row).value.0);
      && after.Ok?
      && forall k :: 0 <= k < |rows| && k != FindId(rows, row["id"]) ==>
           k < |after.value| && SameValues(after.value[k], rows[k])
  {
    hide HeaderFor, Written, Known, SameValues, Blank, Upserted, RowsFrom, Records;
    UpsertReads(raw, row);
    var rows := ReadRows(raw).value;
    UpsertKeepsIff(raw, row);
    if !Blank(raw) {
      HeadersAgreeIff(raw);
      RowsUnderFirstRecord(raw);
      assert forall k :: 0 <= k < |rows| ==> Held(HeaderFor(raw).value, rows[k]);
    }
  }

  lemma UpsertReads(raw: string, row: Dict)
    requires Upserted(raw, row).Ok?
    ensures "id" in row && HeaderFor(raw).Some? && ReadRows(raw).Ok?
  {
  }

  /** Adding columns keeps a row whole if and only if the header it finds, or the columns asked for, have one
    * for each of its values; if there is nothing to add, the file is left alone. */
  lemma AddColumnsKeepsIff(raw: string, columns: seq<string>)
    requires WithColumns(raw, columns).Ok? && WithColumns(raw, columns).value.1
    ensures var header, rows := HeaderFor(raw).value, ReadRows(raw).value;
      var after := ReadRows(WithColumns(raw, columns).value.0);
      && after.Ok? && |after.value| == |rows|
      && forall k :: 0 <= k < |rows| ==> (SameValues(after.value[k], rows[k]) <==> Held(header + columns, rows[k]))
  {
    hide Blank, HeaderFor, ReadRows, Written, Canonical, Shown, SameValues, Held;
    var header, rows := HeaderFor(raw).value, ReadRows(raw).value;
    var added := Missing(columns, header);
    AddedShown(raw, columns);
    forall k | 0 <= k < |rows|
      ensures SameValues(Shown(header + added, Defaulted(rows[k], added)), rows[k]) <==> Held(header + columns, rows[k])
    {
      ShownKeepsIff(header + added, Defaulted(rows[k], added));
      DefaultedKeeps(rows[k], added, header + added, header + columns, Shown(header + added, Defaulted(rows[k], added)));
    }
  }

  lemma DefaultedKeeps(d: Dict, added: seq<string>, header: seq<string>, wider: seq<string>, shown: Dict)
    requires forall c :: c in header <==> c in wider
    ensures SameValues(shown, Defaulted(d, added)) <==> SameValues(shown, d)
    ensures Held(header, Defaulted(d, added)) <==> Held(wider, d)
  {
    hide Defaulted;
    DefaultedIs(d, added);
    var e := Defaulted(d, added);
    assert forall c :: Get(e, c) == Get(d, c);
    if Held(header, e) {
      forall c | c in d && c !in wider
        ensures d[c] == ""
      {
        assert Get(e, c) == Get(d, c);
      }
    }
    if Held(wider, d) {
      forall c | c in e && c !in header
        ensures e[c] == ""
      {
        assert Get(e, c) == Get(d, c);
      }
    }
  }

  lemma AddedShown(raw: string, columns: seq<string>)
    requires WithColumns(raw, columns).Ok? && WithColumns(raw, columns).value.1
    ensures HeaderFor(raw).Some? && ReadRows(raw).Ok?
    ensures var header, rows := HeaderFor(raw).value, ReadRows(raw).value;
      var added := Missing(columns, header);
      ReadRows(WithColumns(raw, columns).value.0) == Ok(AllShown(header + added, AllDefaulted(rows, added)))
  {
    hide Blank, HeaderFor, ReadRows, Written, Canonical, Shown;
    var header, rows := HeaderFor(raw).value, ReadRows(raw).value;
    var added := Missing(columns, header);
    var header', rows1 := header + added, AllDefaulted(rows, added);
    assert added[0] in header' && added[0] in added;
    ColumnMakesItVisible(header', added[0], rows1);
    RowsReadBack(header', rows1);
  }

  // ---------------------------------------------------------------------------
  // A ledger with a CRLF in a name
  // ---------------------------------------------------------------------------

  function CutLedger(): string
  {
    WriteAll([["id", "a\r\nb"], ["1", "2"]])
  }

  lemma CutRecord()
    ensures JoinFields(["id", "a\r\nb"]) == "id,\"a" + Break(true) + "b\""
  {
    hide Doubled;
    var name := "a\r\nb";
    CutNameDoubled();
    assert ["id", name][1..] == [name];
    assert name[1] == '\r' && name[1] in name;
  }

  lemma CutNameDoubled()
    ensures Doubled("a\r\nb") == "a\r\nb"
  {
    var name := "a\r\nb";
    assert name[1..] == "\r\nb" && "\r\nb"[1..] == "\nb" && "\nb"[1..] == "b" && "b"[1..] == "";
    assert Doubled("b") == "b" && Doubled("\nb") == "\nb" && Doubled("\r\nb") == "\r\nb";
  }

  lemma CutLineReads()
    ensures !HasBreak("id,\"a", true) && LoneRecord("id,\"a") == Some(["id", "a"])
  {
    var line := "id,\"a";
    NoNewlineNoCrlf(line);
    assert line[1..] == "d,\"a" && "d,\"a"[1..] == ",\"a" && ",\"a"[1..] == "\"a" && "\"a"[1..] == "a" && "a"[1..] == "";
    assert Field(",\"a", "id", Bare) == Piece("id", false, "\"a");
    assert Field("d,\"a", "i", Bare) == Piece("id", false, "\"a");
    assert Field(line, "", Start) == Piece("id", false, "\"a");
    assert Field("a", "", Quoted) == Piece("a", true, "");
    assert Field("\"a", "", Start) == Piece("a", true, "");
    assert Record("\"a") == (["a"], "");
    assert Record(line) == (["id"] + ["a"], "") && ["id"] + ["a"] == ["id", "a"];
  }

  lemma CutHeader()
    ensures !Blank(CutLedger()) && HeaderFor(CutLedger()) == Some(["id", "a"])
  {
    hide Blank, LoneRecord, Lines, JoinFields, WriteAll, HasBreak;
    var records := [["id", "a\r\nb"], ["1", "2"]];
    var raw, rest := CutLedger(), "b\"" + Break(true) + WriteAll(records[1..]);
    WrittenStarts(records);
    CutRecord();
    assert raw == "id,\"a" + Break(true) + rest;
    LinesOfJoined("id,\"a", rest, true);
    CutLineReads();
    LineWithoutBreak("id,\"a", true);
    Visible(raw);
  }

  lemma Visible(raw: string)
    requires raw != "" && !IsSpace(raw[0])
    ensures !Blank(raw)
  {
  }

  lemma CutRow()
    ensures ReadRows(CutLedger()) == Ok([map["id" := "1", "a\r\nb" := "2"]])
  {
    hide Blank, WriteAll, Records, HeaderFor;
    var header, row := ["id", "a\r\nb"], ["1", "2"];
    CutHeader();
    ReadBack([header, row]);
    assert [header, row][1..] == [row] && [row][1..] == [];
    assert header[..1] == ["id"] && ["id"][..0] == [];
    assert DictOf([], row) == map[] && DictOf(["id"], row) == map["id" := "1"];
    assert DictOf(header, row) == map["id" := "1", "a\r\nb" := "2"];
    assert RowsFrom(header, []) == Ok([]);
    var dict := DictOf(header, row);
    assert RowsFrom(header, [row]) == Ok([dict] + []) && [dict] + [] == [dict];
    assert Records(CutLedger()) == [header, row];
  }

  /** A row added to this ledger costs the row already there its value: the second column is gone. */
  lemma CutHeaderLosesAColumn()
    ensures var raw, row, name := CutLedger(), map["id" := "9"], "a\r\nb";
      && Upserted(raw, row).Ok? && HeaderFor(raw) == Some(["id", "a"])
      && ReadRows(raw).Ok? && |ReadRows(raw).value| == 1 && Get(ReadRows(raw).value[0], name) == "2"
      && var after := ReadRows(Upserted(raw, row).value.0);
         after.Ok? && |after.value| == 2 && Get(after.value[0], name) == ""
  {
    hide Blank, HeaderFor, ReadRows, Written, Shown;
    var raw, row, name := CutLedger(), map["id" := "9"], "a\r\nb";
    CutHeader();
    CutRow();
    var header, rows := ["id", "a"], ReadRows(raw).value;
    assert FindId(rows, "9") == 1;
    var rows1 := UpsertedRows(header, rows, row).0;
    WrittenReads(raw, header, rows1);
    ShownIs(header, rows1[0]);
    assert name !in header by {
      assert |name| == 4;
    }
  }
}
