/** `ledger.py`: the requirement ledger, a CRLF table whose rows are keyed by `id`. */
module Ledger {
  import opened Wrappers
  import opened CsvLine
  import opened CsvTable
  import opened WhiteSpace

  type Dict = map<string, string>

  datatype Error = NoId | UnknownColumn | BadHeader | LongRow

  function Canonical(): seq<string>
  {
    ["id", "area", "requirement", "milestone", "status", "evidence", "notes", "verified_at", "gates"]
  }

  // ---------------------------------------------------------------------------
  // Reading
  // ---------------------------------------------------------------------------

  /** Nothing but white space. */
  predicate Blank(raw: string)
  {
    forall c :: c in raw ==> IsSpace(c)
  }

  predicate AllNewlines(s: string)
  {
    forall c :: c in s ==> IsNewline(c)
  }

  /** One line given to the reader by itself: after a line end inside it only line ends may follow. */
  function LoneRecord(line: string): Option<seq<string>>
  {
    if line == "" then Some([])
    else if IsNewline(line[0]) then if AllNewlines(line) then Some([]) else None
    else
      var (fields, rest) := Record(line);
      if AllNewlines(rest) then Some(fields) else None
  }

  /** `_header_for`: what stands before the first CRLF, read as a record. */
  function HeaderFor(raw: string): Option<seq<string>>
  {
    if Blank(raw) then Some(Canonical()) else LoneRecord(Lines(raw, true)[0])
  }

  function Cell(fields: seq<string>, i: nat): string
  {
    if i < |fields| then fields[i] else ""
  }

  /** A row's fields by column: missing ones are empty, and of two columns of one name the later counts. */
  function DictOf(header: seq<string>, fields: seq<string>): Dict
  {
    if header == [] then map[]
    else DictOf(header[..|header| - 1], fields)[header[|header| - 1] := Cell(fields, |header| - 1)]
  }

  /** Blank lines are no rows; a row longer than the header is an error. */
  function RowsFrom(header: seq<string>, records: seq<seq<string>>): Result<seq<Dict>, Error>
    decreases |records|
  {
    if records == [] then Ok([])
    else if records[0] == [] then RowsFrom(header, records[1..])
    else if |records[0]| > |header| then Err(LongRow)
    else
      match RowsFrom(header, records[1..])
      case Err(e) => Err(e)
      case Ok(rows) => Ok([DictOf(header, records[0])] + rows)
  }

  function ReadRows(raw: string): Result<seq<Dict>, Error>
  {
    var records := Records(raw);
    if Blank(raw) || records == [] then Ok([]) else RowsFrom(records[0], records[1..])
  }

  // ---------------------------------------------------------------------------
  // Writing
  // ---------------------------------------------------------------------------

  function Get(d: Dict, column: string): string
  {
    if column in d then d[column] else ""
  }

  function Cells(header: seq<string>, d: Dict): (cells: seq<string>)
    ensures |cells| == |header| && forall k :: 0 <= k < |header| ==> cells[k] == Get(d, header[k])
  {
    if header == [] then [] else [Get(d, header[0])] + Cells(header[1..], d)
  }

  function AllCells(header: seq<string>, rows: seq<Dict>): (records: seq<seq<string>>)
    ensures |records| == |rows| && forall k :: 0 <= k < |rows| ==> records[k] == Cells(header, rows[k])
  {
    if rows == [] then [] else [Cells(header, rows[0])] + AllCells(header, rows[1..])
  }

  /** `write_rows`. */
  function Written(header: seq<string>, rows: seq<Dict>): string
  {
    WriteAll([header] + AllCells(header, rows))
  }

  /** The part of a row the header has columns for. */
  function Shown(header: seq<string>, d: Dict): Dict
  {
    DictOf(header, Cells(header, d))
  }

  function AllShown(header: seq<string>, rows: seq<Dict>): (shown: seq<Dict>)
    ensures |shown| == |rows| && forall k :: 0 <= k < |rows| ==> shown[k] == Shown(header, rows[k])
  {
    if rows == [] then [] else [Shown(header, rows[0])] + AllShown(header, rows[1..])
  }

  // ---------------------------------------------------------------------------
  // Reading undoes writing
  // ---------------------------------------------------------------------------

  lemma {:induction false} ShownEntries(header: seq<string>, n: nat, d: Dict)
    requires n <= |header|
    ensures var shown := DictOf(header[..n], Cells(header, d));
      forall c :: (c in shown <==> c in header[..n]) && (c in shown ==> shown[c] == Get(d, c))
  {
    hide Cells, Get;
    if n > 0 {
      ShownEntries(header, n - 1, d);
      var last := header[n - 1];
      assert header[..n][..n - 1] == header[..n - 1];
      assert header[..n] == header[..n - 1] + [last];
      assert DictOf(header[..n], Cells(header, d)) == DictOf(header[..n - 1], Cells(header, d))[last := Get(d, last)];
    }
  }

  /** A shown row has exactly the header's columns, each with the row's value or none. */
  lemma ShownIs(header: seq<string>, d: Dict)
    ensures forall c :: (c in Shown(header, d) <==> c in header) && (c in header ==> Shown(header, d)[c] == Get(d, c))
  {
    ShownEntries(header, |header|, d);
    assert header[..|header|] == header;
  }

  lemma {:induction false} RowsFromCells(header: seq<string>, rows: seq<Dict>)
    requires header != []
    ensures RowsFrom(header, AllCells(header, rows)) == Ok(AllShown(header, rows))
  {
    hide DictOf, Cells;
    if rows != [] {
      RowsFromCells(header, rows[1..]);
      var records := AllCells(header, rows);
      assert records[1..] == AllCells(header, rows[1..]);
      assert records[0] == Cells(header, rows[0]);
    }
  }

  lemma RowsReadBack(header: seq<string>, rows: seq<Dict>)
    requires header != [] && !Blank(Written(header, rows))
    ensures ReadRows(Written(header, rows)) == Ok(AllShown(header, rows))
  {
    hide Records, WriteAll, RowsFrom, Blank, AllCells;
    ReadBack([header] + AllCells(header, rows));
    RowsFromCells(header, rows);
    assert ([header] + AllCells(header, rows))[1..] == AllCells(header, rows);
  }

  ghost predicate NoCrlf(header: seq<string>)
  {
    forall name :: name in header ==> !HasBreak(name, true)
  }

  lemma LoneRecordReads(header: seq<string>)
    requires header != []
    ensures LoneRecord(RecordText(header)) == Some(header)
  {
    hide JoinFields, Record;
    if header == [""] {
      LoneEmptyField();
    } else {
      JoinedStart(header);
      RecordAtEnd(header);
    }
  }

  lemma LoneEmptyField()
    ensures LoneRecord("\"\"") == Some([""])
  {
    assert "\"\""[1..] == "\"" && "\""[1..] == "";
    assert Field("\"", "", Quoted) == Piece("", true, "");
    assert Field("\"\"", "", Start) == Piece("", true, "");
  }

  lemma HeaderReadBack(header: seq<string>, rows: seq<Dict>)
    requires header != [] && NoCrlf(header) && !Blank(Written(header, rows))
    ensures HeaderFor(Written(header, rows)) == Some(header)
  {
    hide LoneRecord, JoinFields, WriteAll, Lines, HasBreak, Blank;
    var line := RecordText(header);
    var records := [header] + AllCells(header, rows);
    assert records[0] == header;
    WrittenStarts(records);
    assert !HasBreak(line, true) by {
      JoinNoCrlf(header);
      TwoQuotes();
    }
    LinesOfJoined(line, WriteAll(records[1..]), true);
    LineWithoutBreak(line, true);
    LoneRecordReads(header);
  }

  lemma TwoQuotes()
    ensures !HasBreak("\"\"", true)
  {
    assert "\"\""[1..] == "\"" && "\""[1..] == "";
  }

  lemma WrittenStarts(records: seq<seq<string>>)
    requires records != []
    ensures WriteAll(records)
         == RecordText(records[0]) + Break(true) + WriteAll(records[1..])
  {
  }

  // ---------------------------------------------------------------------------
  // Headers that come from a file
  // ---------------------------------------------------------------------------

  lemma CanonicalIsPlain()
    ensures NoCrlf(Canonical())
  {
    forall name | name in Canonical()
      ensures !HasBreak(name, true)
    {
      assert '\n' !in name;
      NoNewlineNoCrlf(name);
    }
  }

  lemma HeaderHasNoCrlf(raw: string)
    requires HeaderFor(raw).Some?
    ensures NoCrlf(HeaderFor(raw).value)
  {
    hide Lines, Record, Canonical, HasBreak;
    CanonicalIsPlain();
    if !Blank(raw) {
      LinesHaveNoBreak(raw, true);
      RecordNoCrlf(Lines(raw, true)[0]);
    }
  }

  lemma {:induction false} InDoubled(value: string, c: char)
    requires c in value
    ensures c in Doubled(value)
  {
    if value[0] != c {
      InDoubled(value[1..], c);
    }
  }

  lemma {:induction false} InJoined(fields: seq<string>, name: string, c: char)
    requires name in fields && c in name
    ensures c in JoinFields(fields)
  {
    if name == fields[0] {
      InDoubled(name, c);
      assert c in Quote(name);
    } else {
      InJoined(fields[1..], name, c);
    }
  }

  lemma CanonicalIsVisible(name: string)
    requires name in Canonical()
    ensures name != "" && !IsSpace(name[0]) && name[0] != '"'
  {
  }

  /** A ledger with any of the canonical columns is no blank file. */
  lemma ColumnMakesItVisible(header: seq<string>, name: string, rows: seq<Dict>)
    requires name in header && name in Canonical()
    ensures !Blank(Written(header, rows))
  {
    hide JoinFields, WriteAll, Canonical;
    CanonicalIsVisible(name);
    InJoined(header, name, name[0]);
    var records := [header] + AllCells(header, rows);
    assert records[0] == header && header != [""];
    WrittenStarts(records);
    assert name[0] in Written(header, rows);
  }

  lemma IdMakesItVisible(header: seq<string>, rows: seq<Dict>)
    requires "id" in header
    ensures !Blank(Written(header, rows))
  {
    hide Written, Blank;
    assert "id" in Canonical();
    ColumnMakesItVisible(header, "id", rows);
  }

  // ---------------------------------------------------------------------------
  // `upsert_row`
  // ---------------------------------------------------------------------------

  predicate Known(row: Dict)
  {
    forall c :: c in row ==> c in Canonical()
  }

  /** The first row with this id. */
  function FindId(rows: seq<Dict>, id: string): (i: nat)
    ensures i <= |rows| && (i < |rows| ==> "id" in rows[i] && rows[i]["id"] == id)
    ensures forall k :: 0 <= k < i ==> !("id" in rows[k] && rows[k]["id"] == id)
  {
    if rows == [] || ("id" in rows[0] && rows[0]["id"] == id) then 0 else 1 + FindId(rows[1..], id)
  }

  /** The rows afterwards, and whether one was replaced. */
  function UpsertedRows(header: seq<string>, rows: seq<Dict>, row: Dict): (seq<Dict>, bool)
    requires "id" in row
  {
    var i := FindId(rows, row["id"]);
    if i < |rows| then (rows[i := rows[i] + row], true) else (rows + [Shown(header, row)], false)
  }

  function Upserted(raw: string, row: Dict): Result<(string, bool), Error>
  {
    if "id" !in row || row["id"] == "" then Err(NoId)
    else if !Known(row) then Err(UnknownColumn)
    else
      match HeaderFor(raw)
      case None => Err(BadHeader)
      case Some(header) =>
        match ReadRows(raw)
        case Err(e) => Err(e)
        case Ok(rows) =>
          var (rows', replaced) := UpsertedRows(header, rows, row);
          Ok((Written(header, rows'), replaced))
  }

  /** After an upsert into a ledger that has the `id` column: the header is what it was; the row with that
    * id (the first, if there are several; a new last one, if there is none) has the new values where
    * there are any and the old ones elsewhere; and every other row has what it had, in its place. All this
    * under the columns of the header; `LedgerHeaders` says what becomes of values under others. */
  lemma UpsertChangesOneRow(raw: string, row: Dict)
    requires Upserted(raw, row).Ok? && "id" in HeaderFor(raw).value
    ensures var (raw', replaced) := Upserted(raw, row).value;
      var header, rows := HeaderFor(raw).value, ReadRows(raw).value;
      var i := FindId(rows, row["id"]);
      && HeaderFor(raw') == Some(header) && (replaced <==> i < |rows|)
      && ReadRows(raw').Ok?
      && var rows' := ReadRows(raw').value;
         && |rows'| == |rows| + (if replaced then 0 else 1)
         && (forall k, c :: 0 <= k < |rows| && k != i && c in header ==> Get(rows'[k], c) == Get(rows[k], c))
         && (forall c :: c in header ==>
               Get(rows'[i], c) == if c in row then row[c] else if replaced then Get(rows[i], c) else "")
  {
    hide Blank, HeaderFor, ReadRows, Written, Shown, Known;
    var header, rows := HeaderFor(raw).value, ReadRows(raw).value;
    var rows1 := UpsertedRows(header, rows, row).0;
    WrittenReads(raw, header, rows1);
    forall k | 0 <= k < |rows1|
      ensures forall c :: c in header ==> Get(Shown(header, rows1[k]), c) == Get(rows1[k], c)
    {
      ShownIs(header, rows1[k]);
    }
    ShownIs(header, row);
  }

  /** A ledger written under the header of a file with the `id` column reads back. */
  lemma WrittenReads(raw: string, header: seq<string>, rows: seq<Dict>)
    requires HeaderFor(raw) == Some(header) && "id" in header
    ensures HeaderFor(Written(header, rows)) == Some(header)
    ensures ReadRows(Written(header, rows)) == Ok(AllShown(header, rows))
  {
    hide Blank, HeaderFor, ReadRows, Written;
    HeaderHasNoCrlf(raw);
    IdMakesItVisible(header, rows);
    HeaderReadBack(header, rows);
    RowsReadBack(header, rows);
  }

  lemma ShownTwice(header: seq<string>, d: Dict)
    ensures Shown(header, Shown(header, d)) == Shown(header, d)
  {
    hide DictOf, Cells;
    ShownIs(header, d);
    ShownIs(header, Shown(header, d));
  }

  lemma MergedTwice(header: seq<string>, d: Dict, row: Dict)
    ensures Shown(header, Shown(header, d + row) + row) == Shown(header, d + row)
    ensures Shown(header, Shown(header, row) + row) == Shown(header, row)
  {
    hide DictOf, Cells;
    ShownIs(header, row);
    ShownIs(header, Shown(header, row) + row);
    ShownIs(header, d + row);
    ShownIs(header, Shown(header, d + row) + row);
  }

  /** Rows that show the same are written the same. */
  lemma WrittenSame(header: seq<string>, xs: seq<Dict>, ys: seq<Dict>)
    requires |xs| == |ys| && forall k :: 0 <= k < |xs| ==> Shown(header, xs[k]) == Shown(header, ys[k])
    ensures Written(header, xs) == Written(header, ys)
  {
    hide Cells, DictOf, WriteAll;
    forall k | 0 <= k < |xs|
      ensures Cells(header, xs[k]) == Cells(header, ys[k])
    {
      ShownIs(header, xs[k]);
      ShownIs(header, ys[k]);
      SameCells(header, xs[k], ys[k]);
    }
    assert AllCells(header, xs) == AllCells(header, ys);
  }

  lemma SameCells(header: seq<string>, x: Dict, y: Dict)
    requires forall c :: c in header ==> Get(x, c) == Get(y, c)
    ensures Cells(header, x) == Cells(header, y)
  {
    var xs, ys := Cells(header, x), Cells(header, y);
    assert forall k :: 0 <= k < |header| ==> xs[k] == ys[k];
  }

  /** Upserting the same row twice gives the same bytes as once, in any ledger with an `id` column. */
  lemma UpsertTwice(raw: string, row: Dict)
    requires Upserted(raw, row).Ok? && "id" in HeaderFor(raw).value
    ensures var once := Upserted(raw, row).value.0;
      Upserted(once, row) == Ok((once, true))
  {
    hide Blank, HeaderFor, ReadRows, Written, Shown, Known;
    var header, rows := HeaderFor(raw).value, ReadRows(raw).value;
    var i := FindId(rows, row["id"]);
    var rows1 := UpsertedRows(header, rows, row).0;
    var once := Written(header, rows1);
    WrittenReads(raw, header, rows1);
    var shown := AllShown(header, rows1);
    SameIdFound(header, rows, row);
    var merged := shown[i := shown[i] + row];
    forall k | 0 <= k < |rows1|
      ensures Shown(header, merged[k]) == Shown(header, rows1[k])
    {
      if k == i {
        if i < |rows| {
          MergedTwice(header, rows[i], row);
        } else {
          MergedTwice(header, row, row);
          ShownTwice(header, row);
        }
      } else {
        ShownTwice(header, rows1[k]);
      }
    }
    WrittenSame(header, merged, rows1);
  }

  lemma SameIdFound(header: seq<string>, rows: seq<Dict>, row: Dict)
    requires "id" in row && row["id"] != "" && "id" in header
    ensures var shown := AllShown(header, UpsertedRows(header, rows, row).0);
      FindId(shown, row["id"]) == FindId(rows, row["id"]) < |shown|
  {
    hide Shown;
    var i, id := FindId(rows, row["id"]), row["id"];
    var rows1 := UpsertedRows(header, rows, row).0;
    var shown := AllShown(header, rows1);
    forall k | 0 <= k < |rows1|
      ensures "id" in shown[k] && shown[k]["id"] == Get(rows1[k], "id")
    {
      ShownIs(header, rows1[k]);
    }
    ShownIs(header, row);
    assert Get(rows1[i], "id") == id;
    assert forall k :: 0 <= k < i ==> rows1[k] == rows[k];
  }

  /** Without the column nothing is ever found: each upsert writes one more row. */
  lemma WithoutIdItGrows(header: seq<string>, rows: seq<Dict>, row: Dict)
    requires header != [] && NoCrlf(header) && "id" !in header && !Blank(Written(header, rows))
    requires "id" in row && row["id"] != "" && Known(row)
    ensures Upserted(Written(header, rows), row) == Ok((Written(header, AllShown(header, rows) + [Shown(header, row)]), false))
    ensures Written(header, AllShown(header, rows) + [Shown(header, row)]) != Written(header, rows)
  {
    hide Blank, HeaderFor, ReadRows, Shown, Known;
    HeaderReadBack(header, rows);
    RowsReadBack(header, rows);
    var shown := AllShown(header, rows);
    forall k | 0 <= k < |shown|
      ensures "id" !in shown[k]
    {
      ShownIs(header, rows[k]);
    }
    assert FindId(shown, row["id"]) == |shown|;
    GrowsOnce(header, rows, row);
  }

  lemma {:induction false} NothingShows(rows: seq<Dict>)
    ensures Blank(WriteAll(AllCells([], rows)))
  {
    if rows != [] {
      NothingShows(rows[1..]);
      assert AllCells([], rows)[1..] == AllCells([], rows[1..]);
      assert JoinFields(Cells([], rows[0])) == "";
    }
  }

  /** Without columns only line ends are written. */
  lemma NoColumnsIsBlank(rows: seq<Dict>)
    ensures Blank(Written([], rows))
  {
    hide Blank, WriteAll, AllCells;
    NothingShows(rows);
    var records := [[]] + AllCells([], rows);
    assert records[1..] == AllCells([], rows);
    LineEndsAreBlank(records);
  }

  lemma LineEndsAreBlank(records: seq<seq<string>>)
    requires records != [] && records[0] == [] && Blank(WriteAll(records[1..]))
    ensures Blank(WriteAll(records))
  {
    NothingJoined([]);
    assert WriteRecord([]) == "\r\n";
  }

  /** A blank file takes the canonical header, and with it becomes visible. */
  lemma BlankIsStarted(raw: string, row: Dict)
    requires Blank(raw) && "id" in row && row["id"] != "" && Known(row)
    ensures Upserted(raw, row).Ok? && Upserted(raw, row).value.0 != raw
  {
    hide Written, Shown, Known, Records;
    assert HeaderFor(raw) == Some(Canonical()) && ReadRows(raw) == Ok([]);
    assert "id" in Canonical();
    IdMakesItVisible(Canonical(), UpsertedRows(Canonical(), [], row).0);
  }

  /** The module's rule that an upsert done twice leaves the bytes of one done once, for every file one
    * succeeds on: it holds exactly when the file's header has the `id` column. */
  lemma UpsertTwiceIff(raw: string, row: Dict)
    requires Upserted(raw, row).Ok?
    ensures var once := Upserted(raw, row).value.0;
      && Upserted(once, row).Ok?
      && (Upserted(once, row).value.0 == once <==> "id" in HeaderFor(raw).value)
  {
    hide Blank, HeaderFor, ReadRows, Written, Shown, Known;
    var header, rows := HeaderFor(raw).value, ReadRows(raw).value;
    var rows1 := UpsertedRows(header, rows, row).0;
    var once := Written(header, rows1);
    if "id" in header {
      UpsertTwice(raw, row);
    } else if Blank(once) {
      BlankIsStarted(once, row);
    } else {
      NoColumnsIsBlank(rows1);
      HeaderHasNoCrlf(raw);
      WithoutIdItGrows(header, rows1, row);
    }
  }

  lemma GrowsOnce(header: seq<string>, rows: seq<Dict>, row: Dict)
    ensures Written(header, AllShown(header, rows) + [Shown(header, row)]) != Written(header, rows)
  {
    hide Shown;
    var more := [header] + AllCells(header, AllShown(header, rows) + [Shown(header, row)]);
    var once := [header] + AllCells(header, rows);
    assert |more| == |once| + 1;
    if WriteAll(more) == WriteAll(once) {
      WriterIsInjective(more, once);
    }
  }

  // ---------------------------------------------------------------------------
  // `add_columns`
  // ---------------------------------------------------------------------------

  function Missing(columns: seq<string>, header: seq<string>): (added: seq<string>)
    ensures forall c :: c in added <==> c in columns && c !in header
  {
    if columns == [] then []
    else if columns[0] in header then Missing(columns[1..], header)
    else [columns[0]] + Missing(columns[1..], header)
  }

  /** `setdefault` for each new column. */
  function Defaulted(d: Dict, added: seq<string>): Dict
    decreases |added|
  {
    if added == [] then d else Defaulted(if added[0] in d then d else d[added[0] := ""], added[1..])
  }

  function AllDefaulted(rows: seq<Dict>, added: seq<string>): (r: seq<Dict>)
    ensures |r| == |rows| && forall k :: 0 <= k < |rows| ==> r[k] == Defaulted(rows[k], added)
  {
    if rows == [] then [] else [Defaulted(rows[0], added)] + AllDefaulted(rows[1..], added)
  }

  function WithColumns(raw: string, columns: seq<string>): Result<(string, bool), Error>
  {
    if columns == [] then Ok((raw, false))
    else if exists c :: c in columns && c !in Canonical() then Err(UnknownColumn)
    else
      match HeaderFor(raw)
      case None => Err(BadHeader)
      case Some(header) =>
        var added := Missing(columns, header);
        if added == [] then Ok((raw, false))
        else
          match ReadRows(raw)
          case Err(e) => Err(e)
          case Ok(rows) => Ok((Written(header + added, AllDefaulted(rows, added)), true))
  }

  lemma {:induction false} DefaultedIs(d: Dict, added: seq<string>)
    ensures forall c :: Get(Defaulted(d, added), c) == Get(d, c)
    decreases |added|
  {
    if added != [] {
      DefaultedIs(if added[0] in d then d else d[added[0] := ""], added[1..]);
    }
  }

  /** Adding columns changes the header only by appending those that were missing, keeps every row with
    * every value under the header's columns and the new ones (`LedgerHeaders` has the others), and is done
    * once: a second time finds nothing to add. */
  lemma AddColumnsKeepsRows(raw: string, columns: seq<string>)
    requires WithColumns(raw, columns).Ok?
    ensures columns == [] ==> WithColumns(raw, columns) == Ok((raw, false))
    ensures columns != [] ==>
      var (raw', changed) := WithColumns(raw, columns).value;
      && HeaderFor(raw).Some?
      && var header := HeaderFor(raw).value;
         && HeaderFor(raw') == Some(header + Missing(columns, header))
         && (changed <==> Missing(columns, header) != []) && (!changed ==> raw' == raw)
         && WithColumns(raw', columns) == Ok((raw', false))
         && (changed ==> ReadRows(raw).Ok? && ReadRows(raw').Ok? && |ReadRows(raw').value| == |ReadRows(raw).value|)
         && (changed ==> forall k, c :: 0 <= k < |ReadRows(raw).value| && c in header + Missing(columns, header) ==>
               Get(ReadRows(raw').value[k], c) == Get(ReadRows(raw).value[k], c))
  {
    hide Blank, HeaderFor, ReadRows, Written, Canonical, Shown;
    if columns != [] {
      var header := HeaderFor(raw).value;
      var added := Missing(columns, header);
      if added == [] {
        assert header + added == header;
      } else {
        AddedReadsBack(raw, columns);
        NothingMissing(columns, header + added);
      }
    }
  }

  lemma AddedReadsBack(raw: string, columns: seq<string>)
    requires HeaderFor(raw).Some? && ReadRows(raw).Ok? && forall c :: c in columns ==> c in Canonical()
    requires Missing(columns, HeaderFor(raw).value) != []
    ensures var header', rows := HeaderFor(raw).value + Missing(columns, HeaderFor(raw).value), ReadRows(raw).value;
      var raw' := Written(header', AllDefaulted(rows, Missing(columns, HeaderFor(raw).value)));
      && HeaderFor(raw') == Some(header')
      && ReadRows(raw').Ok? && |ReadRows(raw').value| == |rows|
      && forall k, c :: 0 <= k < |rows| && c in header' ==> Get(ReadRows(raw').value[k], c) == Get(rows[k], c)
  {
    hide Blank, HeaderFor, ReadRows, Written, Canonical, Shown;
    var header, rows := HeaderFor(raw).value, ReadRows(raw).value;
    var added := Missing(columns, header);
    var header', rows1 := header + added, AllDefaulted(rows, added);
    HeaderHasNoCrlf(raw);
    AddedIsPlain(columns, header);
    assert NoCrlf(header') && added[0] in header' && added[0] in added;
    ColumnMakesItVisible(header', added[0], rows1);
    HeaderReadBack(header', rows1);
    RowsReadBack(header', rows1);
    forall k, c | 0 <= k < |rows| && c in header'
      ensures Get(AllShown(header', rows1)[k], c) == Get(rows[k], c)
    {
      DefaultedIs(rows[k], added);
      ShownIs(header', rows1[k]);
    }
  }

  lemma {:induction false} NothingMissing(columns: seq<string>, header: seq<string>)
    requires forall c :: c in columns ==> c in header
    ensures Missing(columns, header) == []
  {
    if columns != [] {
      NothingMissing(columns[1..], header);
    }
  }

  lemma AddedIsPlain(columns: seq<string>, header: seq<string>)
    requires forall c :: c in columns ==> c in Canonical()
    ensures NoCrlf(Missing(columns, header))
  {
    hide Canonical, HasBreak;
    CanonicalIsPlain();
  }

  // ---------------------------------------------------------------------------
  // The file
  // ---------------------------------------------------------------------------

  class LedgerFile {
    var text: string

    method Read() returns (r: Result<seq<Dict>, Error>)
      ensures r == ReadRows(text)
    {
      if Blank(text) {
        return Ok([]);
      }
      var records := Records(text);
      if records == [] {
        return Ok([]);
      }
      var header, rest := records[0], records[1..];
      var rows: seq<Dict> := [];
      assert rest[0..] == rest && forall more: seq<Dict> :: rows + more == more;
      for i := 0 to |rest|
        invariant RowsFrom(header, rest)
               == match RowsFrom(header, rest[i..])
                  case Err(e) => Err(e)
                  case Ok(more) => Ok(rows + more)
      {
        assert rest[i..][1..] == rest[i + 1..];
        if rest[i] == [] {
          continue;
        }
        if |rest[i]| > |header| {
          return Err(LongRow);
        }
        ghost var before := rows;
        rows := rows + [DictOf(header, rest[i])];
        forall more: seq<Dict>
          ensures before + ([DictOf(header, rest[i])] + more) == rows + more
        {
        }
      }
      assert rows + [] == rows;
      return Ok(rows);
    }

    method UpsertRow(row: Dict) returns (r: Result<bool, Error>)
      modifies this
      ensures old(Upserted(text, row)).Err? ==> r == Err(old(Upserted(text, row)).error) && text == old(text)
      ensures old(Upserted(text, row)).Ok? ==>
                r == Ok(old(Upserted(text, row)).value.1) && text == old(Upserted(text, row)).value.0
    {
      hide ReadRows, HeaderFor, Written, Shown;
      if "id" !in row || row["id"] == "" {
        return Err(NoId);
      }
      if !Known(row) {
        return Err(UnknownColumn);
      }
      var header := HeaderFor(text);
      if header.None? {
        return Err(BadHeader);
      }
      var read := Read();
      if read.Err? {
        return Err(read.error);
      }
      var rows := read.value;
      for index := 0 to |rows|
        invariant index <= FindId(rows, row["id"])
      {
        if "id" in rows[index] && rows[index]["id"] == row["id"] {
          var merged := rows[index] + row;
          rows := rows[index := merged];
          text := Written(header.value, rows);
          return Ok(true);
        }
      }
      rows := rows + [Shown(header.value, row)];
      text := Written(header.value, rows);
      return Ok(false);
    }

    method AddColumns(columns: seq<string>) returns (r: Result<bool, Error>)
      modifies this
      ensures old(WithColumns(text, columns)).Err? ==> r == Err(old(WithColumns(text, columns)).error) && text == old(text)
      ensures old(WithColumns(text, columns)).Ok? ==>
                r == Ok(old(WithColumns(text, columns)).value.1) && text == old(WithColumns(text, columns)).value.0
    {
      hide ReadRows, HeaderFor, Written, Canonical;
      if columns == [] {
        return Ok(false);
      }
      if exists c :: c in columns && c !in Canonical() {
        return Err(UnknownColumn);
      }
      var header := HeaderFor(text);
      if header.None? {
        return Err(BadHeader);
      }
      var added := Missing(columns, header.value);
      if added == [] {
        return Ok(false);
      }
      var read := Read();
      if read.Err? {
        return Err(read.error);
      }
      var rows := read.value;
      for i := 0 to |rows|
        invariant |rows| == |read.value|
        invariant forall k :: 0 <= k < |rows| ==>
          rows[k] == if k < i then Defaulted(read.value[k], added) else read.value[k]
      {
        var row := rows[i];
        for j := 0 to |added|
          invariant Defaulted(row, added[j..]) == Defaulted(read.value[i], added)
        {
          assert added[j..][1..] == added[j + 1..];
          if added[j] !in row {
            row := row[added[j] := ""];
          }
        }
        rows := rows[i := row];
      }
      assert rows == AllDefaulted(read.value, added);
      text := Written(header.value + added, rows);
      return Ok(true);
    }
  }
}
