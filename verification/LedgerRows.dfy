/** What `ledger.py` makes of a file it did not write: when it refuses one, and where each field goes. */
module LedgerRows {
  import opened Wrappers
  import opened CsvLine
  import opened CsvTable
  import opened Ledger
  import opened LedgerHeaders

  // ---------------------------------------------------------------------------
  // Refusals
  // ---------------------------------------------------------------------------

  /** Some record after the first has more fields than it. */
  ghost predicate HasLongRow(raw: string)
  {
    var records := Records(raw);
    exists k :: 1 <= k < |records| && |records[k]| > |records[0]|
  }

  lemma {:induction false} RowsFromIff(header: seq<string>, records: seq<seq<string>>)
    ensures RowsFrom(header, records).Err? <==> exists k :: 0 <= k < |records| && |records[k]| > |header|
    ensures RowsFrom(header, records).Err? ==> RowsFrom(header, records) == Err(LongRow)
    decreases |records|
  {
    hide DictOf;
    if records != [] {
      RowsFromIff(header, records[1..]);
      if k :| 0 <= k < |records[1..]| && |records[1..][k]| > |header| {
        assert records[k + 1] == records[1..][k];
      }
      if k :| 0 < k < |records| && |records[k]| > |header| {
        assert records[1..][k - 1] == records[k];
      }
    }
  }

  /** Reading refuses a file, with one error, if and only if it is not blank and has such a record. */
  lemma ReadRefusesIff(raw: string)
    ensures ReadRows(raw).Err? <==> !Blank(raw) && HasLongRow(raw)
    ensures ReadRows(raw).Err? ==> ReadRows(raw) == Err(LongRow)
  {
    hide Blank, Records, RowsFrom;
    var records := Records(raw);
    if records != [] {
      RowsFromIff(records[0], records[1..]);
      if k :| 1 <= k < |records| && |records[k]| > |records[0]| {
        assert records[1..][k - 1] == records[k];
      }
      if k :| 0 <= k < |records[1..]| && |records[1..][k]| > |records[0]| {
        assert records[k + 1] == records[1..][k];
      }
    }
  }

  lemma {:induction false} OnlyBlankRecords(s: string)
    ensures AllNewlines(s) <==> forall k :: 0 <= k < |Records(s)| ==> Records(s)[k] == []
    decreases |s|
  {
    hide Record;
    if s != "" {
      if IsNewline(s[0]) {
        var rest := AfterBreak(s);
        OnlyBlankRecords(rest);
        assert AllNewlines(s) <==> AllNewlines(rest) by {
          assert s == s[..|s| - |rest|] + rest && forall c :: c in s[..|s| - |rest|] ==> IsNewline(c);
        }
        assert forall k :: 0 <= k < |Records(rest)| ==> Records(s)[k + 1] == Records(rest)[k];
        assert forall k :: 0 < k < |Records(s)| ==> Records(s)[k] == Records(rest)[k - 1];
      } else {
        assert s[0] in s && Records(s)[0] != [];
      }
    }
  }

  /** A second record that is no blank line. */
  ghost predicate HasSecond(line: string)
  {
    exists k :: 1 <= k < |Records(line)| && Records(line)[k] != []
  }

  function FirstOf(line: string): seq<string>
  {
    if Records(line) == [] then [] else Records(line)[0]
  }

  lemma SecondOfRest(line: string)
    requires line != "" && !IsNewline(line[0])
    ensures HasSecond(line) <==> !AllNewlines(Record(line).1)
    ensures FirstOf(line) == Record(line).0
  {
    hide Record, AllNewlines;
    var (fields, rest) := Record(line);
    OnlyBlankRecords(rest);
    assert Records(line) == [fields] + Records(rest);
    if HasSecond(line) {
      var k :| 1 <= k < |Records(line)| && Records(line)[k] != [];
      assert Records(rest)[k - 1] != [];
    }
    if !AllNewlines(rest) {
      var k :| 0 <= k < |Records(rest)| && Records(rest)[k] != [];
      assert Records(line)[k + 1] != [];
    }
  }

  lemma SecondOfBlank(line: string)
    requires line == "" || IsNewline(line[0])
    ensures HasSecond(line) <==> !AllNewlines(line)
    ensures FirstOf(line) == []
  {
    hide AllNewlines;
    OnlyBlankRecords(line);
    if line != "" {
      assert Records(line)[0] == [];
    }
  }

  /** A file's header is refused if and only if what stands before its first CRLF has a second record, and is
    * the first one otherwise. */
  lemma HeaderRefusedIff(raw: string)
    requires !Blank(raw)
    ensures var line := Lines(raw, true)[0];
      && (HeaderFor(raw).None? <==> HasSecond(line))
      && (HeaderFor(raw).Some? ==> HeaderFor(raw).value == FirstOf(line))
  {
    hide Blank, Lines, Record, HasSecond, FirstOf;
    var line := Lines(raw, true)[0];
    if line == "" || IsNewline(line[0]) {
      SecondOfBlank(line);
    } else {
      SecondOfRest(line);
    }
  }

  /** An upsert is refused in four cases and no other, asked for in this order. */
  lemma UpsertRefusesIff(raw: string, row: Dict)
    ensures Upserted(raw, row)
         == if "id" !in row || row["id"] == "" then Err(NoId)
            else if exists c :: c in row && c !in Canonical() then Err(UnknownColumn)
            else if HeaderFor(raw).None? then Err(BadHeader)
            else if !Blank(raw) && HasLongRow(raw) then Err(LongRow)
            else Upserted(raw, row)
    ensures (|| "id" !in row || row["id"] == "" || (exists c :: c in row && c !in Canonical())
             || HeaderFor(raw).None? || (!Blank(raw) && HasLongRow(raw)))
       <==> Upserted(raw, row).Err?
  {
    hide Blank, HasLongRow, HeaderFor, ReadRows, Canonical, Written;
    ReadRefusesIff(raw);
  }

  /** Adding columns is refused for an unknown one, for a header that cannot be read, and, when there is
    * something to add, for a long row; without columns nothing is even read. */
  lemma AddColumnsRefusesIff(raw: string, columns: seq<string>)
    ensures WithColumns(raw, columns).Err?
       <==> columns != []
            && (|| (exists c :: c in columns && c !in Canonical())
                || HeaderFor(raw).None?
                || ((exists c :: c in columns && c !in HeaderFor(raw).value) && !Blank(raw) && HasLongRow(raw)))
  {
    hide Blank, HasLongRow, HeaderFor, ReadRows, Canonical, Written;
    ReadRefusesIff(raw);
    if HeaderFor(raw).Some? {
      var header := HeaderFor(raw).value;
      var added := Missing(columns, header);
      if c :| c in columns && c !in header {
        assert c in added;
      }
      if added != [] {
        assert added[0] in added;
      }
    }
  }

  // ---------------------------------------------------------------------------
  // Where the fields go
  // ---------------------------------------------------------------------------

  /** Blank lines are passed over. */
  function NonEmpty(records: seq<seq<string>>): seq<seq<string>>
  {
    if records == [] then [] else (if records[0] == [] then [] else [records[0]]) + NonEmpty(records[1..])
  }

  lemma {:induction false} DictHolds(header: seq<string>, fields: seq<string>, j: nat)
    requires j < |header| && forall i :: j < i < |header| ==> header[i] != header[j]
    ensures var d := DictOf(header, fields);
      header[j] in d && d[header[j]] == if j < |fields| then fields[j] else ""
    decreases |header|
  {
    var n := |header| - 1;
    if j < n {
      assert forall i :: j < i < n ==> header[..n][i] == header[i];
      DictHolds(header[..n], fields, j);
    }
  }

  lemma {:induction false} RowsFromAre(header: seq<string>, records: seq<seq<string>>)
    requires RowsFrom(header, records).Ok?
    ensures var rows, kept := RowsFrom(header, records).value, NonEmpty(records);
      |rows| == |kept| && forall k :: 0 <= k < |kept| ==> rows[k] == DictOf(header, kept[k]) && |kept[k]| <= |header|
    decreases |records|
  {
    hide DictOf;
    if records != [] {
      RowsFromAre(header, records[1..]);
    }
  }

  /** A file that is read has one row for each of its records after the first but the empty ones, in order. Each
    * field stands under its column, and is empty where the record is too short; of columns with one name the
    * last counts. */
  lemma ReadRowsAre(raw: string)
    requires ReadRows(raw).Ok? && !Blank(raw)
    ensures Records(raw) != []
    ensures var header, kept, rows := Records(raw)[0], NonEmpty(Records(raw)[1..]), ReadRows(raw).value;
      && |rows| == |kept|
      && (forall k, c :: 0 <= k < |rows| && c in rows[k] ==> c in header)
      && (forall k :: 0 <= k < |rows| ==> |kept[k]| <= |header|)
      && forall k, j :: 0 <= k < |rows| && 0 <= j < |header| && (forall i :: j < i < |header| ==> header[i] != header[j]) ==>
           header[j] in rows[k] && rows[k][header[j]] == if j < |kept[k]| then kept[k][j] else ""
  {
    hide Blank, RowsFrom, DictOf, NonEmpty;
    assert Records(raw) != [] by { NotBlankHasRecords(raw); }
    hide Records;
    var header, kept, rows := Records(raw)[0], NonEmpty(Records(raw)[1..]), ReadRows(raw).value;
    RowsFromAre(header, Records(raw)[1..]);
    forall k | 0 <= k < |rows|
      ensures forall c :: c in rows[k] ==> c in header
    {
      DictKeys(header, kept[k]);
    }
    forall k, j | 0 <= k < |rows| && 0 <= j < |header| && forall i :: j < i < |header| ==> header[i] != header[j]
      ensures header[j] in rows[k] && rows[k][header[j]] == if j < |kept[k]| then kept[k][j] else ""
    {
      DictHolds(header, kept[k], j);
    }
  }

  lemma NotBlankHasRecords(raw: string)
    requires !Blank(raw)
    ensures Records(raw) != []
  {
    assert raw != "";
  }

  /** So with distinct names no field of the file is lost. */
  lemma NoFieldIsLost(raw: string, k: nat, j: nat)
    requires ReadRows(raw).Ok? && !Blank(raw) && Records(raw) != []
    requires forall i, l :: 0 <= i < l < |Records(raw)[0]| ==> Records(raw)[0][i] != Records(raw)[0][l]
    requires var kept := NonEmpty(Records(raw)[1..]); k < |kept| && j < |kept[k]|
    ensures var header, field, rows := Records(raw)[0], NonEmpty(Records(raw)[1..])[k][j], ReadRows(raw).value;
      j < |header| && k < |rows| && header[j] in rows[k] && rows[k][header[j]] == field
  {
    hide Blank, RowsFrom, DictOf, NonEmpty, ReadRows, Records;
    ReadRowsAre(raw);
    assert |NonEmpty(Records(raw)[1..])[k]| <= |Records(raw)[0]|;
  }
}
