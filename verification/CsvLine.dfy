/** The text-level row editor of `update-m45-22-row.py`: split a line, quote a field, edit one row.
  * Quoting follows RFC 4180 section 2: a field holding a comma, a quote or a line break is enclosed
  * in quotes, and a quote inside it is doubled.
  */
module CsvLine {
  // ---------------------------------------------------------------------------
  // Quoting and splitting
  // ---------------------------------------------------------------------------

  predicate NeedsQuotes(c: char)
  {
    c == ',' || c == '"' || c == '\r' || c == '\n'
  }

  predicate Plain(value: string)
  {
    forall c :: c in value ==> !NeedsQuotes(c)
  }

  function Doubled(value: string): string
  {
    if value == "" then ""
    else (if value[0] == '"' then "\"\"" else [value[0]]) + Doubled(value[1..])
  }

  function Quote(value: string): string
  {
    if Plain(value) then value else "\"" + Doubled(value) + "\""
  }

  function JoinFields(fields: seq<string>): string
  {
    if fields == [] then ""
    else if |fields| == 1 then Quote(fields[0])
    else Quote(fields[0]) + "," + JoinFields(fields[1..])
  }

  /** The fields of the text still to come, given the field being collected and the quote state. */
  function Scan(s: string, buf: string, inQuotes: bool): (fields: seq<string>)
    ensures fields != []
    decreases |s|
  {
    if s == "" then [buf]
    else if inQuotes then
      if s[0] == '"' then
        if |s| > 1 && s[1] == '"' then Scan(s[2..], buf + "\"", true) else Scan(s[1..], buf, false)
      else Scan(s[1..], buf + [s[0]], true)
    else if s[0] == '"' then Scan(s[1..], buf, true)
    else if s[0] == ',' then [buf] + Scan(s[1..], "", false)
    else Scan(s[1..], buf + [s[0]], false)
  }

  function Split(line: string): seq<string>
  {
    Scan(line, "", false)
  }

  method SplitFields(line: string) returns (fields: seq<string>)
    ensures fields == Split(line)
  {
    var buf, inQuotes, i := "", false, 0;
    fields := [];
    while i < |line|
      invariant i <= |line|
      invariant Split(line) == fields + Scan(line[i..], buf, inQuotes)
    {
      var ch := line[i];
      assert line[i..][1..] == line[i + 1..];
      assert i + 1 < |line| ==> line[i..][1] == line[i + 1] && line[i..][2..] == line[i + 2..];
      if inQuotes {
        if ch == '"' {
          if i + 1 < |line| && line[i + 1] == '"' {
            buf := buf + "\"";
            i := i + 1;
          } else {
            inQuotes := false;
          }
        } else {
          buf := buf + [ch];
        }
      } else if ch == '"' {
        inQuotes := true;
      } else if ch == ',' {
        ghost var after := Scan(line[i + 1..], "", false);
        assert fields + ([buf] + after) == (fields + [buf]) + after;
        fields := fields + [buf];
        buf := "";
      } else {
        buf := buf + [ch];
      }
      i := i + 1;
    }
    fields := fields + [buf];
  }

  // ---------------------------------------------------------------------------
  // Splitting undoes joining
  // ---------------------------------------------------------------------------

  /** Doubled text inside quotes is collected as the value it spells. */
  lemma {:induction false} ScanDoubled(value: string, buf: string, rest: string)
    requires rest == "" || rest[0] != '"'
    ensures Scan(Doubled(value) + "\"" + rest, buf, true) == Scan(rest, buf + value, false)
    decreases |value|
  {
    var s := Doubled(value) + "\"" + rest;
    if value == "" {
      assert s[1..] == rest && buf + value == buf;
    } else {
      ScanDoubled(value[1..], buf + [value[0]], rest);
      assert buf + [value[0]] + value[1..] == buf + value;
      var n := if value[0] == '"' then 2 else 1;
      assert s[n..] == Doubled(value[1..]) + "\"" + rest;
    }
  }

  lemma {:induction false} ScanPlain(value: string, buf: string, rest: string)
    requires Plain(value)
    ensures Scan(value + rest, buf, false) == Scan(rest, buf + value, false)
    decreases |value|
  {
    if value == "" {
      assert value + rest == rest && buf + value == buf;
    } else {
      assert value[0] in value;
      ScanPlain(value[1..], buf + [value[0]], rest);
      assert buf + [value[0]] + value[1..] == buf + value;
      assert (value + rest)[1..] == value[1..] + rest;
    }
  }

  lemma ScanOpening(inside: string)
    ensures Scan("\"" + inside, "", false) == Scan(inside, "", true)
  {
    assert ("\"" + inside)[1..] == inside;
  }

  lemma ScanQuoted(value: string, rest: string)
    requires rest == "" || rest[0] == ','
    ensures Scan(Quote(value) + rest, "", false) == Scan(rest, value, false)
  {
    assert "" + value == value;
    if Plain(value) {
      ScanPlain(value, "", rest);
    } else {
      hide Doubled, Plain;
      var inside := Doubled(value) + "\"" + rest;
      assert Quote(value) + rest == "\"" + inside;
      ScanOpening(inside);
      ScanDoubled(value, "", rest);
    }
  }

  lemma ScanStops(s: string, buf: string)
    ensures Scan("", buf, false) == [buf]
    ensures Scan("," + s, buf, false) == [buf] + Scan(s, "", false)
  {
    assert ("," + s)[1..] == s;
  }

  /** Splitting the comma-join of quoted fields gives the fields, whatever characters they hold. */
  lemma {:induction false} SplitJoin(fields: seq<string>)
    requires fields != []
    ensures Split(JoinFields(fields)) == fields
  {
    hide Scan, Quote;
    if |fields| == 1 {
      ScanQuoted(fields[0], "");
      ScanStops("", fields[0]);
      assert Quote(fields[0]) + "" == Quote(fields[0]);
    } else {
      var s := JoinFields(fields[1..]);
      ScanQuoted(fields[0], "," + s);
      ScanStops(s, fields[0]);
      SplitJoin(fields[1..]);
      assert JoinFields(fields) == Quote(fields[0]) + ("," + s);
    }
  }

  lemma JoinPlain(value: string, rest: seq<string>)
    requires Plain(value)
    ensures JoinFields([value]) == value
    ensures rest != [] ==> JoinFields([value] + rest) == value + "," + JoinFields(rest)
  {
    assert ([value] + rest)[1..] == rest;
  }

  lemma PlainSnoc(buf: string, c: char)
    requires Plain(buf) && !NeedsQuotes(c)
    ensures Plain(buf + [c])
  {
  }

  predicate Unquoted(s: string)
  {
    forall c :: c in s ==> c != '"' && c != '\r' && c != '\n'
  }

  lemma UnquotedTail(s: string)
    requires s != "" && Unquoted(s)
    ensures Unquoted(s[1..]) && s[0] != '"' && (s[0] != ',' ==> !NeedsQuotes(s[0]))
  {
    assert s[0] in s && forall c :: c in s[1..] ==> c in s;
  }

  lemma {:induction false} ScanUnquoted(s: string, buf: string)
    requires Unquoted(s) && Plain(buf)
    ensures JoinFields(Scan(s, buf, false)) == buf + s
    decreases |s|
  {
    hide JoinFields, Plain, Unquoted, NeedsQuotes;
    if s == "" {
      JoinPlain(buf, []);
      assert buf + s == buf;
    } else {
      UnquotedTail(s);
      if s[0] == ',' {
        assert Plain("") by { NothingNeedsQuotes(); }
        ScanUnquoted(s[1..], "");
        JoinPlain(buf, Scan(s[1..], "", false));
        assert buf + s == buf + "," + ("" + s[1..]);
      } else {
        PlainSnoc(buf, s[0]);
        ScanUnquoted(s[1..], buf + [s[0]]);
        assert buf + [s[0]] + s[1..] == buf + s;
      }
    }
  }

  lemma NothingNeedsQuotes()
    ensures Plain("")
  {
  }

  /** Nothing is quoted that need not be: a line without quotes is what its fields join to. */
  lemma JoinSplit(line: string)
    requires forall c :: c in line ==> c != '"' && c != '\r' && c != '\n'
    ensures JoinFields(Split(line)) == line
  {
    NothingNeedsQuotes();
    ScanUnquoted(line, "");
    assert "" + line == line;
  }

  /** Cutting a line short can change only the last field it still has. */
  lemma {:induction false} ScanOfPrefix(s: string, n: nat, buf: string, inQuotes: bool)
    requires n <= |s|
    ensures var short, long := Scan(s[..n], buf, inQuotes), Scan(s, buf, inQuotes);
      |short| <= |long| && forall k :: 0 <= k < |short| - 1 ==> short[k] == long[k]
    decreases n
  {
    if n > 0 {
      assert s[..n][1..] == s[1..][..n - 1];
      if inQuotes && s[0] == '"' && |s| > 1 && s[1] == '"' {
        if n > 1 {
          assert s[..n][2..] == s[2..][..n - 2];
          ScanOfPrefix(s[2..], n - 2, buf + "\"", true);
        } else {
          assert Scan(s[..n], buf, inQuotes) == [buf];
        }
      } else if inQuotes {
        if s[0] == '"' {
          ScanOfPrefix(s[1..], n - 1, buf, false);
        } else {
          ScanOfPrefix(s[1..], n - 1, buf + [s[0]], true);
        }
      } else if s[0] == '"' {
        ScanOfPrefix(s[1..], n - 1, buf, true);
      } else if s[0] == ',' {
        ScanOfPrefix(s[1..], n - 1, "", false);
      } else {
        ScanOfPrefix(s[1..], n - 1, buf + [s[0]], false);
      }
    }
  }

  // ---------------------------------------------------------------------------
  // Lines of a file
  // ---------------------------------------------------------------------------

  predicate AtBreak(s: string, crlf: bool)
  {
    if crlf then |s| >= 2 && s[0] == '\r' && s[1] == '\n' else |s| >= 1 && s[0] == '\n'
  }

  function Break(crlf: bool): (nl: string)
    ensures |nl| == if crlf then 2 else 1
  {
    if crlf then "\r\n" else "\n"
  }

  /** `"\r\n" in raw` for `crlf`, and `"\n" in raw` otherwise. */
  predicate HasBreak(s: string, crlf: bool)
  {
    s != "" && (AtBreak(s, crlf) || HasBreak(s[1..], crlf))
  }

  function Lines(s: string, crlf: bool): (lines: seq<string>)
    ensures lines != []
    decreases |s|
  {
    if s == "" then [""]
    else if AtBreak(s, crlf) then [""] + Lines(s[|Break(crlf)|..], crlf)
    else
      var rest := Lines(s[1..], crlf);
      [[s[0]] + rest[0]] + rest[1..]
  }

  function Unlines(lines: seq<string>, crlf: bool): string
  {
    if lines == [] then ""
    else if |lines| == 1 then lines[0]
    else lines[0] + Break(crlf) + Unlines(lines[1..], crlf)
  }

  lemma {:induction false} UnlinesLines(s: string, crlf: bool)
    ensures Unlines(Lines(s, crlf), crlf) == s
    decreases |s|
  {
    if s == "" {
    } else if AtBreak(s, crlf) {
      var n := |Break(crlf)|;
      UnlinesLines(s[n..], crlf);
      assert s == Break(crlf) + s[n..];
      assert Lines(s, crlf)[1..] == Lines(s[n..], crlf);
    } else {
      UnlinesLines(s[1..], crlf);
      var rest, lines := Lines(s[1..], crlf), Lines(s, crlf);
      assert lines[0] == [s[0]] + rest[0] && lines[1..] == rest[1..];
      assert s == [s[0]] + s[1..];
    }
  }

  lemma {:induction false} LinesHaveNoBreak(s: string, crlf: bool)
    ensures forall k :: 0 <= k < |Lines(s, crlf)| ==> !HasBreak(Lines(s, crlf)[k], crlf)
    decreases |s|
  {
    assert !HasBreak("", crlf);
    if s == "" {
      assert Lines(s, crlf) == [""];
    } else if AtBreak(s, crlf) {
      LinesHaveNoBreak(s[|Break(crlf)|..], crlf);
    } else {
      LinesHaveNoBreak(s[1..], crlf);
      FirstLineIsPrefix(s, crlf);
      assert Lines(s, crlf)[0][1..] == Lines(s[1..], crlf)[0];
    }
  }

  /** The first line is what stands before the first break. */
  lemma {:induction false} FirstLineIsPrefix(s: string, crlf: bool)
    ensures var p := Lines(s, crlf)[0];
      p <= s && (p == s || AtBreak(s[|p|..], crlf))
    ensures !AtBreak(s, crlf) ==> !AtBreak(Lines(s, crlf)[0], crlf)
    decreases |s|
  {
    if s != "" && !AtBreak(s, crlf) {
      FirstLineIsPrefix(s[1..], crlf);
      var p, q := Lines(s, crlf)[0], Lines(s[1..], crlf)[0];
      assert p == [s[0]] + q;
      assert s[|p|..] == s[1..][|q|..];
    }
  }

  /** Joined lines split again: the first one up to a break of its own, if it has one. */
  lemma {:induction false} LinesOfJoined(line: string, rest: string, crlf: bool)
    ensures var lines := Lines(line + Break(crlf) + rest, crlf);
      && lines[0] == Lines(line, crlf)[0]
      && (!HasBreak(line, crlf) ==> lines == [line] + Lines(rest, crlf))
    decreases |line|
  {
    var s := line + Break(crlf) + rest;
    if line == "" {
      assert AtBreak(s, crlf) && s[|Break(crlf)|..] == rest;
    } else {
      assert s[1..] == line[1..] + Break(crlf) + rest;
      assert AtBreak(s, crlf) <==> AtBreak(line, crlf) by {
        if crlf && |line| == 1 {
          assert s[1] == '\r';
        }
      }
      if !AtBreak(s, crlf) {
        LinesOfJoined(line[1..], rest, crlf);
        var tail := Lines(s[1..], crlf);
        assert Lines(s, crlf) == [[s[0]] + tail[0]] + tail[1..];
        assert [s[0]] + line[1..] == line;
        if !HasBreak(line, crlf) {
          assert tail[1..] == Lines(rest, crlf);
          LineWithoutBreak(line[1..], crlf);
        }
      }
    }
  }

  lemma {:induction false} LineWithoutBreak(line: string, crlf: bool)
    requires !HasBreak(line, crlf)
    ensures Lines(line, crlf) == [line]
    decreases |line|
  {
    if line != "" {
      LineWithoutBreak(line[1..], crlf);
      assert line == [line[0]] + line[1..];
    }
  }

  // ---------------------------------------------------------------------------
  // The one-row edit
  // ---------------------------------------------------------------------------

  datatype Outcome = NotFound | TooShort | UpToDate | Updated

  /** The new status, evidence and notes. */
  datatype Change = Change(status: string, evidence: string, notes: string)

  predicate Contains(s: string, t: string)
  {
    exists i :: 0 <= i <= |s| && t <= s[i..]
  }

  predicate IsRow(line: string, key: string)
  {
    key + "," <= line
  }

  /** The first line from `i` on that belongs to the row, or the number of lines. */
  function FindRow(lines: seq<string>, key: string, i: nat): (k: nat)
    requires i <= |lines|
    ensures i <= k <= |lines|
    ensures forall j :: i <= j < k ==> !IsRow(lines[j], key)
    ensures k < |lines| ==> IsRow(lines[k], key)
    decreases |lines| - i
  {
    if i == |lines| || IsRow(lines[i], key) then i else FindRow(lines, key, i + 1)
  }

  /** Header order: id, area, description, milestone, status, evidence, notes. */
  function Changed(fields: seq<string>, c: Change): (r: seq<string>)
    requires |fields| >= 7
    ensures |r| == |fields|
  {
    fields[4 := c.status][5 := c.evidence][6 := c.notes]
  }

  function EditRow(line: string, c: Change): (r: (Outcome, string))
    ensures r.0 != Updated ==> r.1 == line
  {
    var fields := Split(line);
    if |fields| < 7 then (TooShort, line)
    else if fields[4] == c.status && Contains(fields[5], c.evidence) then (UpToDate, line)
    else (Updated, JoinFields(Changed(fields, c)))
  }

  /** The whole run over the file's text: what it reports, and what the file holds afterwards. */
  function Edit(raw: string, key: string, c: Change): (r: (Outcome, string))
    ensures r.0 != Updated ==> r.1 == raw
  {
    var crlf := HasBreak(raw, true);
    var lines := Lines(raw, crlf);
    var i := FindRow(lines, key, 0);
    if i == |lines| then (NotFound, raw) else
    var (outcome, line) := EditRow(lines[i], c);
    if outcome != Updated then (outcome, raw)
    else (Updated, Unlines(lines[i := line], crlf))
  }

  method Run(raw: string, key: string, c: Change) returns (outcome: Outcome, file: string)
    ensures (outcome, file) == Edit(raw, key, c)
  {
    var crlf := HasBreak(raw, true);
    var lines := Lines(raw, crlf);
    for index := 0 to |lines|
      invariant FindRow(lines, key, 0) == FindRow(lines, key, index)
    {
      var line := lines[index];
      if IsRow(line, key) {
        var fields := SplitFields(line);
        if |fields| < 7 {
          return TooShort, raw;
        }
        if fields[4] == c.status && Contains(fields[5], c.evidence) {
          return UpToDate, raw;
        }
        fields := fields[4 := c.status];
        fields := fields[5 := c.evidence];
        fields := fields[6 := c.notes];
        lines := lines[index := JoinFields(fields)];
        return Updated, Unlines(lines, crlf);
      }
    }
    return NotFound, raw;
  }

  // ---------------------------------------------------------------------------
  // What the edit leaves alone
  // ---------------------------------------------------------------------------

  lemma {:induction false} UnlinesUpdate(lines: seq<string>, i: nat, line: string, crlf: bool) returns (pre: string, post: string)
    requires i < |lines|
    ensures Unlines(lines, crlf) == pre + lines[i] + post
    ensures Unlines(lines[i := line], crlf) == pre + line + post
  {
    if |lines| == 1 {
      pre, post := "", "";
    } else if i == 0 {
      pre, post := "", Break(crlf) + Unlines(lines[1..], crlf);
      assert lines[0 := line][1..] == lines[1..];
    } else {
      pre, post := UnlinesUpdate(lines[1..], i - 1, line, crlf);
      assert lines[i := line][1..] == lines[1..][i - 1 := line];
      pre := lines[0] + Break(crlf) + pre;
    }
  }

  /** The edit replaces one line, the first that belongs to the row, by one that splits into its fields with
    * the three new values; every other line is what it was, and so is every byte before and after it. */
  lemma EditIsLocal(raw: string, key: string, c: Change)
    returns (i: nat, pre: string, old_: string, new_: string, post: string)
    requires Edit(raw, key, c).0 == Updated
    ensures var crlf := HasBreak(raw, true);
      var lines := Lines(raw, crlf);
      && raw == Unlines(lines, crlf) && (forall l :: l in lines ==> !HasBreak(l, crlf))
      && i < |lines| && lines[i] == old_ && (forall j :: 0 <= j < i ==> !IsRow(lines[j], key))
      && Edit(raw, key, c).1 == Unlines(lines[i := new_], crlf)
    ensures raw == pre + old_ + post
    ensures Edit(raw, key, c).1 == pre + new_ + post
    ensures IsRow(old_, key) && |Split(old_)| >= 7
    ensures var before, after := Split(old_), Split(new_);
      && |after| == |before| && after[4] == c.status && after[5] == c.evidence && after[6] == c.notes
      && forall k :: 0 <= k < |before| && k !in {4, 5, 6} ==> after[k] == before[k]
  {
    var crlf := HasBreak(raw, true);
    var lines := Lines(raw, crlf);
    i := FindRow(lines, key, 0);
    old_ := lines[i];
    new_ := JoinFields(Changed(Split(old_), c));
    pre, post := UnlinesUpdate(lines, i, new_, crlf);
    UnlinesLines(raw, crlf);
    LinesHaveNoBreak(raw, crlf);
    SplitJoin(Changed(Split(old_), c));
  }

  /** Which outcome a run has: no line belongs to the row; or the first that does has fewer than seven fields;
    * or it has the status and, somewhere in the evidence, the new evidence; or it is edited. */
  lemma OutcomeIff(raw: string, key: string, c: Change)
    ensures var lines := Lines(raw, HasBreak(raw, true));
      && (Edit(raw, key, c).0 == NotFound <==> forall l :: l in lines ==> !(key + "," <= l))
      && forall i :: 0 <= i < |lines| && key + "," <= lines[i] && (forall j :: 0 <= j < i ==> !(key + "," <= lines[j])) ==>
           var fields := Split(lines[i]);
           && (Edit(raw, key, c).0 == TooShort <==> |fields| < 7)
           && (Edit(raw, key, c).0 == UpToDate
               <==> |fields| >= 7 && fields[4] == c.status && exists a, b :: fields[5] == a + c.evidence + b)
  {
    hide Split, Lines, HasBreak, Edit, EditRow, FindRow;
    var lines := Lines(raw, HasBreak(raw, true));
    var first := FindRow(lines, key, 0);
    FirstRow(lines, key);
    EditIs(raw, key, c);
    if first < |lines| {
      EditRowIff(lines[first], c);
    }
  }

  lemma FirstRow(lines: seq<string>, key: string)
    ensures var first := FindRow(lines, key, 0);
      && (first == |lines| <==> forall l :: l in lines ==> !(key + "," <= l))
      && forall i :: 0 <= i < |lines| && key + "," <= lines[i] && (forall j :: 0 <= j < i ==> !(key + "," <= lines[j])) ==>
           i == first
  {
    var first := FindRow(lines, key, 0);
    assert forall j :: 0 <= j < first ==> !IsRow(lines[j], key);
    assert first < |lines| ==> lines[first] in lines && IsRow(lines[first], key);
  }

  lemma EditIs(raw: string, key: string, c: Change)
    ensures var lines := Lines(raw, HasBreak(raw, true));
      var first := FindRow(lines, key, 0);
      Edit(raw, key, c).0 == if first == |lines| then NotFound else EditRow(lines[first], c).0
  {
  }

  lemma EditRowIff(line: string, c: Change)
    ensures var outcome, fields := EditRow(line, c).0, Split(line);
      && outcome != NotFound
      && (outcome == TooShort <==> |fields| < 7)
      && (outcome == UpToDate
          <==> |fields| >= 7 && fields[4] == c.status && exists a, b :: fields[5] == a + c.evidence + b)
  {
    hide Split, Contains;
    if |Split(line)| >= 7 {
      ContainsIff(Split(line)[5], c.evidence);
    }
  }

  lemma ContainsIff(s: string, t: string)
    ensures Contains(s, t) <==> exists a, b :: s == a + t + b
  {
    if i :| 0 <= i <= |s| && t <= s[i..] {
      assert s == s[..i] + t + s[i + |t|..];
    }
    if a, b :| s == a + t + b {
      assert s[|a|..] == t + b && t <= s[|a|..];
    }
  }

  // ---------------------------------------------------------------------------
  // A second run
  // ---------------------------------------------------------------------------

  /** An edited line that is cut at a break of its own is never edited again. */
  lemma CutRowIsNotEdited(line: string, n: nat, c: Change)
    requires |Split(line)| >= 7 && n <= |JoinFields(Changed(Split(line), c))|
    ensures EditRow(JoinFields(Changed(Split(line), c))[..n], c).0 != Updated
  {
    var fields := Changed(Split(line), c);
    SplitJoin(fields);
    ScanOfPrefix(JoinFields(fields), n, "", false);
    assert c.evidence <= c.evidence[0..];
  }

  /** Lines before the edited one are found again as they were, and it is found up to its own first break. */
  lemma {:induction false} LinesAfterUpdate(lines: seq<string>, i: nat, line: string, crlf: bool)
    requires i < |lines|
    requires forall l :: l in lines ==> !HasBreak(l, crlf)
    ensures var again := Lines(Unlines(lines[i := line], crlf), crlf);
      |again| > i && again[..i] == lines[..i] && again[i] == Lines(line, crlf)[0]
  {
    hide Lines, HasBreak, AtBreak;
    var now := lines[i := line];
    if |lines| == 1 {
    } else if i == 0 {
      assert now[1..] == lines[1..];
      LinesOfJoined(line, Unlines(lines[1..], crlf), crlf);
    } else {
      assert now[1..] == lines[1..][i - 1 := line] && now[0] == lines[0] && lines[0] in lines;
      LinesAfterUpdate(lines[1..], i - 1, line, crlf);
      LinesOfJoined(lines[0], Unlines(now[1..], crlf), crlf);
      assert lines[..i] == [lines[0]] + lines[1..][..i - 1];
    }
  }

  lemma {:induction false} FindRowSkips(lines: seq<string>, key: string, i: nat, k: nat)
    requires i <= k < |lines| && IsRow(lines[k], key)
    requires forall j :: i <= j < k ==> !IsRow(lines[j], key)
    ensures FindRow(lines, key, i) == k
    decreases k - i
  {
    if i < k {
      FindRowSkips(lines, key, i + 1, k);
    }
  }

  /** The break in front of which a line is cut comes after the key and its comma. */
  lemma RowStaysRow(line: string, key: string, crlf: bool)
    requires IsRow(line, key) && Plain(key)
    ensures IsRow(Lines(line, crlf)[0], key)
  {
    FirstLineIsPrefix(line, crlf);
    var p := Lines(line, crlf)[0];
    forall j | 0 <= j < |key| + 1
      ensures line[j] != '\r' && line[j] != '\n' && line[j] == (key + ",")[j]
    {
      assert line[j] == (key + ",")[j];
      assert j < |key| ==> key[j] in key;
    }
    assert p != line ==> line[|p|] == line[|p|..][0];
  }

  // A file without CRLF stays one: the edit brings in no newline, and no line it writes ends in '\r'.

  lemma {:induction false} HasNewlineIff(s: string)
    ensures HasBreak(s, false) <==> '\n' in s
  {
    if s != "" {
      HasNewlineIff(s[1..]);
    }
  }

  predicate EndsInCr(s: string)
  {
    s != "" && s[|s| - 1] == '\r'
  }

  lemma {:induction false} ConcatNoCrlf(a: string, b: string)
    requires !HasBreak(a, true) && !HasBreak(b, true)
    requires !EndsInCr(a) || b == "" || b[0] != '\n'
    ensures !HasBreak(a + b, true)
  {
    if a == "" {
      assert a + b == b;
    } else {
      ConcatNoCrlf(a[1..], b);
      assert (a + b)[1..] == a[1..] + b;
    }
  }

  lemma {:induction false} UnlinesNoCrlf(lines: seq<string>)
    requires forall l :: l in lines ==> !HasBreak(l, true)
    requires forall j :: 0 <= j < |lines| - 1 ==> !EndsInCr(lines[j])
    ensures !HasBreak(Unlines(lines, false), true)
  {
    if |lines| > 1 {
      UnlinesNoCrlf(lines[1..]);
      assert lines[0] in lines;
      var rest := "\n" + Unlines(lines[1..], false);
      assert rest[1..] == Unlines(lines[1..], false);
      ConcatNoCrlf(lines[0], rest);
      assert Unlines(lines, false) == lines[0] + rest;
    }
  }

  lemma {:induction false} LinesNoCr(s: string)
    requires !HasBreak(s, true)
    ensures var lines := Lines(s, false);
      && (forall j :: 0 <= j < |lines| - 1 ==> !EndsInCr(lines[j]))
      && (forall l :: l in lines ==> !HasBreak(l, true))
  {
    var lines := Lines(s, false);
    if s == "" {
      assert lines == [""];
    } else {
      LinesNoCr(s[1..]);
      var rest := Lines(s[1..], false);
      if AtBreak(s, false) {
        assert lines == [""] + rest;
      } else {
        assert lines == [[s[0]] + rest[0]] + rest[1..];
        FirstLineIsPrefix(s[1..], false);
        assert rest[0] in rest;
        assert lines[0][1..] == rest[0];
      }
      forall l | l in lines
        ensures !HasBreak(l, true)
      {
        if l != lines[0] {
          assert l in lines[1..];
        }
      }
    }
  }

  lemma {:induction false} ScanChars(s: string, buf: string, inQuotes: bool)
    requires '\n' !in s && '\n' !in buf
    ensures forall f :: f in Scan(s, buf, inQuotes) ==> '\n' !in f
    decreases |s|
  {
    if s != "" {
      var n := if inQuotes && s[0] == '"' && |s| > 1 && s[1] == '"' then 2 else 1;
      assert forall c :: c in s[n..] ==> c in s;
      if n == 2 {
        ScanChars(s[2..], buf + "\"", true);
      } else if s[0] == '"' {
        ScanChars(s[1..], buf, !inQuotes);
      } else if !inQuotes && s[0] == ',' {
        ScanChars(s[1..], "", false);
      } else {
        ScanChars(s[1..], buf + [s[0]], inQuotes);
      }
    }
  }

  lemma {:induction false} DoubledChars(value: string)
    requires '\n' !in value
    ensures '\n' !in Doubled(value)
  {
    if value != "" {
      assert forall c :: c in value[1..] ==> c in value;
      DoubledChars(value[1..]);
    }
  }

  lemma QuoteClean(value: string)
    requires '\n' !in value
    ensures '\n' !in Quote(value) && !EndsInCr(Quote(value))
  {
    DoubledChars(value);
    if Plain(value) {
      assert value != "" ==> value[|value| - 1] in value;
    } else {
      assert Quote(value)[|Quote(value)| - 1] == '"';
    }
  }

  lemma {:induction false} JoinFieldsClean(fields: seq<string>)
    requires forall f :: f in fields ==> '\n' !in f
    ensures '\n' !in JoinFields(fields) && !EndsInCr(JoinFields(fields))
  {
    if |fields| == 1 {
      QuoteClean(fields[0]);
    } else if |fields| > 1 {
      assert fields[0] in fields;
      QuoteClean(fields[0]);
      JoinFieldsClean(fields[1..]);
    }
  }

  lemma {:induction false} NoNewlineNoCrlf(s: string)
    requires '\n' !in s
    ensures !HasBreak(s, true)
  {
    if s != "" {
      NoNewlineNoCrlf(s[1..]);
    }
  }

  predicate OneLine(c: Change)
  {
    '\n' !in c.status && '\n' !in c.evidence && '\n' !in c.notes
  }

  lemma LfFileStaysLf(raw: string, i: nat, c: Change)
    requires !HasBreak(raw, true) && OneLine(c)
    requires i < |Lines(raw, false)| && |Split(Lines(raw, false)[i])| >= 7
    ensures !HasBreak(Unlines(Lines(raw, false)[i := JoinFields(Changed(Split(Lines(raw, false)[i]), c))], false), true)
  {
    var lines := Lines(raw, false);
    var line := lines[i];
    var fields := Changed(Split(line), c);
    LinesHaveNoBreak(raw, false);
    LinesNoCr(raw);
    HasNewlineIff(line);
    ScanChars(line, "", false);
    JoinFieldsClean(fields);
    NoNewlineNoCrlf(JoinFields(fields));
    UnlinesNoCrlf(lines[i := JoinFields(fields)]);
  }

  lemma {:induction false} BreakMakesLines(s: string)
    requires HasBreak(s, true)
    ensures |Lines(s, true)| >= 2
    decreases |s|
  {
    if !AtBreak(s, true) {
      BreakMakesLines(s[1..]);
    }
  }

  lemma {:induction false} UnlinesHasBreak(lines: seq<string>)
    requires |lines| >= 2
    ensures HasBreak(Unlines(lines, true), true)
  {
    BreakInside(lines[0], Unlines(lines[1..], true));
  }

  lemma {:induction false} BreakInside(a: string, b: string)
    ensures HasBreak(a + "\r\n" + b, true)
  {
    var s := a + "\r\n" + b;
    if a == "" {
      assert AtBreak(s, true);
    } else {
      BreakInside(a[1..], b);
      assert s[1..] == a[1..] + "\r\n" + b;
    }
  }

  /** A second run never edits: for every file, running twice leaves what running once left. */
  lemma SecondRunChangesNothing(raw: string, key: string, c: Change)
    requires Plain(key) && OneLine(c)
    ensures Edit(Edit(raw, key, c).1, key, c).1 == Edit(raw, key, c).1
    ensures Edit(Edit(raw, key, c).1, key, c).0 != Updated
  {
    hide Lines, HasBreak, JoinFields, Unlines, Scan, Plain, OneLine;
    if Edit(raw, key, c).0 == Updated {
      var crlf := HasBreak(raw, true);
      var lines := Lines(raw, crlf);
      var i := FindRow(lines, key, 0);
      var line := JoinFields(Changed(Split(lines[i]), c));
      var file := Unlines(lines[i := line], crlf);
      if crlf {
        BreakMakesLines(raw);
        UnlinesHasBreak(lines[i := line]);
      } else {
        LfFileStaysLf(raw, i, c);
      }
      assert HasBreak(file, true) == crlf && Edit(raw, key, c).1 == file;
      LinesHaveNoBreak(raw, crlf);
      LinesAfterUpdate(lines, i, line, crlf);
      var again := Lines(file, crlf);
      EditedRowIsRow(lines[i], key, c);
      RowStaysRow(line, key, crlf);
      assert forall j :: 0 <= j < i ==> again[j] == again[..i][j];
      FindRowSkips(again, key, 0, i);
      FirstLineIsPrefix(line, crlf);
      assert again[i] == line[..|again[i]|];
      CutRowIsNotEdited(lines[i], |again[i]|, c);
    }
  }

  /** The row's first field is the key, so the rewritten line still begins with it. */
  lemma EditedRowIsRow(line: string, key: string, c: Change)
    requires IsRow(line, key) && Plain(key) && |Split(line)| >= 7
    ensures IsRow(JoinFields(Changed(Split(line), c)), key)
  {
    assert line == key + line[|key|..];
    ScanPlain(key, "", line[|key|..]);
    assert "" + key == key;
    assert line[|key|] == (key + ",")[|key|];
    assert Scan(line[|key|..], key, false)[0] == key;
    var fields := Changed(Split(line), c);
    assert fields[0] == key && Quote(key) == key;
    assert JoinFields(fields) == key + "," + JoinFields(fields[1..]);
  }
}
