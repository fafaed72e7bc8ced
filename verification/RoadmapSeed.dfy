/** `seed_roadmap.py`: rows of the requirements table upserted as cards of the roadmap board. */
module RoadmapSeed {
  import opened Wrappers

  datatype Stage = Idea | UpNext | InProgress | Finished | Shipped | MediumTerm | LongTerm | Rejected

  datatype Card = Card(category: string, stage: Stage)

  /** The cards by title. The script looks a title up as it is written; its own header promises a
    * comparison that ignores case, spacing and punctuation, and does not make one. */
  type Board = map<string, Card>

  datatype CsvRow = CsvRow(title: string, category: string, status: string)

  datatype Row = Row(title: string, category: string, stage: Stage)

  datatype Action = Inserted | Updated | Unchanged | Protected

  datatype Report = Report(insertions: nat, updates: nat, sameStage: nat, guarded: nat)
  {
    function Total(): nat
    {
      insertions + updates + sameStage + guarded
    }

    function With(a: Action): Report
    {
      match a
      case Inserted => this.(insertions := insertions + 1)
      case Updated => this.(updates := updates + 1)
      case Unchanged => this.(sameStage := sameStage + 1)
      case Protected => this.(guarded := guarded + 1)
    }
  }

  const NOTHING := Report(0, 0, 0, 0)

  const STATUS_TO_STAGE: map<string, Stage> := map[
    "implemented-locally-tested" := Shipped,
    "implemented-verified-e2e" := Shipped,
    "implemented-fully-tested" := Shipped,
    "implemented-fixture-tested" := Shipped,
    "implemented-but-not-executed" := Shipped,
    "external-integration-not-live" := Finished,
    "partially-implemented" := InProgress,
    "planned" := Idea,
    "unsupported" := Rejected,
    "evaluated-and-rejected" := Rejected
  ]

  const PROTECTED: set<Stage> := {Shipped, Rejected, UpNext, InProgress, Finished}

  /** The two tables by what their comments say: whatever is implemented is shipped, only what is planned is left
    * open, what was turned down is rejected; and only the stages nobody has acted on yet are open to a run. */
  lemma StagesAre(status: string, stage: Stage)
    requires status in STATUS_TO_STAGE
    ensures STATUS_TO_STAGE[status] == Shipped <==> "implemented-" <= status
    ensures STATUS_TO_STAGE[status] == Idea <==> status == "planned"
    ensures STATUS_TO_STAGE[status] == Rejected <==> status == "unsupported" || status == "evaluated-and-rejected"
    ensures STATUS_TO_STAGE[status] == InProgress <==> status == "partially-implemented"
    ensures STATUS_TO_STAGE[status] == Finished <==> status == "external-integration-not-live"
    ensures stage in PROTECTED <==> stage != Idea && stage != MediumTerm && stage != LongTerm
  {
    assert "implemented-"[0] == 'i';
    assert "planned"[0] == 'p' && "unsupported"[0] == 'u' && "evaluated-and-rejected"[0] == 'e';
    assert "partially-implemented"[0] == 'p' && "external-integration-not-live"[0] == 'e';
    assert "planned"[1] == 'l' && "partially-implemented"[1] == 'a';
    assert "evaluated-and-rejected"[1] == 'v' && "external-integration-not-live"[1] == 'x';
    ShippedAre();
  }

  lemma ShippedAre()
    ensures "implemented-" <= "implemented-locally-tested" && "implemented-" <= "implemented-verified-e2e"
    ensures "implemented-" <= "implemented-fully-tested" && "implemented-" <= "implemented-fixture-tested"
    ensures "implemented-" <= "implemented-but-not-executed"
  {
  }

  // ---------------------------------------------------------------------------
  // Reading the rows
  // ---------------------------------------------------------------------------

  datatype LoadError = UnknownStatus(at: nat) | NoRows

  /** Everything the table of statuses can yield is protected, but for one stage. */
  predicate Loaded(rows: seq<Row>)
  {
    forall k :: 0 <= k < |rows| ==> rows[k].stage in PROTECTED || rows[k].stage == Idea
  }

  /** `load_csv`: the first unknown status refuses the whole file, and so does a file without rows. */
  method LoadCsv(csv: seq<CsvRow>) returns (r: Result<seq<Row>, LoadError>)
    ensures r.Ok? <==> csv != [] && forall k :: 0 <= k < |csv| ==> csv[k].status in STATUS_TO_STAGE
    ensures r.Ok? ==> Loaded(r.value) && |r.value| == |csv|
    ensures r.Ok? ==> forall k :: 0 <= k < |csv| && csv[k].status in STATUS_TO_STAGE ==>
              r.value[k] == Row(csv[k].title, csv[k].category, STATUS_TO_STAGE[csv[k].status])
    ensures r.Err? && r.error.UnknownStatus? ==>
              && r.error.at < |csv| && csv[r.error.at].status !in STATUS_TO_STAGE
              && forall k :: 0 <= k < r.error.at ==> csv[k].status in STATUS_TO_STAGE
    ensures r == Err(NoRows) <==> csv == []
  {
    var out: seq<Row> := [];
    for i := 0 to |csv|
      invariant |out| == i && Loaded(out)
      invariant forall k :: 0 <= k < i ==> csv[k].status in STATUS_TO_STAGE
      invariant forall k :: 0 <= k < i && csv[k].status in STATUS_TO_STAGE ==>
                  out[k] == Row(csv[k].title, csv[k].category, STATUS_TO_STAGE[csv[k].status])
    {
      if csv[i].status !in STATUS_TO_STAGE {
        return Err(UnknownStatus(i));
      }
      out := out + [Row(csv[i].title, csv[i].category, STATUS_TO_STAGE[csv[i].status])];
    }
    if out == [] {
      return Err(NoRows);
    }
    return Ok(out);
  }

  // ---------------------------------------------------------------------------
  // One row
  // ---------------------------------------------------------------------------

  function ActionOn(board: Board, row: Row): Action
  {
    if row.title !in board then Inserted
    else
      var current := board[row.title].stage;
      if current in PROTECTED && current != row.stage then Protected
      else if current == row.stage then Unchanged
      else Updated
  }

  function SeedRow(board: Board, row: Row): Board
  {
    match ActionOn(board, row)
    case Inserted => board[row.title := Card(row.category, row.stage)]
    case Updated => board[row.title := Card(row.category, row.stage)]
    case Unchanged => board[row.title := board[row.title].(category := row.category)]
    case Protected => board
  }

  function Seeded(board: Board, rows: seq<Row>): Board
  {
    if rows == [] then board else SeedRow(Seeded(board, rows[..|rows| - 1]), rows[|rows| - 1])
  }

  /** What a run reports; a dry run judges every row against the board as it found it. */
  function Reported(board: Board, rows: seq<Row>, dryRun: bool): Report
  {
    if rows == [] then NOTHING
    else
      var front := rows[..|rows| - 1];
      Reported(board, front, dryRun).With(ActionOn(if dryRun then board else Seeded(board, front), rows[|rows| - 1]))
  }

  /** Every row is counted once. */
  lemma {:induction false} CountsSum(board: Board, rows: seq<Row>, dryRun: bool)
    ensures Reported(board, rows, dryRun).Total() == |rows|
  {
    if rows != [] {
      CountsSum(board, rows[..|rows| - 1], dryRun);
    }
  }

  // ---------------------------------------------------------------------------
  // Where a card ends up
  // ---------------------------------------------------------------------------

  predicate Mentions(rows: seq<Row>, title: string)
  {
    exists k :: 0 <= k < |rows| && rows[k].title == title
  }

  /** The first protected stage the rows give a title. */
  function FirstProtected(rows: seq<Row>, title: string): Option<Stage>
  {
    if rows == [] then None
    else
      var last := rows[|rows| - 1];
      match FirstProtected(rows[..|rows| - 1], title)
      case Some(stage) => Some(stage)
      case None => if last.title == title && last.stage in PROTECTED then Some(last.stage) else None
  }

  /** A card keeps a protected stage; any other card takes the first protected stage its rows give it,
    * and failing that becomes an idea, or stays as it is when no row names it. */
  function StageAfter(board: Board, rows: seq<Row>, title: string): Option<Stage>
  {
    if title in board && board[title].stage in PROTECTED then Some(board[title].stage)
    else if FirstProtected(rows, title).Some? then FirstProtected(rows, title)
    else if Mentions(rows, title) then Some(Idea)
    else if title in board then Some(board[title].stage)
    else None
  }

  function StageOf(board: Board, title: string): Option<Stage>
  {
    if title in board then Some(board[title].stage) else None
  }

  lemma {:induction false} AnyIsProtected(rows: seq<Row>, title: string)
    ensures FirstProtected(rows, title).Some? ==> FirstProtected(rows, title).value in PROTECTED
  {
    if rows != [] {
      AnyIsProtected(rows[..|rows| - 1], title);
    }
  }

  lemma {:induction false} WhereCardsEndUp(board: Board, rows: seq<Row>, title: string)
    requires Loaded(rows)
    ensures StageOf(Seeded(board, rows), title) == StageAfter(board, rows, title)
  {
    if rows != [] {
      var front, last := rows[..|rows| - 1], rows[|rows| - 1];
      WhereCardsEndUp(board, front, title);
      AnyIsProtected(front, title);
      assert Mentions(rows, title) <==> Mentions(front, title) || last.title == title;
    }
  }

  /** No run moves a card out of a protected stage, whatever the rows say. */
  lemma {:induction false} ProtectedStays(board: Board, rows: seq<Row>, title: string)
    requires title in board && board[title].stage in PROTECTED
    ensures title in Seeded(board, rows) && Seeded(board, rows)[title].stage == board[title].stage
  {
    if rows != [] {
      ProtectedStays(board, rows[..|rows| - 1], title);
    }
  }

  /** Cards no row names are left alone, and no card goes. */
  lemma {:induction false} OthersAreLeft(board: Board, rows: seq<Row>, title: string)
    requires !Mentions(rows, title)
    ensures title in Seeded(board, rows) <==> title in board
    ensures title in board ==> Seeded(board, rows)[title] == board[title]
  {
    if rows != [] {
      assert rows[|rows| - 1].title != title;
      OthersAreLeft(board, rows[..|rows| - 1], title);
    }
  }

  // ---------------------------------------------------------------------------
  // Running it again
  // ---------------------------------------------------------------------------

  /** The category the last row with this title and stage gives. */
  function LastCategory(rows: seq<Row>, title: string, stage: Stage): Option<string>
  {
    if rows == [] then None
    else
      var last := rows[|rows| - 1];
      if last.title == title && last.stage == stage then Some(last.category)
      else LastCategory(rows[..|rows| - 1], title, stage)
  }

  /** Every row finds its card with its own stage or with a protected one. */
  ghost predicate Quiet(board: Board, rows: seq<Row>)
  {
    forall k :: 0 <= k < |rows| ==>
      rows[k].title in board && (board[rows[k].title].stage == rows[k].stage || board[rows[k].title].stage in PROTECTED)
  }

  /** Every card has the category its rows last gave it. */
  ghost predicate Settled(board: Board, rows: seq<Row>)
  {
    forall title :: title in board ==>
      var c := LastCategory(rows, title, board[title].stage); c.None? || c.value == board[title].category
  }

  lemma {:induction false} RunsLeaveItQuiet(board: Board, rows: seq<Row>)
    requires Loaded(rows)
    ensures Quiet(Seeded(board, rows), rows)
  {
    forall k | 0 <= k < |rows|
      ensures rows[k].title in Seeded(board, rows)
      ensures Seeded(board, rows)[rows[k].title].stage == rows[k].stage || Seeded(board, rows)[rows[k].title].stage in PROTECTED
    {
      WhereCardsEndUp(board, rows, rows[k].title);
      FirstIsProtected(rows, rows[k].title, k);
    }
  }

  lemma {:induction false} FirstIsProtected(rows: seq<Row>, title: string, k: nat)
    requires k < |rows| && rows[k].title == title
    ensures rows[k].stage in PROTECTED ==> FirstProtected(rows, title).Some?
    ensures FirstProtected(rows, title).Some? ==> FirstProtected(rows, title).value in PROTECTED
  {
    var front := rows[..|rows| - 1];
    if k < |front| {
      FirstIsProtected(front, title, k);
    } else {
      AnyIsProtected(front, title);
    }
  }

  lemma {:induction false} RunsSettle(board: Board, rows: seq<Row>)
    requires Loaded(rows)
    ensures Settled(Seeded(board, rows), rows)
  {
    if rows != [] {
      var front, last := rows[..|rows| - 1], rows[|rows| - 1];
      RunsSettle(board, front);
      RunsLeaveItQuiet(board, front);
      var before, after := Seeded(board, front), Seeded(board, rows);
      forall title | title in after
        ensures var c := LastCategory(rows, title, after[title].stage); c.None? || c.value == after[title].category
      {
        if title != last.title {
          assert after[title] == before[title];
        } else if ActionOn(before, last) == Protected {
          assert after[title] == before[title];
        }
      }
    }
  }

  /** On a quiet board a run changes categories only, each to the last one its rows give. */
  lemma {:induction false} QuietRun(board: Board, rows: seq<Row>, title: string)
    requires Quiet(board, rows)
    ensures title in Seeded(board, rows) <==> title in board
    ensures title in board ==>
      Seeded(board, rows)[title] ==
      match LastCategory(rows, title, board[title].stage)
      case None => board[title]
      case Some(category) => Card(category, board[title].stage)
  {
    if rows != [] {
      var front, last := rows[..|rows| - 1], rows[|rows| - 1];
      assert forall k :: 0 <= k < |front| ==> front[k] == rows[k];
      QuietRun(board, front, title);
      QuietRun(board, front, last.title);
    }
  }

  lemma {:induction false} QuietReport(board: Board, rows: seq<Row>)
    requires Quiet(board, rows)
    ensures Reported(board, rows, false).insertions == 0 && Reported(board, rows, false).updates == 0
  {
    if rows != [] {
      var front, last := rows[..|rows| - 1], rows[|rows| - 1];
      assert forall k :: 0 <= k < |front| ==> front[k] == rows[k];
      QuietReport(board, front);
      QuietRun(board, front, last.title);
    }
  }

  /** A second run over the same rows, repeated titles included, inserts nothing, updates nothing and
    * leaves the board exactly as the first one left it. */
  lemma SecondRunChangesNothing(board: Board, rows: seq<Row>)
    requires Loaded(rows)
    ensures var once := Seeded(board, rows);
      && Seeded(once, rows) == once
      && Reported(once, rows, false).insertions == 0 && Reported(once, rows, false).updates == 0
  {
    var once := Seeded(board, rows);
    RunsLeaveItQuiet(board, rows);
    RunsSettle(board, rows);
    QuietReport(once, rows);
    forall title
      ensures title in Seeded(once, rows) <==> title in once
      ensures title in once ==> Seeded(once, rows)[title] == once[title]
    {
      QuietRun(once, rows, title);
    }
  }

  /** It is the table of statuses that makes it so: were two unprotected stages within its reach, a title
    * that has both would be moved back and forth by every run. */
  lemma TwoOpenStagesFlap(title: string, category: string)
    ensures var rows := [Row(title, category, Idea), Row(title, category, LongTerm)];
      var once := Seeded(map[], rows);
      Reported(once, rows, false) == Report(0, 2, 0, 0)
  {
    var r0, r1 := Row(title, category, Idea), Row(title, category, LongTerm);
    var rows := [r0, r1];
    assert rows[..1] == [r0] && [r0][..0] == [];
    var once := map[title := Card(category, LongTerm)];
    assert Seeded(map[], [r0]) == map[title := Card(category, Idea)];
    assert Seeded(map[], rows) == once;
    assert Seeded(once, [r0]) == map[title := Card(category, Idea)];
    assert Reported(once, [r0], false) == Report(0, 1, 0, 0);
  }

  // ---------------------------------------------------------------------------
  // What the report counts
  // ---------------------------------------------------------------------------

  /** The board row `j` is judged against: a dry run's is the one it found. */
  function Judged(board: Board, rows: seq<Row>, j: nat, dryRun: bool): Board
    requires j <= |rows|
  {
    if dryRun then board else Seeded(board, rows[..j])
  }

  function New(board: Board, rows: seq<Row>, dryRun: bool): set<nat>
  {
    set j | 0 <= j < |rows| && rows[j].title !in Judged(board, rows, j, dryRun)
  }

  /** Those whose card is in their stage already. */
  function There(board: Board, rows: seq<Row>, dryRun: bool): set<nat>
  {
    set j | 0 <= j < |rows| && var b := Judged(board, rows, j, dryRun); (
      rows[j].title in b && b[rows[j].title].stage == rows[j].stage)
  }

  /** Those whose card is in another stage it may not leave. */
  function Kept(board: Board, rows: seq<Row>, dryRun: bool): set<nat>
  {
    set j | 0 <= j < |rows| && var b := Judged(board, rows, j, dryRun); (
      rows[j].title in b && b[rows[j].title].stage != rows[j].stage && b[rows[j].title].stage in PROTECTED)
  }

  lemma JudgedInFront(board: Board, rows: seq<Row>, j: nat, dryRun: bool)
    requires j < |rows|
    ensures Judged(board, rows[..|rows| - 1], j, dryRun) == Judged(board, rows, j, dryRun)
  {
    assert rows[..|rows| - 1][..j] == rows[..j];
  }

  /** Each of the four numbers counts the rows of one kind; the rest are updates. */
  lemma {:induction false} ReportCounts(board: Board, rows: seq<Row>, dryRun: bool)
    ensures var r := Reported(board, rows, dryRun);
      && r.insertions == |New(board, rows, dryRun)|
      && r.sameStage == |There(board, rows, dryRun)|
      && r.guarded == |Kept(board, rows, dryRun)|
      && r.updates == |rows| - r.insertions - r.sameStage - r.guarded
  {
    hide Seeded, New, There, Kept, ActionOn, Judged;
    CountsSum(board, rows, dryRun);
    if rows == [] {
      NothingCounted(board, rows, dryRun);
    } else {
      ReportCounts(board, rows[..|rows| - 1], dryRun);
      OneMoreJudged(board, rows, dryRun);
      OneMoreCounted(board, rows, dryRun, ActionOn(Judged(board, rows, |rows| - 1, dryRun), rows[|rows| - 1]));
    }
  }

  lemma NothingCounted(board: Board, rows: seq<Row>, dryRun: bool)
    requires rows == []
    ensures New(board, rows, dryRun) == {} && There(board, rows, dryRun) == {} && Kept(board, rows, dryRun) == {}
  {
  }

  lemma OneMoreJudged(board: Board, rows: seq<Row>, dryRun: bool)
    requires rows != []
    ensures var n := |rows| - 1;
      Reported(board, rows, dryRun)
      == Reported(board, rows[..n], dryRun).With(ActionOn(Judged(board, rows, n, dryRun), rows[n]))
  {
    hide Seeded, ActionOn;
  }

  lemma OneMoreCounted(board: Board, rows: seq<Row>, dryRun: bool, action: Action)
    requires rows != []
    requires action == ActionOn(Judged(board, rows, |rows| - 1, dryRun), rows[|rows| - 1])
    ensures var n, front := |rows| - 1, rows[..|rows| - 1];
      && New(board, rows, dryRun) == New(board, front, dryRun) + (if action == Inserted then {n} else {})
      && There(board, rows, dryRun) == There(board, front, dryRun) + (if action == Unchanged then {n} else {})
      && Kept(board, rows, dryRun) == Kept(board, front, dryRun) + (if action == Protected then {n} else {})
      && n !in New(board, front, dryRun) && n !in There(board, front, dryRun) && n !in Kept(board, front, dryRun)
  {
    hide Seeded, Judged;
    var n, front := |rows| - 1, rows[..|rows| - 1];
    forall j | 0 <= j < n
      ensures front[j] == rows[j] && Judged(board, front, j, dryRun) == Judged(board, rows, j, dryRun)
    {
      JudgedInFront(board, rows, j, dryRun);
    }
  }

  // ---------------------------------------------------------------------------
  // Titles that read alike
  // ---------------------------------------------------------------------------

  lemma {:induction false} TitlesAfter(board: Board, rows: seq<Row>)
    ensures forall title ::
      title in Seeded(board, rows) <==> title in board || exists k :: 0 <= k < |rows| && rows[k].title == title
  {
    if rows != [] {
      var front, last := rows[..|rows| - 1], rows[|rows| - 1];
      TitlesAfter(board, front);
      forall title
        ensures title in Seeded(board, rows)
           <==> title in board || exists k :: 0 <= k < |rows| && rows[k].title == title
      {
        assert title in Seeded(board, rows) <==> title in Seeded(board, front) || title == last.title;
        if k :| 0 <= k < |rows| && rows[k].title == title {
          assert k < |front| ==> front[k].title == title;
        }
        if k :| 0 <= k < |front| && front[k].title == title {
          assert rows[k].title == title;
        }
        assert rows[|rows| - 1].title == last.title;
      }
    }
  }

  /** No two cards have the same normal form, whatever the normal form is. */
  ghost predicate NoneAlike(board: Board, norm: string -> string)
  {
    forall a, b :: a in board && b in board && norm(a) == norm(b) ==> a == b
  }

  /** The script's header promises that a title is looked up by its normal form. It is looked up as written,
    * so after a run no two cards read alike if and only if none did before, no row reads like a card of
    * another title, and no two rows with different titles read alike. */
  lemma NoneAlikeIff(board: Board, rows: seq<Row>, norm: string -> string)
    ensures NoneAlike(Seeded(board, rows), norm)
       <==> && NoneAlike(board, norm)
            && (forall a, k :: a in board && 0 <= k < |rows| && norm(a) == norm(rows[k].title) ==> a == rows[k].title)
            && (forall j, k :: 0 <= j < |rows| && 0 <= k < |rows| && norm(rows[j].title) == norm(rows[k].title)
                  ==> rows[j].title == rows[k].title)
  {
    TitlesAfter(board, rows);
  }

  // ---------------------------------------------------------------------------
  // A dry run
  // ---------------------------------------------------------------------------

  /** Row `j` fares the same after row `i` of its title as it would have before it: the card was there, and
    * is one no row moves, or one that row `i` leaves an idea with no difference to row `j`. */
  predicate Undisturbed(board: Board, i: Row, j: Row)
  {
    i.title in board
    && (board[i.title].stage in PROTECTED
        || (i.stage == Idea && (board[i.title].stage == Idea || j.stage != Idea)))
  }

  ghost predicate RowForetold(board: Board, rows: seq<Row>, j: nat)
    requires j < |rows|
  {
    ActionOn(board, rows[j]) == ActionOn(Seeded(board, rows[..j]), rows[j])
  }

  lemma {:induction false} FirstProtectedIsARow(rows: seq<Row>, title: string) returns (i: nat)
    requires FirstProtected(rows, title).Some?
    ensures i < |rows| && rows[i].title == title && rows[i].stage in PROTECTED
  {
    var front := rows[..|rows| - 1];
    if FirstProtected(front, title).Some? {
      i := FirstProtectedIsARow(front, title);
    } else {
      i := |rows| - 1;
    }
  }

  lemma RowForetoldIff(board: Board, rows: seq<Row>, j: nat)
    requires Loaded(rows) && j < |rows|
    ensures RowForetold(board, rows, j)
       <==> forall i :: 0 <= i < j && rows[i].title == rows[j].title ==> Undisturbed(board, rows[i], rows[j])
  {
    hide Seeded, FirstProtected;
    var front, title := rows[..j], rows[j].title;
    WhereCardsEndUp(board, front, title);
    AnyIsProtected(front, title);
    if FirstProtected(front, title).Some? {
      var i := FirstProtectedIsARow(front, title);
      assert rows[i].title == title && rows[i].stage in PROTECTED;
    } else {
      forall i | 0 <= i < j && rows[i].title == title
        ensures rows[i].stage == Idea
      {
        FirstIsProtected(front, title, i);
        assert front[i] == rows[i];
      }
      if Mentions(front, title) {
        var i :| 0 <= i < |front| && front[i].title == title;
        assert rows[i].title == title;
      }
      assert forall i :: 0 <= i < j && rows[i].title == title ==> front[i].title == title;
    }
  }

  /** Inserting ranks above updating, updating above leaving the stage, and that above being refused. */
  function Rank(a: Action): nat
  {
    match a
    case Inserted => 3
    case Updated => 2
    case Unchanged => 1
    case Protected => 0
  }

  function Score(r: Report): nat
  {
    3 * r.insertions + 2 * r.updates + r.sameStage
  }

  /** A dry run never ranks a row lower than the real run does. */
  lemma DryRunRanksHigher(board: Board, rows: seq<Row>, j: nat)
    requires Loaded(rows) && j < |rows|
    ensures Rank(ActionOn(board, rows[j])) >= Rank(ActionOn(Seeded(board, rows[..j]), rows[j]))
    ensures Rank(ActionOn(board, rows[j])) == Rank(ActionOn(Seeded(board, rows[..j]), rows[j]))
       <==> RowForetold(board, rows, j)
  {
    hide Seeded, FirstProtected;
    WhereCardsEndUp(board, rows[..j], rows[j].title);
    AnyIsProtected(rows[..j], rows[j].title);
  }

  lemma ScoreWith(r: Report, a: Action)
    ensures Score(r.With(a)) == Score(r) + Rank(a)
  {
  }

  lemma OneMoreReported(board: Board, rows: seq<Row>, dryRun: bool)
    requires rows != []
    ensures var front, last := rows[..|rows| - 1], rows[|rows| - 1];
      var action := ActionOn(if dryRun then board else Seeded(board, front), last);
      && Reported(board, rows, dryRun) == Reported(board, front, dryRun).With(action)
      && Score(Reported(board, rows, dryRun)) == Score(Reported(board, front, dryRun)) + Rank(action)
  {
    hide Seeded, ActionOn, Score, Rank;
    var front, last := rows[..|rows| - 1], rows[|rows| - 1];
    ScoreWith(Reported(board, front, dryRun), ActionOn(if dryRun then board else Seeded(board, front), last));
  }

  ghost predicate AllForetold(board: Board, rows: seq<Row>)
  {
    forall j :: 0 <= j < |rows| ==> RowForetold(board, rows, j)
  }

  lemma OneMoreForetold(board: Board, rows: seq<Row>)
    requires rows != []
    ensures AllForetold(board, rows) <==> AllForetold(board, rows[..|rows| - 1]) && RowForetold(board, rows, |rows| - 1)
  {
    hide RowForetold;
    var n := |rows| - 1;
    forall j | 0 <= j < n
      ensures RowForetold(board, rows[..n], j) <==> RowForetold(board, rows, j)
    {
      SamePrefix(board, rows, n, j);
    }
  }

  lemma SamePrefix(board: Board, rows: seq<Row>, n: nat, j: nat)
    requires j < n <= |rows|
    ensures RowForetold(board, rows[..n], j) <==> RowForetold(board, rows, j)
  {
    assert rows[..n][..j] == rows[..j];
  }

  lemma {:induction false} ReportsAgreeIff(board: Board, rows: seq<Row>)
    requires Loaded(rows)
    ensures Score(Reported(board, rows, true)) >= Score(Reported(board, rows, false))
    ensures Reported(board, rows, true) == Reported(board, rows, false) <==> AllForetold(board, rows)
    ensures Score(Reported(board, rows, true)) == Score(Reported(board, rows, false)) <==> AllForetold(board, rows)
  {
    hide Seeded, ActionOn, Reported, AllForetold, Score;
    if rows == [] {
      NothingReported(board, rows);
    } else {
      var n := |rows| - 1;
      ReportsAgreeIff(board, rows[..n]);
      DryRunRanksHigher(board, rows, n);
      OneMoreReported(board, rows, true);
      OneMoreReported(board, rows, false);
      OneMoreForetold(board, rows);
    }
  }

  lemma NothingReported(board: Board, rows: seq<Row>)
    requires rows == []
    ensures Reported(board, rows, true) == Reported(board, rows, false) && AllForetold(board, rows)
  {
  }

  /** A dry run, for any board and any rows, foretells the report of the real run if and only if every two
    * rows with one title leave each other undisturbed. */
  lemma DryRunForetellsIff(board: Board, rows: seq<Row>)
    requires Loaded(rows)
    ensures Reported(board, rows, true) == Reported(board, rows, false)
       <==> forall i, j :: 0 <= i < j < |rows| && rows[i].title == rows[j].title ==> Undisturbed(board, rows[i], rows[j])
  {
    hide Reported, Undisturbed, RowForetold;
    ReportsAgreeIff(board, rows);
    assert AllForetold(board, rows) <==> forall j :: 0 <= j < |rows| ==> RowForetold(board, rows, j);
    forall j | 0 <= j < |rows|
      ensures RowForetold(board, rows, j)
         <==> forall i :: 0 <= i < j && rows[i].title == rows[j].title ==> Undisturbed(board, rows[i], rows[j])
    {
      RowForetoldIff(board, rows, j);
    }
  }

  /** So it does when no title is repeated, whatever stages the rows give. */
  lemma {:induction false} DryRunForetells(board: Board, rows: seq<Row>)
    requires forall i, j :: 0 <= i < j < |rows| ==> rows[i].title != rows[j].title
    ensures Reported(board, rows, true) == Reported(board, rows, false)
  {
    if rows != [] {
      var front, last := rows[..|rows| - 1], rows[|rows| - 1];
      DryRunForetells(board, front);
      assert !Mentions(front, last.title);
      OthersAreLeft(board, front, last.title);
    }
  }

  /** A repeated new title it announces as two insertions, of which the real run makes one. */
  lemma DryRunOvercounts(board: Board, title: string, category: string, stage: Stage)
    requires title !in board
    ensures var rows := [Row(title, category, stage), Row(title, category, stage)];
      Reported(board, rows, true).insertions == 2 && Reported(board, rows, false).insertions == 1
  {
    var r := Row(title, category, stage);
    assert [r, r][..1] == [r] && [r][..0] == [];
    assert Reported(board, [r], true) == Report(1, 0, 0, 0) == Reported(board, [r], false);
    assert Seeded(board, [r]) == board[title := Card(category, stage)];
  }

  // ---------------------------------------------------------------------------
  // `seed_sqlite`
  // ---------------------------------------------------------------------------

  class Database {
    var cards: Board

    method SeedSqlite(rows: seq<Row>, dryRun: bool) returns (report: Report)
      modifies this
      ensures cards == if dryRun then old(cards) else Seeded(old(cards), rows)
      ensures report == Reported(old(cards), rows, dryRun) && report.Total() == |rows|
    {
      report := NOTHING;
      for i := 0 to |rows|
        invariant cards == if dryRun then old(cards) else Seeded(old(cards), rows[..i])
        invariant report == Reported(old(cards), rows[..i], dryRun)
      {
        assert rows[..i + 1][..i] == rows[..i];
        var row := rows[i];
        var action;
        if row.title !in cards {
          action := Inserted;
          if !dryRun {
            cards := cards[row.title := Card(row.category, row.stage)];
          }
        } else {
          var current := cards[row.title].stage;
          if current in PROTECTED && current != row.stage {
            action := Protected;
          } else if current == row.stage {
            action := Unchanged;
            if !dryRun {
              cards := cards[row.title := cards[row.title].(category := row.category)];
            }
          } else {
            action := Updated;
            if !dryRun {
              cards := cards[row.title := cards[row.title].(category := row.category, stage := row.stage)];
            }
          }
        }
        report := report.With(action);
      }
      assert rows[..|rows|] == rows;
      CountsSum(old(cards), rows, dryRun);
    }
  }
}
