/** `list_media_filtered` of `media.rs`: a page of works after a cursor, newest first. */
module Listing {
  import opened Wrappers

  datatype Work = Work(createdAt: string, id: string)

  /** Text order, character by character. */
  predicate Less(a: string, b: string)
  {
    b != [] && (a == [] || a[0] < b[0] || (a[0] == b[0] && Less(a[1..], b[1..])))
  }

  /** Newest first, then by id. */
  predicate Before(a: Work, b: Work)
  {
    Less(b.createdAt, a.createdAt) || (a.createdAt == b.createdAt && Less(a.id, b.id))
  }

  ghost predicate Sorted(listing: seq<Work>)
  {
    forall i, j :: 0 <= i < j < |listing| ==> Before(listing[i], listing[j])
  }

  function CursorOf(last: Work): string
  {
    last.createdAt + "|" + last.id
  }

  /** `rsplit_once('|')`. */
  function ParseCursor(text: string): Option<(string, string)>
  {
    if text == [] then None
    else if text[|text| - 1] == '|' then Some((text[..|text| - 1], []))
    else
      match ParseCursor(text[..|text| - 1])
      case None => None
      case Some((createdAt, id)) => Some((createdAt, id + [text[|text| - 1]]))
  }

  /** The rows the cursor's comparison keeps, in order. */
  function After(listing: seq<Work>, createdAt: string, id: string): seq<Work>
  {
    if listing == [] then []
    else if Before(Work(createdAt, id), listing[0]) then [listing[0]] + After(listing[1..], createdAt, id)
    else After(listing[1..], createdAt, id)
  }

  function First<T>(s: seq<T>, n: nat): seq<T>
  {
    if |s| <= n then s else s[..n]
  }

  /** One page, and the cursor for the next one when this one is full; a cursor without a bar is refused. */
  function Page(listing: seq<Work>, cursor: Option<string>, limit: nat): Result<(seq<Work>, Option<string>), string>
  {
    match cursor
    case None => Ok(WithCursor(First(listing, limit), limit))
    case Some(text) =>
      match ParseCursor(text)
      case None => Err("malformed media cursor")
      case Some((createdAt, id)) => Ok(WithCursor(First(After(listing, createdAt, id), limit), limit))
  }

  function WithCursor(rows: seq<Work>, limit: nat): (seq<Work>, Option<string>)
  {
    (rows, if |rows| == limit && rows != [] then Some(CursorOf(rows[|rows| - 1])) else None)
  }

  lemma {:induction false} LessIsAsymmetric(a: string, b: string)
    requires Less(a, b)
    ensures !Less(b, a) && a != b
  {
    if a != [] && a[0] == b[0] {
      LessIsAsymmetric(a[1..], b[1..]);
    }
  }

  lemma BeforeIsAsymmetric(a: Work, b: Work)
    requires Before(a, b)
    ensures !Before(b, a) && a != b
  {
    if Less(b.createdAt, a.createdAt) {
      LessIsAsymmetric(b.createdAt, a.createdAt);
    } else {
      LessIsAsymmetric(a.id, b.id);
    }
  }

  lemma {:induction false} ParseAppended(createdAt: string, id: string)
    requires '|' !in id
    ensures ParseCursor(createdAt + "|" + id) == Some((createdAt, id))
    decreases |id|
  {
    var text := createdAt + "|" + id;
    if id == [] {
      assert text[..|text| - 1] == createdAt;
    } else {
      assert text[..|text| - 1] == createdAt + "|" + id[..|id| - 1];
      ParseAppended(createdAt, id[..|id| - 1]);
      assert id == id[..|id| - 1] + [id[|id| - 1]];
    }
  }

  lemma {:induction false} ParsedHasNoBar(text: string)
    ensures ParseCursor(text).Some? ==> '|' !in ParseCursor(text).value.1
  {
    if text != [] {
      ParsedHasNoBar(text[..|text| - 1]);
    }
  }

  /** A cursor reads back as the row it was made from exactly when the row's id holds no bar; the
    * timestamp may hold any. */
  lemma CursorRoundTripIff(w: Work)
    ensures ParseCursor(CursorOf(w)) == Some((w.createdAt, w.id)) <==> '|' !in w.id
  {
    ParsedHasNoBar(CursorOf(w));
    if '|' !in w.id {
      ParseAppended(w.createdAt, w.id);
    }
  }

  lemma {:induction false} AfterAll(listing: seq<Work>, w: Work)
    requires forall k :: 0 <= k < |listing| ==> Before(w, listing[k])
    ensures After(listing, w.createdAt, w.id) == listing
  {
    if listing != [] {
      AfterAll(listing[1..], w);
    }
  }

  /** In a sorted listing the rows after row `k` by comparison are the rows after it by position. */
  lemma {:induction false} AfterIsPositional(listing: seq<Work>, k: nat)
    requires Sorted(listing) && k < |listing|
    ensures After(listing, listing[k].createdAt, listing[k].id) == listing[k + 1..]
    decreases k
  {
    var w := listing[k];
    if k == 0 {
      if Before(w, w) {
        BeforeIsAsymmetric(w, w);
      }
      AfterAll(listing[1..], w);
    } else {
      BeforeIsAsymmetric(listing[0], w);
      AfterIsPositional(listing[1..], k - 1);
    }
  }

  /** So each page continues where the one before it ended: nothing is repeated and nothing is missed. */
  lemma PageContinues(listing: seq<Work>, k: nat, limit: nat)
    requires Sorted(listing) && 0 < k <= |listing| && '|' !in listing[k - 1].id
    ensures Page(listing, Some(CursorOf(listing[k - 1])), limit) == Ok(WithCursor(First(listing[k..], limit), limit))
  {
    CursorRoundTripIff(listing[k - 1]);
    AfterIsPositional(listing, k - 1);
  }
}

/** The walk of `bulk_export.rs`: render every eligible work, record each decision, bundle the rest. */
module BulkWalk {
  import opened Wrappers
  import opened Bytes
  import opened Listing
  import Zip
  import Utf8

  datatype Decision = Included(bytes: nat) | Skipped(reason: string)

  /** A row of `bulk_export_items`, of the one export at hand. */
  datatype AuditRow = AuditRow(work: string, decision: Decision)

  datatype Entry = Entry(name: string, bytes: seq<Byte>)

  datatype Failure = Transient | Fatal | Empty

  /** How far the walk came: on, stopped at the byte cap, or at a decision it could not record. */
  datatype Stop = Going | OverBounds | Unrecorded

  datatype Walk = Walk(items: seq<Entry>, skipped: seq<(string, string)>, audit: seq<AuditRow>, total: nat, stop: Stop)

  /** A work's rendered bytes, or why it has none. */
  type Renderer = string -> Result<seq<Byte>, string>

  /** `writes` is how many decisions the database records before it fails, if it does. */
  datatype Limits = Limits(maxItems: int, maxBytes: int, writes: Option<nat>)

  const PAGE: nat := 50

  const START := Walk([], [], [], 0, Going)

  predicate Recordable(w: Walk, limits: Limits)
  {
    limits.writes.None? || |w.audit| < limits.writes.value
  }

  function Visit(w: Walk, id: string, render: Renderer, limits: Limits): Walk
  {
    match render(id)
    case Ok(bytes) =>
      var w' := w.(total := w.total + |bytes|);
      if w'.total > limits.maxBytes then
        var over := w'.(skipped := w.skipped + [(id, "over_bounds")]);
        if Recordable(w, limits)
        then over.(audit := w.audit + [AuditRow(id, Skipped("over_bounds"))], stop := OverBounds)
        else over.(stop := Unrecorded)
      else if Recordable(w, limits) then
        w'.(items := w.items + [Entry(id + ".html", bytes)], audit := w.audit + [AuditRow(id, Included(|bytes|))])
      else w'.(stop := Unrecorded)
    case Err(reason) =>
      var w' := w.(skipped := w.skipped + [(id, reason)]);
      if Recordable(w, limits) then w'.(audit := w.audit + [AuditRow(id, Skipped(reason))])
      else w'.(stop := Unrecorded)
  }

  function VisitAll(w: Walk, works: seq<Work>, render: Renderer, limits: Limits): Walk
    decreases |works|
  {
    if works == [] || !w.stop.Going? then w else VisitAll(Visit(w, works[0].id, render, limits), works[1..], render, limits)
  }

  /** The loop over pages from row `k` on: it ends on a short page, or once enough works are in. */
  function Walked(w: Walk, listing: seq<Work>, k: nat, limit: int, render: Renderer, limits: Limits): Walk
    decreases |listing| - k
  {
    if k >= |listing| then w
    else
      var page := First(listing[k..], PAGE);
      var w' := VisitAll(w, page, render, limits);
      if !w'.stop.Going? || |page| < PAGE || |w'.items| >= limit then w'
      else Walked(w', listing, k + PAGE, limit, render, limits)
  }

  // ---------------------------------------------------------------------------
  // What a list of works should come to
  // ---------------------------------------------------------------------------

  function DecisionFor(id: string, render: Renderer): AuditRow
  {
    match render(id)
    case Ok(bytes) => AuditRow(id, Included(|bytes|))
    case Err(reason) => AuditRow(id, Skipped(reason))
  }

  function Decisions(works: seq<Work>, render: Renderer): (rows: seq<AuditRow>)
    ensures |rows| == |works|
    ensures forall k :: 0 <= k < |works| ==> rows[k] == DecisionFor(works[k].id, render)
  {
    if works == [] then [] else [DecisionFor(works[0].id, render)] + Decisions(works[1..], render)
  }

  function Rendered(works: seq<Work>, render: Renderer): seq<Entry>
  {
    if works == [] then []
    else (match render(works[0].id)
          case Ok(bytes) => [Entry(works[0].id + ".html", bytes)]
          case Err(_) => [])
         + Rendered(works[1..], render)
  }

  function Refused(works: seq<Work>, render: Renderer): seq<(string, string)>
  {
    if works == [] then []
    else (match render(works[0].id)
          case Ok(_) => []
          case Err(reason) => [(works[0].id, reason)])
         + Refused(works[1..], render)
  }

  function TotalBytes(items: seq<Entry>): nat
  {
    if items == [] then 0 else |items[0].bytes| + TotalBytes(items[1..])
  }

  /** The walk over `works` finishes exactly when what renders fits the byte cap and every decision can
    * be recorded. */
  ghost predicate CanFinish(w: Walk, works: seq<Work>, render: Renderer, limits: Limits)
  {
    && (Rendered(works, render) == [] || w.total + TotalBytes(Rendered(works, render)) <= limits.maxBytes)
    && (works == [] || limits.writes.None? || |w.audit| + |works| <= limits.writes.value)
  }

  /** One work at the front of the reference lists. */
  lemma ListsUnfold(works: seq<Work>, render: Renderer)
    requires works != []
    ensures Decisions(works, render) == [DecisionFor(works[0].id, render)] + Decisions(works[1..], render)
    ensures render(works[0].id).Ok? ==>
      && Rendered(works, render) == [Entry(works[0].id + ".html", render(works[0].id).value)] + Rendered(works[1..], render)
      && TotalBytes(Rendered(works, render)) == |render(works[0].id).value| + TotalBytes(Rendered(works[1..], render))
      && Refused(works, render) == Refused(works[1..], render)
    ensures render(works[0].id).Err? ==>
      && Rendered(works, render) == Rendered(works[1..], render)
      && Refused(works, render) == [(works[0].id, render(works[0].id).error)] + Refused(works[1..], render)
  {
    if render(works[0].id).Ok? {
      assert Rendered(works, render)[1..] == Rendered(works[1..], render);
    }
  }

  lemma {:induction false} VisitAllIff(w: Walk, works: seq<Work>, render: Renderer, limits: Limits)
    requires w.stop.Going?
    ensures VisitAll(w, works, render, limits).stop.Going? <==> CanFinish(w, works, render, limits)
    decreases |works|
  {
    hide Decisions, Refused, Rendered, TotalBytes;
    EmptyLists([], render);
    if works != [] {
      var w' := Visit(w, works[0].id, render, limits);
      ListsUnfold(works, render);
      if w'.stop.Going? {
        VisitAllIff(w', works[1..], render, limits);
      }
    }
  }

  /** When it finishes, every work has its decision, in order, and the lists and the byte total are
    * those of the works that rendered and of those that did not. */
  lemma {:induction false} VisitAllDecides(w: Walk, works: seq<Work>, render: Renderer, limits: Limits)
    requires w.stop.Going? && VisitAll(w, works, render, limits).stop.Going?
    ensures VisitAll(w, works, render, limits)
         == Walk(w.items + Rendered(works, render), w.skipped + Refused(works, render),
                 w.audit + Decisions(works, render), w.total + TotalBytes(Rendered(works, render)), Going)
    decreases |works|
  {
    hide Decisions, Refused, Rendered, TotalBytes;
    if works == [] {
      EmptyLists(works, render);
    } else {
      var w' := Visit(w, works[0].id, render, limits);
      VisitAllDecides(w', works[1..], render, limits);
      ListsUnfold(works, render);
      VisitGoing(w, works[0].id, render, limits);
    }
  }

  lemma EmptyLists(works: seq<Work>, render: Renderer)
    requires works == []
    ensures Rendered(works, render) == [] && Refused(works, render) == [] && Decisions(works, render) == []
    ensures TotalBytes([]) == 0
  {
  }

  lemma VisitGoing(w: Walk, id: string, render: Renderer, limits: Limits)
    requires Visit(w, id, render, limits).stop.Going?
    ensures var w' := Visit(w, id, render, limits);
      && w'.audit == w.audit + [DecisionFor(id, render)]
      && (render(id).Ok? ==> w'.items == w.items + [Entry(id + ".html", render(id).value)] && w'.skipped == w.skipped
                             && w'.total == w.total + |render(id).value|)
      && (render(id).Err? ==> w'.items == w.items && w'.skipped == w.skipped + [(id, render(id).error)] && w'.total == w.total)
  {
  }

  /** What a stopped walk has recorded: the decisions of the first works, and for the one that went
    * over the cap a refusal. */
  ghost predicate RecordedSo(before: seq<AuditRow>, w: Walk, works: seq<Work>, n: nat, render: Renderer)
  {
    if w.stop.OverBounds? then
      && 0 < n <= |works|
      && w.audit == before + Decisions(works[..n - 1], render) + [AuditRow(works[n - 1].id, Skipped("over_bounds"))]
    else n <= |works| && w.audit == before + Decisions(works[..n], render)
  }

  lemma VisitStops(w: Walk, works: seq<Work>, render: Renderer, limits: Limits) returns (n: nat)
    requires w.stop.Going? && works != [] && !Visit(w, works[0].id, render, limits).stop.Going?
    ensures RecordedSo(w.audit, Visit(w, works[0].id, render, limits), works, n, render)
  {
    n := if Visit(w, works[0].id, render, limits).stop.OverBounds? then 1 else 0;
    assert Decisions(works[..0], render) == [];
  }

  lemma DecisionsCons(works: seq<Work>, m: nat, before: seq<AuditRow>, render: Renderer)
    requires 0 < m <= |works|
    ensures before + [DecisionFor(works[0].id, render)] + Decisions(works[1..][..m - 1], render)
         == before + Decisions(works[..m], render)
  {
    hide Decisions, DecisionFor, Rendered, Refused;
    assert works[1..][..m - 1] == works[..m][1..];
    ListsUnfold(works[..m], render);
    var first, rest := [DecisionFor(works[0].id, render)], Decisions(works[..m][1..], render);
    assert before + first + rest == before + (first + rest);
  }

  lemma RecordedCons(before: seq<AuditRow>, w: Walk, works: seq<Work>, n: nat, render: Renderer)
    requires works != []
    requires RecordedSo(before + [DecisionFor(works[0].id, render)], w, works[1..], n, render)
    ensures RecordedSo(before, w, works, n + 1, render)
  {
    hide Decisions, DecisionFor;
    if w.stop.OverBounds? {
      DecisionsCons(works, n, before, render);
      assert works[1..][n - 1] == works[n];
    } else {
      DecisionsCons(works, n + 1, before, render);
    }
  }

  lemma {:induction false} VisitAllRecords(w: Walk, works: seq<Work>, render: Renderer, limits: Limits) returns (n: nat)
    requires w.stop.Going?
    ensures RecordedSo(w.audit, VisitAll(w, works, render, limits), works, n, render)
    decreases |works|
  {
    hide Visit, RecordedSo, Decisions;
    if works == [] {
      n := 0;
      NothingRecorded(w, works, render);
    } else if Visit(w, works[0].id, render, limits).stop.Going? {
      n := VisitAllRecords(Visit(w, works[0].id, render, limits), works[1..], render, limits);
      VisitGoing(w, works[0].id, render, limits);
      RecordedCons(w.audit, VisitAll(w, works, render, limits), works, n, render);
      n := n + 1;
    } else {
      n := VisitStops(w, works, render, limits);
    }
  }

  lemma NothingRecorded(w: Walk, works: seq<Work>, render: Renderer)
    requires works == [] && w.stop.Going?
    ensures RecordedSo(w.audit, w, works, 0, render)
  {
  }

  lemma {:induction false} VisitAllConcat(w: Walk, a: seq<Work>, b: seq<Work>, render: Renderer, limits: Limits)
    ensures VisitAll(w, a + b, render, limits) == VisitAll(VisitAll(w, a, render, limits), b, render, limits)
    decreases |a|
  {
    hide Visit;
    if a == [] {
      assert a + b == b;
    } else {
      assert (a + b)[1..] == a[1..] + b;
      VisitAllConcat(Visit(w, a[0].id, render, limits), a[1..], b, render, limits);
    }
  }

  // ---------------------------------------------------------------------------
  // The paged walk
  // ---------------------------------------------------------------------------

  /** The pages come to one walk over the first `n` works, and it leaves works out only when it was
    * stopped or already holds `limit` of them. */
  lemma {:induction false} WalkedIsAPrefix(w: Walk, listing: seq<Work>, k: nat, limit: int, render: Renderer, limits: Limits)
    returns (n: nat)
    requires w.stop.Going? && k <= |listing|
    ensures k <= n <= |listing|
    ensures Walked(w, listing, k, limit, render, limits) == VisitAll(w, listing[k..n], render, limits)
    ensures n < |listing| ==>
              !Walked(w, listing, k, limit, render, limits).stop.Going?
              || |Walked(w, listing, k, limit, render, limits).items| >= limit
    decreases |listing| - k
  {
    hide Visit;
    if k >= |listing| {
      n := k;
      assert listing[k..n] == [];
    } else {
      var page := First(listing[k..], PAGE);
      var w' := VisitAll(w, page, render, limits);
      if !w'.stop.Going? || |page| < PAGE || |w'.items| >= limit {
        n := k + |page|;
        assert listing[k..n] == page;
      } else {
        n := WalkedIsAPrefix(w', listing, k + PAGE, limit, render, limits);
        assert page + listing[k + PAGE..n] == listing[k..n];
        VisitAllConcat(w, page, listing[k + PAGE..n], render, limits);
      }
    }
  }

  lemma {:induction false} RenderedAtMost(works: seq<Work>, render: Renderer)
    ensures |Rendered(works, render)| <= |works|
  {
    if works != [] {
      RenderedAtMost(works[1..], render);
    }
  }

  /** When the listing is no longer than the preflight count, the pages and the early exit make no
    * difference: it is one walk over the whole listing. */
  lemma WalkIsComplete(listing: seq<Work>, limit: int, render: Renderer, limits: Limits)
    requires |listing| <= limit
    ensures Walked(START, listing, 0, limit, render, limits) == VisitAll(START, listing, render, limits)
  {
    var n := WalkedIsAPrefix(START, listing, 0, limit, render, limits);
    assert listing[0..n] + listing[n..] == listing;
    VisitAllConcat(START, listing[0..n], listing[n..], render, limits);
    if n < |listing| && Walked(START, listing, 0, limit, render, limits).stop.Going? {
      VisitAllDecides(START, listing[0..n], render, limits);
      RenderedAtMost(listing[0..n], render);
    }
  }

  /** A walk that finishes over such a listing records one decision for every work and no other, and
    * bundles what rendered, within the byte cap. */
  lemma EveryWorkDecidedOnce(listing: seq<Work>, limit: int, render: Renderer, limits: Limits)
    requires |listing| <= limit
    requires Walked(START, listing, 0, limit, render, limits).stop.Going?
    ensures var w := Walked(START, listing, 0, limit, render, limits);
      && w.audit == Decisions(listing, render)
      && w.items == Rendered(listing, render) && w.skipped == Refused(listing, render)
      && w.total == TotalBytes(w.items) && (w.items == [] || w.total <= limits.maxBytes)
      && |w.audit| == |listing|
      && forall k :: 0 <= k < |listing| ==>
           var made := render(listing[k].id);
           w.audit[k] == AuditRow(listing[k].id, if made.Ok? then Included(|made.value|) else Skipped(made.error))
  {
    hide VisitAll;
    WalkIsComplete(listing, limit, render, limits);
    VisitAllDecides(START, listing, render, limits);
    VisitAllIff(START, listing, render, limits);
  }

  /** Before each of the page boundaries from `k` on up to `to`, fewer than `limit` works have rendered. */
  ghost predicate RoomUntil(listing: seq<Work>, k: nat, to: nat, limit: int, render: Renderer)
    requires to <= |listing|
  {
    forall j :: k < j < to && j % PAGE == 0 ==> |Rendered(listing[..j], render)| < limit
  }

  /** The walk over the first `k` works, when it has not been stopped. */
  lemma PrefixWalk(listing: seq<Work>, k: nat, render: Renderer, limits: Limits)
    requires k <= |listing| && VisitAll(START, listing[..k], render, limits).stop.Going?
    ensures var w := VisitAll(START, listing[..k], render, limits);
      w.items == Rendered(listing[..k], render) && w.audit == Decisions(listing[..k], render)
  {
    VisitAllDecides(START, listing[..k], render, limits);
  }

  lemma NextPage(listing: seq<Work>, k: nat, render: Renderer, limits: Limits)
    requires k <= |listing|
    ensures var page := First(listing[k..], PAGE);
      && k + |page| <= |listing|
      && VisitAll(VisitAll(START, listing[..k], render, limits), page, render, limits)
         == VisitAll(START, listing[..k + |page|], render, limits)
  {
    var page := First(listing[k..], PAGE);
    assert listing[..k] + page == listing[..k + |page|];
    VisitAllConcat(START, listing[..k], page, render, limits);
  }

  /** From a page boundary on, a walk that finishes decides every work exactly when no later boundary
    * inside the listing finds `limit` works rendered. */
  lemma {:induction false} FinishesWholeIff(listing: seq<Work>, k: nat, limit: int, render: Renderer, limits: Limits)
    requires k <= |listing| && k % PAGE == 0
    requires var w := VisitAll(START, listing[..k], render, limits);
      w.stop.Going? && Walked(w, listing, k, limit, render, limits).stop.Going?
    ensures var w := VisitAll(START, listing[..k], render, limits);
      Walked(w, listing, k, limit, render, limits).audit == Decisions(listing, render)
      <==> RoomUntil(listing, k, |listing|, limit, render)
    decreases |listing| - k
  {
    hide VisitAll, Rendered, Decisions;
    var w := VisitAll(START, listing[..k], render, limits);
    assert listing[..|listing|] == listing;
    if k == |listing| {
      PrefixWalk(listing, k, render, limits);
    } else {
      var page := First(listing[k..], PAGE);
      var j := k + |page|;
      NextPage(listing, k, render, limits);
      PrefixWalk(listing, j, render, limits);
      NoBoundaryBetween(k, j);
      if |page| == PAGE && |Rendered(listing[..j], render)| < limit {
        FinishesWholeIff(listing, j, limit, render, limits);
      }
    }
  }

  lemma NoBoundaryBetween(k: nat, j: nat)
    requires k % PAGE == 0 && k <= j <= k + PAGE
    ensures forall i :: k < i < j ==> i % PAGE != 0
    ensures j == k + PAGE ==> j % PAGE == 0
  {
  }

  /** When a finished walk has decided every work: if and only if at no page boundary inside the listing
    * had `limit` works rendered, however long the listing is. */
  lemma AllDecidedIff(listing: seq<Work>, limit: int, render: Renderer, limits: Limits)
    requires Walked(START, listing, 0, limit, render, limits).stop.Going?
    ensures Walked(START, listing, 0, limit, render, limits).audit == Decisions(listing, render)
       <==> forall j :: 0 < j < |listing| && j % PAGE == 0 ==> |Rendered(listing[..j], render)| < limit
  {
    hide Walked, Decisions, Rendered;
    assert VisitAll(START, listing[..0], render, limits) == START;
    FinishesWholeIff(listing, 0, limit, render, limits);
  }

  lemma {:induction false} CutOffAt(listing: seq<Work>, k: nat, j: nat, limit: int, render: Renderer, limits: Limits)
    requires k < j < |listing| && k % PAGE == 0 && j % PAGE == 0
    requires RoomUntil(listing, k, j, limit, render) && |Rendered(listing[..j], render)| >= limit
    requires VisitAll(START, listing[..j], render, limits).stop.Going?
    ensures Walked(VisitAll(START, listing[..k], render, limits), listing, k, limit, render, limits)
         == VisitAll(START, listing[..j], render, limits)
    decreases j - k
  {
    hide VisitAll, Rendered;
    var m := k + PAGE;
    assert m <= j;
    GoingBefore(listing, m, j, render, limits);
    NextPage(listing, k, render, limits);
    PrefixWalk(listing, m, render, limits);
    assert |First(listing[k..], PAGE)| == PAGE;
    if m < j {
      CutOffAt(listing, m, j, limit, render, limits);
    }
  }

  lemma GoingBefore(listing: seq<Work>, k: nat, j: nat, render: Renderer, limits: Limits)
    requires k <= j <= |listing| && VisitAll(START, listing[..j], render, limits).stop.Going?
    ensures VisitAll(START, listing[..k], render, limits).stop.Going?
  {
    assert listing[..j] == listing[..k] + listing[k..j];
    VisitAllConcat(START, listing[..k], listing[k..j], render, limits);
  }

  /** Otherwise it has decided the works up to the first such boundary and no other. */
  lemma GrownListingIsCutOff(listing: seq<Work>, j: nat, limit: int, render: Renderer, limits: Limits)
    requires 0 < j < |listing| && j % PAGE == 0 && |Rendered(listing[..j], render)| >= limit
    requires forall i :: 0 < i < j && i % PAGE == 0 ==> |Rendered(listing[..i], render)| < limit
    requires CanFinish(START, listing[..j], render, limits)
    ensures Walked(START, listing, 0, limit, render, limits).stop.Going?
    ensures Walked(START, listing, 0, limit, render, limits).audit == Decisions(listing[..j], render)
  {
    hide Walked, Decisions, Rendered;
    VisitAllIff(START, listing[..j], render, limits);
    assert VisitAll(START, listing[..0], render, limits) == START;
    CutOffAt(listing, 0, j, limit, render, limits);
    PrefixWalk(listing, j, render, limits);
  }

  // ---------------------------------------------------------------------------
  // A walk taken up again
  // ---------------------------------------------------------------------------

  function RowsFor(audit: seq<AuditRow>, id: string): nat
  {
    if audit == [] then 0 else (if audit[0].work == id then 1 else 0) + RowsFor(audit[1..], id)
  }

  lemma {:induction false} RowsForConcat(a: seq<AuditRow>, b: seq<AuditRow>, id: string)
    ensures RowsFor(a + b, id) == RowsFor(a, id) + RowsFor(b, id)
  {
    if a == [] {
      assert a + b == b;
    } else {
      assert (a + b)[1..] == a[1..] + b;
      RowsForConcat(a[1..], b, id);
    }
  }

  lemma {:induction false} UndecidedHasNoRow(works: seq<Work>, id: string, render: Renderer)
    requires forall i :: 0 <= i < |works| ==> works[i].id != id
    ensures RowsFor(Decisions(works, render), id) == 0
  {
    hide Decisions;
    if works == [] {
      EmptyLists(works, render);
    } else {
      ListsUnfold(works, render);
      UndecidedHasNoRow(works[1..], id, render);
      assert ([DecisionFor(works[0].id, render)] + Decisions(works[1..], render))[1..] == Decisions(works[1..], render);
    }
  }

  lemma {:induction false} DecidedHasOneRow(works: seq<Work>, k: nat, render: Renderer)
    requires k < |works| && forall i, j :: 0 <= i < j < |works| ==> works[i].id != works[j].id
    ensures RowsFor(Decisions(works, render), works[k].id) == 1
    decreases |works|
  {
    hide Decisions;
    ListsUnfold(works, render);
    var rows := Decisions(works[1..], render);
    assert ([DecisionFor(works[0].id, render)] + rows)[1..] == rows;
    if k == 0 {
      UndecidedHasNoRow(works[1..], works[0].id, render);
    } else {
      DecidedHasOneRow(works[1..], k - 1, render);
    }
  }

  lemma PrefixRowsTwice(works: seq<Work>, n: nat, k: nat, render: Renderer)
    requires n <= |works| && k < |works|
    requires forall i, j :: 0 <= i < j < |works| ==> works[i].id != works[j].id
    ensures RowsFor(Decisions(works[..n], render) + Decisions(works, render), works[k].id) == if k < n then 2 else 1
  {
    RowsForConcat(Decisions(works[..n], render), Decisions(works, render), works[k].id);
    DecidedHasOneRow(works, k, render);
    if k < n {
      DecidedHasOneRow(works[..n], k, render);
    } else {
      UndecidedHasNoRow(works[..n], works[k].id, render);
    }
  }

  /** Decisions are only ever added, and an export whose attempt died part-way, or recorded everything and
    * then could not store its archive, is still `running`. A second attempt that finishes then leaves two
    * decisions for exactly the works the first one had decided: all of them in the second case. (At the
    * byte cap an attempt ends `failed`, and is not taken up again.) */
  lemma RedeliveryDecidesTwice(listing: seq<Work>, limit: int, render: Renderer, cut: Limits, again: Limits, k: nat)
    requires |listing| <= limit && k < |listing|
    requires forall i, j :: 0 <= i < j < |listing| ==> listing[i].id != listing[j].id
    requires !Walked(START, listing, 0, limit, render, cut).stop.OverBounds?
    requires Walked(START, listing, 0, limit, render, again).stop.Going?
    ensures var first := Walked(START, listing, 0, limit, render, cut).audit;
      var rows := first + Walked(START, listing, 0, limit, render, again).audit;
      RowsFor(rows, listing[k].id) == if k < |first| then 2 else 1
  {
    hide VisitAll, Visit;
    WalkIsComplete(listing, limit, render, cut);
    EveryWorkDecidedOnce(listing, limit, render, again);
    var n := VisitAllRecords(START, listing, render, cut);
    var first := Walked(START, listing, 0, limit, render, cut).audit;
    assert first == Decisions(listing[..n], render);
    PrefixRowsTwice(listing, n, k, render);
  }

  // ---------------------------------------------------------------------------
  // The manifest
  // ---------------------------------------------------------------------------

  datatype Manifest = Manifest(included: seq<(string, string, nat)>, skipped: seq<(string, string)>)

  predicate EndsInHtml(s: string)
  {
    |s| >= 5 && s[|s| - 5..] == ".html"
  }

  /** `trim_end_matches(".html")`: every one of them, not just the last. */
  function TrimHtml(s: string): (t: string)
    decreases |s|
  {
    if EndsInHtml(s) then TrimHtml(s[..|s| - 5]) else s
  }

  function BuildManifest(items: seq<Entry>, skipped: seq<(string, string)>): Manifest
  {
    Manifest(ManifestItems(items), skipped)
  }

  function ManifestItems(items: seq<Entry>): seq<(string, string, nat)>
  {
    if items == [] then []
    else [(TrimHtml(items[0].name), items[0].name, |items[0].bytes|)] + ManifestItems(items[1..])
  }

  /** What the audit rows say the manifest should be. */
  function AuditedManifest(audit: seq<AuditRow>): Manifest
  {
    if audit == [] then Manifest([], [])
    else
      var rest := AuditedManifest(audit[1..]);
      match audit[0].decision
      case Included(n) => rest.(included := [(audit[0].work, audit[0].work + ".html", n)] + rest.included)
      case Skipped(reason) => rest.(skipped := [(audit[0].work, reason)] + rest.skipped)
  }

  lemma {:induction false} TrimNeverGrows(s: string)
    ensures |TrimHtml(s)| <= |s|
    decreases |s|
  {
    if EndsInHtml(s) {
      TrimNeverGrows(s[..|s| - 5]);
    }
  }

  lemma TrimNameIff(id: string)
    ensures TrimHtml(id + ".html") == id <==> !EndsInHtml(id)
  {
    var name := id + ".html";
    assert name[|name| - 5..] == ".html" && name[..|name| - 5] == id;
    if EndsInHtml(id) {
      TrimNeverGrows(id[..|id| - 5]);
    }
  }

  lemma ManifestCons(e: Entry, items: seq<Entry>)
    ensures ManifestItems([e] + items) == [(TrimHtml(e.name), e.name, |e.bytes|)] + ManifestItems(items)
  {
    assert ([e] + items)[1..] == items;
  }

  lemma AuditedCons(row: AuditRow, rows: seq<AuditRow>)
    ensures var rest := AuditedManifest(rows);
      AuditedManifest([row] + rows) ==
      match row.decision
      case Included(n) => Manifest([(row.work, row.work + ".html", n)] + rest.included, rest.skipped)
      case Skipped(reason) => Manifest(rest.included, [(row.work, reason)] + rest.skipped)
  {
    assert ([row] + rows)[1..] == rows;
  }

  /** The manifest mirrors the audit rows exactly when no included work's own id ends in `.html`. */
  lemma {:induction false} ManifestMirrorsAuditIff(works: seq<Work>, render: Renderer)
    ensures BuildManifest(Rendered(works, render), Refused(works, render)) == AuditedManifest(Decisions(works, render))
       <==> forall k :: 0 <= k < |works| && render(works[k].id).Ok? ==> !EndsInHtml(works[k].id)
  {
    hide TrimHtml, EndsInHtml, Rendered, Refused, Decisions, ManifestItems, AuditedManifest;
    if works == [] {
      EmptyLists(works, render);
      NothingListed();
    } else {
      var id, rest := works[0].id, works[1..];
      ListsUnfold(works, render);
      ManifestMirrorsAuditIff(rest, render);
      AuditedCons(DecisionFor(id, render), Decisions(rest, render));
      assert works == [works[0]] + rest;
      if render(id).Ok? {
        TrimNameIff(id);
        var e := Entry(id + ".html", render(id).value);
        ManifestCons(e, Rendered(rest, render));
        SameHead((TrimHtml(e.name), e.name, |e.bytes|), (id, id + ".html", |e.bytes|),
                 ManifestItems(Rendered(rest, render)), AuditedManifest(Decisions(rest, render)).included);
      } else {
        SameHead((id, render(id).error), (id, render(id).error),
                 Refused(rest, render), AuditedManifest(Decisions(rest, render)).skipped);
      }
    }
  }

  lemma SameHead<T>(x: T, y: T, xs: seq<T>, ys: seq<T>)
    ensures [x] + xs == [y] + ys <==> x == y && xs == ys
  {
    assert ([x] + xs)[1..] == xs && ([y] + ys)[1..] == ys;
    assert ([x] + xs)[0] == x && ([y] + ys)[0] == y;
  }

  lemma NothingListed()
    ensures ManifestItems([]) == [] && AuditedManifest([]) == Manifest([], [])
  {
  }

  // ---------------------------------------------------------------------------
  // `produce_bulk`
  // ---------------------------------------------------------------------------

  function ZipItems(items: seq<Entry>): seq<Zip.Item>
  {
    if items == [] then [] else [Zip.Item(Utf8.Encode(items[0].name), items[0].bytes)] + ZipItems(items[1..])
  }

  /** The archive's members: the works, then the manifest. */
  function Bundle(w: Walk, toJson: Manifest -> seq<Byte>): seq<Zip.Item>
  {
    ZipItems(w.items + [Entry("manifest.json", toJson(BuildManifest(w.items, w.skipped)))])
  }

  /** Member by member: each entry under its name's bytes, with its own. */
  lemma {:induction false} ZipItemsAre(items: seq<Entry>)
    ensures var z := ZipItems(items);
      |z| == |items| && forall k :: 0 <= k < |z| ==> z[k] == Zip.Item(Utf8.Encode(items[k].name), items[k].bytes)
    decreases |items|
  {
    hide Utf8.Encode;
    if items != [] {
      ZipItemsAre(items[1..]);
    }
  }

  lemma BundleIs(w: Walk, toJson: Manifest -> seq<Byte>)
    ensures var b := Bundle(w, toJson);
      && |b| == |w.items| + 1
      && (forall k :: 0 <= k < |w.items| ==> b[k] == Zip.Item(Utf8.Encode(w.items[k].name), w.items[k].bytes))
      && b[|w.items|] == Zip.Item(Utf8.Encode("manifest.json"), toJson(BuildManifest(w.items, w.skipped)))
  {
    hide Utf8.Encode, ZipItems, BuildManifest;
    ZipItemsAre(w.items + [Entry("manifest.json", toJson(BuildManifest(w.items, w.skipped)))]);
  }

  /** The place of a work among those that rendered. */
  lemma {:induction false} RenderedAt(works: seq<Work>, render: Renderer, k: nat)
    requires k < |works| && render(works[k].id).Ok?
    ensures var at := |Rendered(works[..k], render)|;
      at < |Rendered(works, render)| && Rendered(works, render)[at] == Entry(works[k].id + ".html", render(works[k].id).value)
    decreases |works|
  {
    if k == 0 {
      assert works[..0] == [];
    } else {
      RenderedAt(works[1..], render, k - 1);
      assert works[..k][1..] == works[1..][..k - 1];
    }
  }

  lemma {:induction false} OnlyRendered(works: seq<Work>, render: Renderer, e: Entry)
    requires e in Rendered(works, render)
    ensures exists k :: 0 <= k < |works| && render(works[k].id).Ok?
                        && e == Entry(works[k].id + ".html", render(works[k].id).value)
    decreases |works|
  {
    if render(works[0].id).Err? || e in Rendered(works[1..], render) {
      OnlyRendered(works[1..], render, e);
      var k :| 0 <= k < |works[1..]| && render(works[1..][k].id).Ok?
               && e == Entry(works[1..][k].id + ".html", render(works[1..][k].id).value);
      assert works[k + 1] == works[1..][k];
    }
  }

  /** So every listed work that renders is a member of the bundle, in the listing's order, under its id and
    * `.html`, with exactly the bytes it rendered to; and but for the manifest, last, there is no other. */
  lemma EveryRenderedWorkIsBundled(listing: seq<Work>, limit: int, render: Renderer, limits: Limits,
                                   toJson: Manifest -> seq<Byte>)
    requires |listing| <= limit
    requires Walked(START, listing, 0, limit, render, limits).stop.Going?
    ensures var b := Bundle(Walked(START, listing, 0, limit, render, limits), toJson);
      && (forall k :: 0 <= k < |listing| && render(listing[k].id).Ok? ==>
            var at := |Rendered(listing[..k], render)|;
            at < |b| - 1 && b[at] == Zip.Item(Utf8.Encode(listing[k].id + ".html"), render(listing[k].id).value))
      && (forall j :: 0 <= j < |b| - 1 ==>
            exists k :: (&& 0 <= k < |listing| && render(listing[k].id).Ok?
                         && b[j] == Zip.Item(Utf8.Encode(listing[k].id + ".html"), render(listing[k].id).value)))
  {
    hide Utf8.Encode, Bundle, Walked, Rendered, Decisions, Refused, TotalBytes;
    var w := Walked(START, listing, 0, limit, render, limits);
    EveryWorkDecidedOnce(listing, limit, render, limits);
    BundleIs(w, toJson);
    forall k | 0 <= k < |listing| && render(listing[k].id).Ok?
      ensures var at := |Rendered(listing[..k], render)|;
        at < |w.items| && w.items[at] == Entry(listing[k].id + ".html", render(listing[k].id).value)
    {
      RenderedAt(listing, render, k);
    }
    forall j | 0 <= j < |w.items|
      ensures exists k :: (&& 0 <= k < |listing| && render(listing[k].id).Ok?
                           && w.items[j] == Entry(listing[k].id + ".html", render(listing[k].id).value))
    {
      OnlyRendered(listing, render, w.items[j]);
    }
  }

  // ---------------------------------------------------------------------------
  // Bundles that fit the archive
  // ---------------------------------------------------------------------------

  lemma {:induction false} TotalSizeCons(x: Zip.Item, items: seq<Zip.Item>)
    ensures Zip.TotalSize([x] + items) == 76 + 2 * |x.name| + |x.data| + Zip.TotalSize(items)
    decreases |items|
  {
    var all := [x] + items;
    if items == [] {
      assert all[..0] == [] && all == [x];
    } else {
      assert all[..|all| - 1] == [x] + items[..|items| - 1];
      TotalSizeCons(x, items[..|items| - 1]);
    }
  }

  ghost predicate ShortNames(items: seq<Entry>, n: nat)
  {
    forall e :: e in items ==> |Utf8.Encode(e.name)| <= n
  }

  lemma {:induction false} ZipItemsAreSmall(items: seq<Entry>, n: nat)
    requires ShortNames(items, n)
    ensures var z := ZipItems(items);
      && |z| == |items| && (forall k :: 0 <= k < |z| ==> |z[k].name| <= n)
      && Zip.TotalSize(z) <= 22 + |items| * (76 + 2 * n) + TotalBytes(items)
    decreases |items|
  {
    hide Utf8.Encode;
    if items != [] {
      var rest := items[1..];
      assert items[0] in items && forall e :: e in rest ==> e in items;
      ZipItemsAreSmall(rest, n);
      TotalSizeCons(Zip.Item(Utf8.Encode(items[0].name), items[0].bytes), ZipItems(rest));
      Distribute(|rest|, 76 + 2 * n);
    } else {
      assert ZipItems(items) == [];
    }
  }

  lemma Distribute(k: nat, each: nat)
    ensures (k + 1) * each == k * each + each
  {
  }

  lemma AtMost(k: nat, most: nat, each: nat)
    requires k <= most
    ensures k * each <= most * each
  {
  }

  lemma {:induction false} BytesAdd(items: seq<Entry>, last: Entry)
    ensures TotalBytes(items + [last]) == TotalBytes(items) + |last.bytes|
    decreases |items|
  {
    if items == [] {
      assert items + [last] == [last] && [last][1..] == [];
    } else {
      assert (items + [last])[1..] == items[1..] + [last];
      BytesAdd(items[1..], last);
    }
  }

  lemma {:induction false} RenderedNames(works: seq<Work>, render: Renderer, n: nat)
    requires forall k :: 0 <= k < |works| ==> |Utf8.Encode(works[k].id + ".html")| <= n
    ensures ShortNames(Rendered(works, render), n)
    decreases |works|
  {
    hide Utf8.Encode;
    if works != [] {
      RenderedNames(works[1..], render, n);
    }
  }

  /** The pages never hold more than one page too many. */
  lemma {:induction false} HoldsAtMost(w: Walk, listing: seq<Work>, k: nat, limit: int, render: Renderer, limits: Limits)
    requires w.stop.Going? && |w.items| < limit
    requires Walked(w, listing, k, limit, render, limits).stop.Going?
    ensures |Walked(w, listing, k, limit, render, limits).items| < limit + PAGE
    decreases |listing| - k
  {
    hide VisitAll;
    if k < |listing| {
      var page := First(listing[k..], PAGE);
      var w' := VisitAll(w, page, render, limits);
      if w'.stop.Going? {
        VisitAllDecides(w, page, render, limits);
        RenderedAtMost(page, render);
        if |page| == PAGE && |w'.items| < limit {
          HoldsAtMost(w', listing, k + PAGE, limit, render, limits);
        }
      }
    }
  }

  /** With the caps on works and bytes and a bound on the names, an archive a finished walk gives fits, and so
    * reads back: 22 bytes, 76 and twice the longest name for each work and the manifest, and the bytes
    * themselves have to stay below 4 GiB. */
  lemma FinishedBundleFits(listing: seq<Work>, limit: int, render: Renderer, limits: Limits,
                           toJson: Manifest -> seq<Byte>, n: nat)
    requires 0 < limit && limit + PAGE < 0x1_0000 && n < 0x1_0000
    requires Walked(START, listing, 0, limit, render, limits).stop.Going?
    requires Walked(START, listing, 0, limit, render, limits).items != []
    requires |Utf8.Encode("manifest.json")| <= n
    requires forall k :: 0 <= k < |listing| ==> |Utf8.Encode(listing[k].id + ".html")| <= n
    requires var w := Walked(START, listing, 0, limit, render, limits);
      22 + (limit + PAGE) * (76 + 2 * n) + limits.maxBytes + |toJson(BuildManifest(w.items, w.skipped))| < 0x1_0000_0000
    ensures Zip.Fits(Bundle(Walked(START, listing, 0, limit, render, limits), toJson))
  {
    hide VisitAll, Walked, Utf8.Encode, ZipItems, BuildManifest, Rendered, TotalBytes, Zip.Fits, Zip.TotalSize;
    var w := Walked(START, listing, 0, limit, render, limits);
    var k := WalkedIsAPrefix(START, listing, 0, limit, render, limits);
    var works := listing[0..k];
    VisitAllDecides(START, works, render, limits);
    VisitAllIff(START, works, render, limits);
    HoldsAtMost(START, listing, 0, limit, render, limits);
    RenderedNames(works, render, n);
    var manifest := Entry("manifest.json", toJson(BuildManifest(w.items, w.skipped)));
    assert w.items == [] + Rendered(works, render) == Rendered(works, render);
    var all := w.items + [manifest];
    BytesAdd(w.items, manifest);
    ZipItemsAreSmall(all, n);
    AtMost(|all|, limit + PAGE, 76 + 2 * n);
    Zip.SmallTotalFits(ZipItems(all));
  }

  // ---------------------------------------------------------------------------
  // The audit table
  // ---------------------------------------------------------------------------

  predicate WithIds(listing: seq<Work>)
  {
    forall k :: 0 <= k < |listing| ==> '|' !in listing[k].id
  }

  /** The table of decisions: a row a call, until the database fails. */
  class AuditTable {
    var rows: seq<AuditRow>

    /** `produce_bulk`: `eligible` is the preflight count, `listing` what the walk then reads. Decisions
      * are only ever added; what it returns is an archive of exactly what was included, with the manifest. */
    method ProduceBulk(listing: seq<Work>, eligible: nat, render: Renderer, limits: Limits,
                       toJson: Manifest -> seq<Byte>, crcOf: Zip.Crc)
      returns (r: Result<seq<Byte>, Failure>)
      requires Sorted(listing) && WithIds(listing)
      modifies this
      ensures eligible == 0 ==> r == Err(Empty) && rows == old(rows)
      ensures eligible > 0 && eligible > limits.maxItems ==> r == Err(Fatal) && rows == old(rows)
      ensures 0 < eligible <= limits.maxItems ==>
        var w := Walked(START, listing, 0, eligible, render, limits);
        && rows == old(rows) + w.audit
        && match w.stop {
             case OverBounds => r == Err(Fatal)
             case Unrecorded => r == Err(Transient)
             case Going =>
               if w.items == [] then r == Err(Empty)
               else
                 && r.Ok?
                 && (Zip.ReadArchive(r.value, crcOf) == Some(Bundle(w, toJson)) <==> Zip.Fits(Bundle(w, toJson)))
                 && (Zip.Fits(Bundle(w, toJson)) ==>
                       var read := Zip.ReadArchive(r.value, crcOf);
                       && read.Some? && |read.value| == |w.items| + 1
                       && (forall k :: 0 <= k < |w.items| ==>
                             read.value[k] == Zip.Item(Utf8.Encode(w.items[k].name), w.items[k].bytes))
                       && read.value[|w.items|]
                          == Zip.Item(Utf8.Encode("manifest.json"), toJson(BuildManifest(w.items, w.skipped))))
           }
    {
      hide Visit, VisitAll, Before, ParseCursor, After, Zip.Fits, Zip.ReadArchive, ZipItems, BuildManifest, Utf8.Encode;
      if eligible == 0 {
        return Err(Empty);
      }
      if eligible > limits.maxItems {
        return Err(Fatal);
      }
      var items: seq<Entry>, skipped: seq<(string, string)>, totalBytes := [], [], 0;
      var limit := if eligible < limits.maxItems then eligible else limits.maxItems;
      var cursor: Option<string> := None;
      var before := rows;
      ghost var all := Walked(START, listing, 0, limit, render, limits);
      ghost var k := 0;
      ghost var w := START;

      while true
        invariant w.stop.Going? && w.items == items && w.skipped == skipped && w.total == totalBytes
        invariant rows == before + w.audit
        invariant k <= |listing|
        invariant cursor == if k == 0 then None else Some(CursorOf(listing[k - 1]))
        invariant Walked(w, listing, k, limit, render, limits) == all
        decreases |listing| - k
      {
        PageAt(listing, k, cursor);
        var (page, nextCursor) := Page(listing, cursor, PAGE).value;
        if page == [] {
          break;
        }

        var stop;
        ghost var paged := VisitAll(w, page, render, limits);
        items, skipped, totalBytes, stop := VisitPage(page, render, limits, items, skipped, totalBytes, w, before);
        if stop != Going {
          return Err(if stop == OverBounds then Fatal else Transient);
        }
        w := paged;

        cursor := nextCursor;
        if cursor.None? || |items| >= limit {
          break;
        }
        k := k + PAGE;
      }

      assert w == all;
      if items == [] {
        return Err(Empty);
      }
      BundleIs(w, toJson);
      var manifest := BuildManifest(items, skipped);
      var bytes := Zip.BuildZip(ZipItems(items + [Entry("manifest.json", toJson(manifest))]), crcOf);
      return Ok(bytes);
    }

    /** The walk over one page, up to the first decision that ends it. */
    method VisitPage(page: seq<Work>, render: Renderer, limits: Limits, items0: seq<Entry>, skipped0: seq<(string, string)>,
                     totalBytes0: nat, ghost w0: Walk, before: seq<AuditRow>)
      returns (items: seq<Entry>, skipped: seq<(string, string)>, totalBytes: nat, stop: Stop)
      requires w0 == Walk(items0, skipped0, w0.audit, totalBytes0, Going) && rows == before + w0.audit
      modifies this
      ensures var w := VisitAll(w0, page, render, limits);
        && stop == w.stop && rows == before + w.audit
        && (stop.Going? ==> w == Walk(items, skipped, w.audit, totalBytes, Going))
    {
      items, skipped, totalBytes := items0, skipped0, totalBytes0;
      ghost var w, all := w0, VisitAll(w0, page, render, limits);
      for i := 0 to |page|
        invariant w == Walk(items, skipped, w.audit, totalBytes, Going) && rows == before + w.audit
        invariant VisitAll(w, page[i..], render, limits) == all
      {
        var workId := page[i].id;
        ghost var w' := Visit(w, workId, render, limits);
        assert page[i..][0] == page[i] && page[i..][1..] == page[i + 1..];
        match render(workId) {
          case Ok(bytes) =>
            totalBytes := totalBytes + |bytes|;
            if totalBytes > limits.maxBytes {
              skipped := skipped + [(workId, "over_bounds")];
              var ok := Record(AuditRow(workId, Skipped("over_bounds")), |before|, limits.writes);
              return items, skipped, totalBytes, if ok then OverBounds else Unrecorded;
            }
            var ok := Record(AuditRow(workId, Included(|bytes|)), |before|, limits.writes);
            if !ok {
              return items, skipped, totalBytes, Unrecorded;
            }
            items := items + [Entry(workId + ".html", bytes)];
          case Err(reason) =>
            skipped := skipped + [(workId, reason)];
            var ok := Record(AuditRow(workId, Skipped(reason)), |before|, limits.writes);
            if !ok {
              return items, skipped, totalBytes, Unrecorded;
            }
        }
        w := w';
      }
      assert page[|page|..] == [];
      stop := Going;
    }

    /** `record_bulk_item`: the database fails once this attempt, begun at `before` rows, has made all
      * the writes it is allowed. */
    method Record(row: AuditRow, before: nat, writes: Option<nat>) returns (ok: bool)
      requires before <= |rows|
      modifies this
      ensures ok <==> writes.None? || |old(rows)| - before < writes.value
      ensures rows == if ok then old(rows) + [row] else old(rows)
    {
      ok := writes.None? || |rows| - before < writes.value;
      if ok {
        rows := rows + [row];
      }
    }
  }

  /** The page read from row `k` on, whichever cursor stands for it. */
  lemma PageAt(listing: seq<Work>, k: nat, cursor: Option<string>)
    requires Sorted(listing) && WithIds(listing) && k <= |listing|
    requires cursor == if k == 0 then None else Some(CursorOf(listing[k - 1]))
    ensures Page(listing, cursor, PAGE) == Ok(WithCursor(First(listing[k..], PAGE), PAGE))
  {
    if k == 0 {
      assert listing[0..] == listing;
    } else {
      PageContinues(listing, k, PAGE);
    }
  }
}
