/** Export jobs as interleaved steps over rows, a content-addressed blob store and references.
  *
  * Every task is a sequence of statements, and one action executes one statement of one task, so
  * any number of deliveries, sweeps, deletions and other features' writes interleave freely. A
  * task may vanish between any two of its statements: a crash, or a database error it returns on.
  * The blob store is the two-part one of `storage.rs`: a row per checksum and a file per checksum.
  */
module Exports {
  import opened Wrappers

  type ExportId = nat
  type Checksum = nat
  type TaskId = nat

  /** Who keeps a blob alive: an export's own row, or some other feature's resource. */
  datatype Owner = Export(id: ExportId) | Other(tag: nat)

  datatype Ref = Ref(checksum: Checksum, owner: Owner)

  datatype JobState = Queued | Running | Ready | Failed | Cancelled

  datatype Row = Row(state: JobState, output: Option<Checksum>)

  /** A row as the retention query read it, before it is deleted. */
  datatype Purged = Purged(id: ExportId, output: Option<Checksum>)

  /** The statement a task executes next. */
  datatype Next =
    | Find | Mark | Produce | Fail                              // a delivery, up to its artifact
    | Stat(c: Checksum) | Exists(c: Checksum)                   // put: is it held already?
    | WriteFile(c: Checksum) | InsertBlob(c: Checksum)          // put: write beside and rename, then the row
    | AddRef(c: Checksum) | Record(c: Checksum)
    | DeleteRow                                                 // purge_expired, delete_export
    | DropRef(c: Checksum)
    | DeleteBlob(c: Checksum) | RemoveFile(c: Checksum)         // delete_if_unreferenced
    | Release                                                   // sweep: on to the next purged row

  datatype Task =
    | Delivery(id: ExportId, next: Next)
    | Sweep(toDelete: seq<Purged>, deleted: seq<Purged>, next: Next)
    | Forget(id: ExportId, next: Next)
    | Elsewhere(tag: nat, next: Next)

  /** `queued` and `created` are the ids ever enqueued and ever given a row; `forgotten` the ids whose
    * reference a reader's deletion has dropped while the row still stood. */
  datatype State = State(
    queued: set<ExportId>, created: set<ExportId>, forgotten: set<ExportId>,
    rows: map<ExportId, Row>,
    blobs: set<Checksum>, files: set<Checksum>, refs: set<Ref>,
    tasks: map<TaskId, Task>)

  const INIT := State({}, {}, {}, map[], {}, {}, {}, map[])

  /** What the world answers: the artifact or its failure, and whether a reference can be written. */
  datatype Answer = Made(c: Checksum) | Broken | Refused

  datatype Action =
    | Enqueue(id: ExportId)
    | Create(id: ExportId)
    | Claim(t: TaskId, id: ExportId)
    | StartSweep(t: TaskId, expired: seq<ExportId>)
    | StartForget(t: TaskId, id: ExportId)
    | StartPut(t: TaskId, tag: nat, c: Checksum)
    | StartCollect(t: TaskId, c: Checksum)
    | DropOtherRef(tag: nat, c: Checksum)
    | CancelOpen(id: ExportId)
    | Cascade(ids: set<ExportId>)
    | Crash(t: TaskId)
    | Advance(t: TaskId, answer: Answer)

  // ---------------------------------------------------------------------------
  // Steps
  // ---------------------------------------------------------------------------

  predicate Finished(s: State, id: ExportId)
  {
    id in s.rows && (s.rows[id].state == Ready || s.rows[id].state == Failed)
  }

  function SetState(rows: map<ExportId, Row>, id: ExportId, state: JobState): map<ExportId, Row>
  {
    if id in rows then rows[id := rows[id].(state := state)] else rows
  }

  function Goto(s: State, t: TaskId, next: Next): State
    requires t in s.tasks
  {
    s.(tasks := s.tasks[t := s.tasks[t].(next := next)])
  }

  function End(s: State, t: TaskId): State
  {
    s.(tasks := s.tasks - {t})
  }

  predicate Unreferenced(s: State, c: Checksum)
  {
    forall r :: r in s.refs ==> r.checksum != c
  }

  /** Where a task goes once `put` has returned. */
  function AfterPut(s: State, t: TaskId, c: Checksum): State
    requires t in s.tasks
  {
    Goto(s, t, AddRef(c))
  }

  /** Where a task goes once `delete_if_unreferenced` has returned. */
  function AfterDelete(s: State, t: TaskId): State
    requires t in s.tasks
  {
    match s.tasks[t]
    case Delivery(_, _) => End(s, t)
    case Sweep(_, _, _) => Goto(s, t, Release)
    case Forget(_, _) => Goto(s, t, DeleteRow)
    case Elsewhere(_, _) => End(s, t)
  }

  function OwnerOf(task: Task): Owner
  {
    match task
    case Delivery(id, _) => Export(id)
    case Sweep(_, deleted, _) => Export(if deleted == [] then 0 else deleted[0].id)
    case Forget(id, _) => Export(id)
    case Elsewhere(tag, _) => Other(tag)
  }

  /** Statements about the export row. */
  function RowStep(s: State, t: TaskId, id: ExportId, answer: Answer): State
    requires t in s.tasks
  {
    match s.tasks[t].next
    case Find =>
      if id in s.rows && !Finished(s, id) then Goto(s, t, Mark) else End(s, t)
    case Mark => Goto(s.(rows := SetState(s.rows, id, Running)), t, Produce)
    case Produce =>
      (match answer
       case Made(c) => Goto(s, t, Stat(c))
       case _ => Goto(s, t, Fail))
    case Fail => End(s.(rows := SetState(s.rows, id, Failed)), t)
    case Record(c) =>
      End(s.(rows := if id in s.rows then s.rows[id := Row(Ready, Some(c))] else s.rows), t)
    case _ => s
  }

  /** Statements about the blob store. */
  function StoreStep(s: State, t: TaskId, answer: Answer): State
    requires t in s.tasks
  {
    match s.tasks[t].next
    case Stat(c) => Goto(s, t, if c in s.blobs then Exists(c) else WriteFile(c))
    case Exists(c) => if c in s.files then AfterPut(s, t, c) else Goto(s, t, WriteFile(c))
    case WriteFile(c) => Goto(s.(files := s.files + {c}), t, InsertBlob(c))
    case InsertBlob(c) => AfterPut(s.(blobs := s.blobs + {c}), t, c)
    case AddRef(c) =>
      // The reference's checksum is a foreign key: without its blob row the insert fails.
      if c in s.blobs && answer != Refused then
        var s' := s.(refs := s.refs + {Ref(c, OwnerOf(s.tasks[t]))});
        if s.tasks[t].Delivery? then Goto(s', t, Record(c)) else End(s', t)
      else if s.tasks[t].Delivery? then Goto(s, t, DeleteBlob(c)) else End(s, t)
    case DropRef(c) =>
      var s' := s.(refs := s.refs - {Ref(c, OwnerOf(s.tasks[t]))});
      Goto(if s.tasks[t].Forget? then s'.(forgotten := s.forgotten + {s.tasks[t].id}) else s', t, DeleteBlob(c))
    case DeleteBlob(c) =>
      if c in s.blobs && Unreferenced(s, c) then Goto(s.(blobs := s.blobs - {c}), t, RemoveFile(c))
      else AfterDelete(s, t)
    case RemoveFile(c) => AfterDelete(s.(files := s.files - {c}), t)
    case _ => s
  }

  /** The sweep's own bookkeeping: delete the rows read, one statement each, then release each. */
  function SweepStep(s: State, t: TaskId): State
    requires t in s.tasks && s.tasks[t].Sweep?
  {
    var Sweep(toDelete, deleted, next) := s.tasks[t];
    match next
    case DeleteRow =>
      if toDelete == [] then
        if deleted == [] then End(s, t) else s.(tasks := s.tasks[t := Sweep([], deleted, Begin(deleted[0]))])
      else
        s.(rows := s.rows - {toDelete[0].id},
           tasks := s.tasks[t := Sweep(toDelete[1..], deleted + [toDelete[0]], DeleteRow)])
    case Release =>
      if |deleted| <= 1 then End(s, t)
      else s.(tasks := s.tasks[t := Sweep([], deleted[1..], Begin(deleted[1]))])
    case _ => s
  }

  function Begin(p: Purged): Next
  {
    if p.output.Some? then DropRef(p.output.value) else Release
  }

  function TaskStep(s: State, t: TaskId, answer: Answer): State
    requires t in s.tasks
  {
    match s.tasks[t].next
    case Find | Mark | Produce | Fail | Record(_) =>
      if s.tasks[t].Delivery? then RowStep(s, t, s.tasks[t].id, answer) else s
    case DeleteRow =>
      (match s.tasks[t]
       case Sweep(_, _, _) => SweepStep(s, t)
       case Forget(id, _) => End(s.(rows := s.rows - {id}), t)
       case _ => s)
    case Release => if s.tasks[t].Sweep? then SweepStep(s, t) else s
    case _ => StoreStep(s, t, answer)
  }

  function Snapshot(rows: map<ExportId, Row>, ids: seq<ExportId>): (p: seq<Purged>)
    ensures forall k :: 0 <= k < |p| ==> p[k].id in rows && p[k].id in ids
  {
    if ids == [] then []
    else if ids[0] in rows then [Purged(ids[0], rows[ids[0]].output)] + Snapshot(rows, ids[1..])
    else Snapshot(rows, ids[1..])
  }

  function Start(s: State, t: TaskId, task: Task): State
  {
    if t in s.tasks then s else s.(tasks := s.tasks[t := task])
  }

  /** One action. An action that does not apply changes nothing. */
  function Step(s: State, a: Action): State
  {
    match a
    case Enqueue(id) => s.(queued := s.queued + {id})
    case Create(id) =>
      if id in s.queued && id !in s.created then
        s.(created := s.created + {id}, rows := s.rows[id := Row(Queued, None)])
      else s
    case Claim(t, id) => if id in s.queued then Start(s, t, Delivery(id, Find)) else s
    case StartSweep(t, expired) => Start(s, t, Sweep(Snapshot(s.rows, expired), [], DeleteRow))
    case StartForget(t, id) =>
      if id !in s.rows then s
      else Start(s, t, Forget(id, if s.rows[id].output.Some? then DropRef(s.rows[id].output.value) else DeleteRow))
    case StartPut(t, tag, c) => Start(s, t, Elsewhere(tag, Stat(c)))
    case StartCollect(t, c) => Start(s, t, Elsewhere(0, DeleteBlob(c)))
    case DropOtherRef(tag, c) => s.(refs := s.refs - {Ref(c, Other(tag))})
    case CancelOpen(id) =>
      if id in s.rows && s.rows[id].state in {Queued, Running} then s.(rows := SetState(s.rows, id, Cancelled)) else s
    // An erased account or a purged job takes its exports' rows with it, by foreign key; no reference is dropped.
    case Cascade(ids) => s.(rows := s.rows - ids)
    case Crash(t) => End(s, t)
    case Advance(t, answer) => if t in s.tasks then TaskStep(s, t, answer) else s
  }

  function Exec(s: State, run: seq<Action>): State
    decreases |run|
  {
    if run == [] then s else Exec(Step(s, run[0]), run[1..])
  }

  // ---------------------------------------------------------------------------
  // What every step keeps
  // ---------------------------------------------------------------------------

  /** Every reference has its blob. */
  ghost predicate RefsHaveBlobs(s: State)
  {
    forall r :: r in s.refs ==> r.checksum in s.blobs
  }

  /** A row with an output owns a reference to it, unless a deletion by its reader has begun. */
  ghost predicate OutputsAreReferenced(s: State)
  {
    forall id :: id in s.rows && id !in s.forgotten && s.rows[id].output.Some? ==>
      Ref(s.rows[id].output.value, Export(id)) in s.refs
  }

  ghost predicate IdsAreOrdered(s: State)
  {
    s.created <= s.queued && s.rows.Keys <= s.created
  }

  predicate Putting(next: Next)
  {
    next.Stat? || next.Exists? || next.WriteFile? || next.InsertBlob? || next.AddRef?
  }

  ghost predicate TaskOk(s: State, task: Task)
  {
    match task
    case Delivery(id, next) =>
      && (next.Record? && id in s.rows && id !in s.forgotten ==> Ref(next.c, Export(id)) in s.refs)
      && (next != Find ==> id in s.created)
      && !next.DropRef?
    case Sweep(toDelete, deleted, next) =>
      && (forall k :: 0 <= k < |toDelete| ==> toDelete[k].id in s.created)
      && (forall k :: 0 <= k < |deleted| ==> deleted[k].id in s.created && deleted[k].id !in s.rows)
      && (next.DropRef? ==> deleted != [])
      && !Putting(next)
    case Forget(id, next) => id in s.created && !Putting(next)
    case Elsewhere(_, next) => !next.DropRef?
  }

  ghost predicate TasksOk(s: State)
  {
    forall t :: t in s.tasks ==> TaskOk(s, s.tasks[t])
  }

  ghost predicate Inv(s: State)
  {
    RefsHaveBlobs(s) && OutputsAreReferenced(s) && IdsAreOrdered(s) && TasksOk(s)
  }

  /** Tasks stay sound when a statement drops a reference only if its row is gone or being forgotten,
    * and creates no row for an id already used. */
  lemma TasksStayOk(s: State, s': State)
    requires TasksOk(s)
    requires s.created <= s'.created && s.forgotten <= s'.forgotten
    requires forall id :: id in s'.rows ==> id in s.rows || id !in s.created
    requires forall id, c :: Ref(c, Export(id)) in s.refs && Ref(c, Export(id)) !in s'.refs ==>
               id !in s'.rows || id in s'.forgotten
    ensures forall t :: t in s.tasks ==> TaskOk(s', s.tasks[t])
  {
    forall t | t in s.tasks
      ensures TaskOk(s', s.tasks[t])
    {
      match s.tasks[t]
      case Delivery(id, next) =>
      case Sweep(toDelete, deleted, next) =>
      case Forget(id, next) =>
      case Elsewhere(tag, next) =>
    }
  }

  lemma RowStepKeepsInv(s: State, t: TaskId, answer: Answer)
    requires Inv(s) && t in s.tasks && s.tasks[t].Delivery?
    ensures Inv(RowStep(s, t, s.tasks[t].id, answer))
  {
    var s' := RowStep(s, t, s.tasks[t].id, answer);
    assert TaskOk(s, s.tasks[t]);
    TasksStayOk(s, s');
  }

  lemma PutStepKeepsInv(s: State, t: TaskId, answer: Answer)
    requires Inv(s) && t in s.tasks && Putting(s.tasks[t].next)
    ensures Inv(StoreStep(s, t, answer))
  {
    var s' := StoreStep(s, t, answer);
    assert TaskOk(s, s.tasks[t]);
    TasksStayOk(s, s');
  }

  lemma DropRefKeepsInv(s: State, t: TaskId, answer: Answer)
    requires Inv(s) && t in s.tasks && s.tasks[t].next.DropRef?
    ensures Inv(StoreStep(s, t, answer))
  {
    var s' := StoreStep(s, t, answer);
    assert TaskOk(s, s.tasks[t]);
    TasksStayOk(s, s');
  }

  lemma CollectStepKeepsInv(s: State, t: TaskId, answer: Answer)
    requires Inv(s) && t in s.tasks && (s.tasks[t].next.DeleteBlob? || s.tasks[t].next.RemoveFile?)
    ensures Inv(StoreStep(s, t, answer))
  {
    var s' := StoreStep(s, t, answer);
    assert TaskOk(s, s.tasks[t]);
    TasksStayOk(s, s');
  }

  lemma StoreStepKeepsInv(s: State, t: TaskId, answer: Answer)
    requires Inv(s) && t in s.tasks
    ensures Inv(StoreStep(s, t, answer))
  {
    hide Inv;
    match s.tasks[t].next
    case Stat(_) | Exists(_) | WriteFile(_) | InsertBlob(_) | AddRef(_) => PutStepKeepsInv(s, t, answer);
    case DropRef(_) => DropRefKeepsInv(s, t, answer);
    case DeleteBlob(_) | RemoveFile(_) => CollectStepKeepsInv(s, t, answer);
    case _ =>
  }

  lemma SweepStepKeepsInv(s: State, t: TaskId)
    requires Inv(s) && t in s.tasks && s.tasks[t].Sweep?
    ensures Inv(SweepStep(s, t))
  {
    var s' := SweepStep(s, t);
    assert TaskOk(s, s.tasks[t]);
    TasksStayOk(s, s');
  }

  lemma StepKeepsInv(s: State, a: Action)
    requires Inv(s)
    ensures Inv(Step(s, a))
  {
    hide RowStep, StoreStep, SweepStep;
    var s' := Step(s, a);
    match a
    case Advance(t, answer) =>
      if t in s.tasks {
        if s.tasks[t].Delivery? {
          RowStepKeepsInv(s, t, answer);
        }
        if s.tasks[t].Sweep? {
          SweepStepKeepsInv(s, t);
        }
        StoreStepKeepsInv(s, t, answer);
        if s.tasks[t].Forget? && s.tasks[t].next.DeleteRow? {
          TasksStayOk(s, s');
        }
      }
    case _ => TasksStayOk(s, s');
  }

  /** From an empty instance, every run keeps the invariant. */
  lemma {:induction false} RunKeepsInv(s: State, run: seq<Action>)
    requires Inv(s)
    ensures Inv(Exec(s, run))
    decreases |run|
  {
    hide Step, Inv;
    if run != [] {
      StepKeepsInv(s, run[0]);
      RunKeepsInv(Step(s, run[0]), run[1..]);
    }
  }

  lemma InitIsSound()
    ensures Inv(INIT)
  {
  }

  // ---------------------------------------------------------------------------
  // Safety over whole runs
  // ---------------------------------------------------------------------------

  /** After any run: every reference has its blob, and a row with an output has its own reference and
    * an existing blob unless its reader's deletion has dropped that reference. */
  lemma OutputsStayReferenced(run: seq<Action>)
    ensures var s := Exec(INIT, run);
      && (forall r :: r in s.refs ==> r.checksum in s.blobs)
      && (forall id :: id in s.rows && id !in s.forgotten && s.rows[id].output.Some? ==>
            var c := s.rows[id].output.value; Ref(c, Export(id)) in s.refs && c in s.blobs)
  {
    InitIsSound();
    RunKeepsInv(INIT, run);
    var s := Exec(INIT, run);
    assert RefsHaveBlobs(s) && OutputsAreReferenced(s);
  }

  ghost predicate NoDeletionBegun(s: State)
  {
    s.forgotten == {} && forall t :: t in s.tasks ==> !s.tasks[t].Forget?
  }

  lemma {:induction false} NoDeletionNothingForgotten(s: State, run: seq<Action>)
    requires NoDeletionBegun(s)
    requires forall k :: 0 <= k < |run| ==> !run[k].StartForget?
    ensures NoDeletionBegun(Exec(s, run))
    decreases |run|
  {
    if run != [] {
      assert !run[0].StartForget?;
      assert NoDeletionBegun(Step(s, run[0]));
      NoDeletionNothingForgotten(Step(s, run[0]), run[1..]);
    }
  }

  /** Deliveries, redeliveries, crashes, sweeps and other features never leave a row's output without
    * its reference and blob: only a reader's deletion can. */
  lemma OutputsSafeWithoutDeletions(run: seq<Action>)
    requires forall k :: 0 <= k < |run| ==> !run[k].StartForget?
    ensures var s := Exec(INIT, run);
      forall id :: id in s.rows && s.rows[id].output.Some? ==>
        var c := s.rows[id].output.value; Ref(c, Export(id)) in s.refs && c in s.blobs
  {
    NoDeletionNothingForgotten(INIT, run);
    OutputsStayReferenced(run);
  }

  /** Every row with an output has its own reference. */
  ghost predicate Safe(s: State)
  {
    forall id :: id in s.rows && s.rows[id].output.Some? ==> Ref(s.rows[id].output.value, Export(id)) in s.refs
  }

  /** The statements that leave an output without its reference: a reader's deletion drops it while the row
    * still names it, or a delivery records an output whose reference has gone in the meantime. */
  predicate Breaks(s: State, a: Action)
  {
    a.Advance? && a.t in s.tasks
    && match s.tasks[a.t]
       case Forget(id, DropRef(c)) => id in s.rows && s.rows[id].output == Some(c)
       case Delivery(id, Record(c)) => id in s.rows && Ref(c, Export(id)) !in s.refs
       case _ => false
  }

  lemma RowStepIsSafeIff(s: State, t: TaskId, answer: Answer)
    requires Safe(s) && t in s.tasks && s.tasks[t].Delivery?
    ensures var Delivery(id, next) := s.tasks[t];
      Safe(RowStep(s, t, id, answer)) <==> !(next.Record? && id in s.rows && Ref(next.c, Export(id)) !in s.refs)
  {
    var id := s.tasks[t].id;
    var s' := RowStep(s, t, id, answer);
    assert forall i :: i in s'.rows && i != id ==> s'.rows[i] == s.rows[i];
    if s.tasks[t].next.Record? && id in s.rows {
      assert s'.rows[id].output == Some(s.tasks[t].next.c);
    }
  }

  lemma StoreStepIsSafeIff(s: State, t: TaskId, answer: Answer)
    requires Safe(s) && t in s.tasks && TaskOk(s, s.tasks[t])
    ensures Safe(StoreStep(s, t, answer))
      <==> !(s.tasks[t].Forget? && s.tasks[t].next.DropRef? && s.tasks[t].id in s.rows
             && s.rows[s.tasks[t].id].output == Some(s.tasks[t].next.c))
  {
    var s' := StoreStep(s, t, answer);
    assert s'.rows == s.rows;
    if s.tasks[t].next.DropRef? {
      assert s'.refs == s.refs - {Ref(s.tasks[t].next.c, OwnerOf(s.tasks[t]))};
    } else {
      assert s.refs <= s'.refs;
    }
  }

  lemma SweepStepIsSafe(s: State, t: TaskId)
    requires Safe(s) && t in s.tasks && s.tasks[t].Sweep?
    ensures Safe(SweepStep(s, t))
  {
  }

  /** From a state in which every output has its reference, one step keeps it so if and only if it is
    * neither of those two statements. */
  lemma StepIsSafeIff(s: State, a: Action)
    requires Inv(s) && Safe(s)
    ensures Safe(Step(s, a)) <==> !Breaks(s, a)
  {
    hide Inv, Safe, RowStep, StoreStep, SweepStep;
    if a.Advance? && a.t in s.tasks {
      AllTasksOk(s, a.t);
      StoreStepIsSafeIff(s, a.t, a.answer);
      match s.tasks[a.t]
      case Delivery(_, _) => RowStepIsSafeIff(s, a.t, a.answer);
      case Sweep(_, _, _) => SweepStepIsSafe(s, a.t);
      case Forget(id, _) => RowGoesSafely(s, a.t, id);
      case Elsewhere(_, _) =>
    } else {
      OtherStepIsSafe(s, a);
    }
  }

  lemma AllTasksOk(s: State, t: TaskId)
    requires Inv(s) && t in s.tasks
    ensures TaskOk(s, s.tasks[t])
  {
  }

  lemma RowGoesSafely(s: State, t: TaskId, id: ExportId)
    requires Safe(s)
    ensures Safe(End(s.(rows := s.rows - {id}), t))
  {
  }

  lemma OtherStepIsSafe(s: State, a: Action)
    requires Safe(s) && !(a.Advance? && a.t in s.tasks)
    ensures Safe(Step(s, a))
  {
  }

  /** No statement of the run breaks a reference, in the state it meets. */
  ghost predicate NeverBreaks(s: State, run: seq<Action>)
    decreases |run|
  {
    run == [] || (!Breaks(s, run[0]) && NeverBreaks(Step(s, run[0]), run[1..]))
  }

  /** Every state of a run that starts safe is safe, each output with its reference and its blob, if and
    * only if no statement of the run is one of the two. */
  lemma {:induction false} RunIsSafeIff(s: State, run: seq<Action>)
    requires Inv(s) && Safe(s)
    ensures (forall n :: 0 <= n <= |run| ==> Safe(Exec(s, run[..n]))) <==> NeverBreaks(s, run)
    ensures NeverBreaks(s, run) ==>
      forall id :: id in Exec(s, run).rows && Exec(s, run).rows[id].output.Some? ==>
        Exec(s, run).rows[id].output.value in Exec(s, run).blobs
    decreases |run|
  {
    hide Step, Inv, Safe, Breaks;
    if run == [] {
      OutputsHaveBlobs(s);
    } else {
      var s1 := Step(s, run[0]);
      StepIsSafeIff(s, run[0]);
      StepKeepsInv(s, run[0]);
      assert run[..1][1..] == [] && Exec(s, run[..1]) == Exec(s1, []) == s1;
      if Safe(s1) {
        RunIsSafeIff(s1, run[1..]);
        forall n | 0 < n <= |run|
          ensures Exec(s, run[..n]) == Exec(s1, run[1..][..n - 1])
        {
          assert run[..n][1..] == run[1..][..n - 1];
        }
        SafeFromTail(s, s1, run);
      }
    }
  }

  /** The states of a run are its first one and those of the rest. */
  lemma SafeFromTail(s: State, s1: State, run: seq<Action>)
    requires run != [] && Safe(s)
    requires forall n :: 0 < n <= |run| ==> Exec(s, run[..n]) == Exec(s1, run[1..][..n - 1])
    ensures (forall n :: 0 <= n <= |run| ==> Safe(Exec(s, run[..n])))
       <==> (forall n :: 0 <= n <= |run[1..]| ==> Safe(Exec(s1, run[1..][..n])))
  {
    hide Step, Safe;
    assert Exec(s, run[..0]) == s;
    if forall n :: 0 <= n <= |run| ==> Safe(Exec(s, run[..n])) {
      forall n | 0 <= n <= |run[1..]|
        ensures Safe(Exec(s1, run[1..][..n]))
      {
        assert Exec(s, run[..n + 1]) == Exec(s1, run[1..][..n + 1 - 1]);
      }
    }
  }

  lemma OutputsHaveBlobs(s: State)
    requires Inv(s) && Safe(s)
    ensures forall id :: id in s.rows && s.rows[id].output.Some? ==> s.rows[id].output.value in s.blobs
  {
    assert RefsHaveBlobs(s);
  }

  /** Another feature's reference goes only when that feature drops it, and its blob stays with it. */
  lemma {:induction false} OthersAreNeverCollected(s: State, run: seq<Action>, tag: nat, c: Checksum)
    requires Inv(s) && Ref(c, Other(tag)) in s.refs
    requires forall k :: 0 <= k < |run| ==> run[k] != DropOtherRef(tag, c)
    ensures Ref(c, Other(tag)) in Exec(s, run).refs && c in Exec(s, run).blobs
    decreases |run|
  {
    if run == [] {
      assert RefsHaveBlobs(s);
    } else {
      assert run[0] != DropOtherRef(tag, c);
      StepKeepsInv(s, run[0]);
      StepKeepsOtherRef(s, run[0], tag, c);
      OthersAreNeverCollected(Step(s, run[0]), run[1..], tag, c);
    }
  }

  lemma StepKeepsOtherRef(s: State, a: Action, tag: nat, c: Checksum)
    requires Inv(s) && Ref(c, Other(tag)) in s.refs && a != DropOtherRef(tag, c)
    ensures Ref(c, Other(tag)) in Step(s, a).refs
  {
    if a.Advance? && a.t in s.tasks {
      assert TaskOk(s, s.tasks[a.t]);
    }
  }

  // ---------------------------------------------------------------------------
  // Files on disk
  // ---------------------------------------------------------------------------

  /** Every blob row has its file, and so does every row about to be inserted. */
  ghost predicate OnDisk(s: State)
  {
    && s.blobs <= s.files
    && forall t :: t in s.tasks && s.tasks[t].next.InsertBlob? ==> s.tasks[t].next.c in s.files
  }

  predicate RemovesFile(s: State, a: Action)
  {
    a.Advance? && a.t in s.tasks && s.tasks[a.t].next.RemoveFile?
  }

  lemma StoreStepStaysOnDisk(s: State, t: TaskId, answer: Answer)
    requires OnDisk(s) && t in s.tasks && !s.tasks[t].next.RemoveFile?
    ensures OnDisk(StoreStep(s, t, answer))
  {
    var task := s.tasks[t];
    assert task.next.InsertBlob? ==> task.next.c in s.files;
  }

  /** Only a collector's file removal can part a blob row from its file. */
  lemma OtherStepsStayOnDisk(s: State, a: Action)
    requires OnDisk(s) && !RemovesFile(s, a)
    ensures OnDisk(Step(s, a))
  {
    hide StoreStep;
    if a.Advance? && a.t in s.tasks {
      StoreStepStaysOnDisk(s, a.t, a.answer);
    }
  }

  /** The file removal is harmless exactly when nobody has put the same bytes back in the meantime:
    * their row is not there, and no put has written the file and is about to insert the row. */
  lemma RemovalStaysOnDiskIff(s: State, t: TaskId, answer: Answer)
    requires OnDisk(s) && t in s.tasks && s.tasks[t].next.RemoveFile?
    ensures var c := s.tasks[t].next.c;
      OnDisk(Step(s, Advance(t, answer)))
      <==> c !in s.blobs && forall u :: u in s.tasks ==> s.tasks[u].next != InsertBlob(c)
  {
    var c := s.tasks[t].next.c;
    var s' := Step(s, Advance(t, answer));
    assert s'.files == s.files - {c} && s'.blobs == s.blobs;
    assert forall u :: u in s.tasks && u != t ==> u in s'.tasks && s'.tasks[u] == s.tasks[u];
    assert forall u :: u in s'.tasks && u != t ==> u in s.tasks && s'.tasks[u] == s.tasks[u];
    assert t in s'.tasks ==> !s'.tasks[t].next.InsertBlob?;
    if exists u :: u in s.tasks && s.tasks[u].next == InsertBlob(c) {
      var u :| u in s.tasks && s.tasks[u].next == InsertBlob(c);
      assert u != t && s'.tasks[u].next == InsertBlob(c);
    }
  }

  // ---------------------------------------------------------------------------
  // A finished export stays as it is
  // ---------------------------------------------------------------------------

  /** The row is finished, and nobody who read it before it was is still at work on it. */
  ghost predicate Settled(s: State, id: ExportId)
  {
    && Finished(s, id)
    && forall t :: t in s.tasks && s.tasks[t].Delivery? && s.tasks[t].id == id ==> s.tasks[t].next == Find
  }

  /** Once no delivery that read the row before it was finished is still at work on it, redelivering it any
    * number of times, among anything else, changes nothing about it: its row can only go. */
  lemma {:induction false} FinishedStays(s: State, run: seq<Action>, id: ExportId)
    requires Inv(s) && Settled(s, id)
    ensures id in Exec(s, run).rows ==> Settled(Exec(s, run), id) && Exec(s, run).rows[id] == s.rows[id]
    decreases |run|
  {
    hide Step, Inv, Settled;
    if run != [] {
      SettledStep(s, run[0], id);
      StepKeepsInv(s, run[0]);
      if id in Step(s, run[0]).rows {
        FinishedStays(Step(s, run[0]), run[1..], id);
      } else {
        InUse(s, id);
        GoneStays(Step(s, run[0]), run[1..], id);
      }
    }
  }

  /** The statements that change a finished row: those of a delivery that read it before it was. */
  predicate Overwrites(s: State, a: Action, id: ExportId)
    requires id in s.rows
  {
    a.Advance? && a.t in s.tasks && s.tasks[a.t].Delivery? && s.tasks[a.t].id == id
    && match s.tasks[a.t].next
       case Mark => true
       case Fail => s.rows[id].state != Failed
       case Record(c) => s.rows[id] != Row(Ready, Some(c))
       case _ => false
  }

  lemma RowStepOverwritesIff(s: State, t: TaskId, answer: Answer, id: ExportId)
    requires Finished(s, id) && t in s.tasks && s.tasks[t].Delivery?
    ensures var s' := RowStep(s, t, s.tasks[t].id, answer);
      id in s'.rows && (s'.rows[id] == s.rows[id] <==> !Overwrites(s, Advance(t, answer), id))
  {
  }

  lemma StoreStepKeepsRows(s: State, t: TaskId, answer: Answer)
    requires t in s.tasks
    ensures StoreStep(s, t, answer).rows == s.rows
  {
  }

  /** A finished row that a step does not delete stays as it is if and only if the step is none of those:
    * a delivery that overlaps another can still set it back to running, fail it, or replace its output. */
  lemma FinishedStepIff(s: State, a: Action, id: ExportId)
    requires Inv(s) && Finished(s, id) && id in Step(s, a).rows
    ensures Step(s, a).rows[id] == s.rows[id] <==> !Overwrites(s, a, id)
  {
    hide RowStep, StoreStep;
    if a.Advance? && a.t in s.tasks {
      StoreStepKeepsRows(s, a.t, a.answer);
      if s.tasks[a.t].Delivery? {
        RowStepOverwritesIff(s, a.t, a.answer, id);
      }
    }
  }

  lemma InUse(s: State, id: ExportId)
    requires Inv(s) && Settled(s, id)
    ensures forall a :: id in Step(s, a).created
  {
  }

  lemma SettledStoreStep(s: State, t: TaskId, answer: Answer, id: ExportId)
    requires Settled(s, id) && t in s.tasks && TaskOk(s, s.tasks[t])
    ensures var s' := StoreStep(s, t, answer);
      s'.rows == s.rows && Settled(s', id)
  {
  }

  lemma SettledRowStep(s: State, t: TaskId, answer: Answer, id: ExportId)
    requires Settled(s, id) && t in s.tasks && s.tasks[t].Delivery?
    ensures var s' := RowStep(s, t, s.tasks[t].id, answer);
      id in s'.rows && Settled(s', id) && s'.rows[id] == s.rows[id]
  {
  }

  lemma SettledSweepStep(s: State, t: TaskId, id: ExportId)
    requires Settled(s, id) && t in s.tasks && s.tasks[t].Sweep?
    ensures var s' := SweepStep(s, t);
      id in s'.rows ==> Settled(s', id) && s'.rows[id] == s.rows[id]
  {
  }

  lemma SettledStep(s: State, a: Action, id: ExportId)
    requires Inv(s) && Settled(s, id)
    ensures id in Step(s, a).rows ==> Settled(Step(s, a), id) && Step(s, a).rows[id] == s.rows[id]
  {
    hide StoreStep, RowStep, SweepStep;
    if a.Advance? && a.t in s.tasks {
      assert TaskOk(s, s.tasks[a.t]);
      SettledStoreStep(s, a.t, a.answer, id);
      if s.tasks[a.t].Delivery? {
        SettledRowStep(s, a.t, a.answer, id);
      } else if s.tasks[a.t].Sweep? {
        SettledSweepStep(s, a.t, id);
      }
    }
  }

  /** A reader's deletion that comes to its last statement deletes the row, and no other, whatever has happened
    * to it in between. */
  lemma DeletionEnds(s: State, t: TaskId, id: ExportId, answer: Answer)
    requires t in s.tasks && s.tasks[t] == Forget(id, DeleteRow)
    ensures var s' := Step(s, Advance(t, answer));
      && id !in s'.rows && t !in s'.tasks
      && forall i :: i != id ==> (i in s'.rows <==> i in s.rows) && (i in s.rows ==> s'.rows[i] == s.rows[i])
  {
  }

  /** A row that is gone never comes back: ids are used once. */
  lemma {:induction false} GoneStays(s: State, run: seq<Action>, id: ExportId)
    requires id in s.created && id !in s.rows
    ensures id !in Exec(s, run).rows && id in Exec(s, run).created
    decreases |run|
  {
    if run != [] {
      GoneStep(s, run[0], id);
      GoneStays(Step(s, run[0]), run[1..], id);
    }
  }

  lemma GoneStep(s: State, a: Action, id: ExportId)
    requires id in s.created && id !in s.rows
    ensures id !in Step(s, a).rows && id in Step(s, a).created
  {
  }

  ghost predicate NeverOverwrites(s: State, run: seq<Action>, id: ExportId)
    decreases |run|
  {
    run == [] || id !in s.rows || (!Overwrites(s, run[0], id) && NeverOverwrites(Step(s, run[0]), run[1..], id))
  }

  ghost predicate RowStaysThrough(s: State, run: seq<Action>, id: ExportId, row: Row)
  {
    forall n :: 0 <= n <= |run| && id in Exec(s, run[..n]).rows ==> Exec(s, run[..n]).rows[id] == row
  }

  lemma StaysThroughTail(s: State, run: seq<Action>, id: ExportId, row: Row)
    requires run != [] && id in s.rows && s.rows[id] == row
    ensures RowStaysThrough(s, run, id, row) <==> RowStaysThrough(Step(s, run[0]), run[1..], id, row)
  {
    hide Step;
    var s1 := Step(s, run[0]);
    assert Exec(s, run[..0]) == s;
    forall n | 0 < n <= |run|
      ensures Exec(s, run[..n]) == Exec(s1, run[1..][..n - 1])
    {
      assert run[..n][1..] == run[1..][..n - 1];
    }
    if RowStaysThrough(s, run, id, row) {
      forall n | 0 <= n <= |run[1..]| && id in Exec(s1, run[1..][..n]).rows
        ensures Exec(s1, run[1..][..n]).rows[id] == row
      {
        assert Exec(s, run[..n + 1]) == Exec(s1, run[1..][..n + 1 - 1]);
      }
    }
  }

  lemma GoneThrough(s: State, run: seq<Action>, id: ExportId, row: Row)
    requires id in s.created && id !in s.rows
    ensures RowStaysThrough(s, run, id, row)
  {
    forall n | 0 <= n <= |run|
      ensures id !in Exec(s, run[..n]).rows
    {
      GoneStays(s, run[..n], id);
    }
  }

  /** Through a whole run a finished row, for as long as it stands, is what it was in every state if and only
    * if no statement of a delivery that overlapped it overwrites it. */
  lemma {:induction false} FinishedStaysIff(s: State, run: seq<Action>, id: ExportId)
    requires Inv(s) && Finished(s, id)
    ensures RowStaysThrough(s, run, id, s.rows[id]) <==> NeverOverwrites(s, run, id)
    decreases |run|
  {
    hide Step, Inv, Overwrites, RowStaysThrough;
    var row := s.rows[id];
    if run == [] {
      NothingRan(s, run, id);
    } else {
      var s1 := Step(s, run[0]);
      StaysThroughTail(s, run, id, row);
      StepKeepsInv(s, run[0]);
      if id !in s1.rows {
        UsedIds(s, run[0], id);
        GoneThrough(s1, run[1..], id, row);
      } else {
        FinishedStepIff(s, run[0], id);
        if s1.rows[id] == row {
          FinishedStaysIff(s1, run[1..], id);
        } else {
          ChangedAtOnce(s1, run[1..], id, row);
        }
      }
    }
  }

  lemma NothingRan(s: State, run: seq<Action>, id: ExportId)
    requires run == [] && id in s.rows
    ensures RowStaysThrough(s, run, id, s.rows[id])
  {
  }

  lemma ChangedAtOnce(s: State, run: seq<Action>, id: ExportId, row: Row)
    requires id in s.rows && s.rows[id] != row
    ensures !RowStaysThrough(s, run, id, row)
  {
    assert Exec(s, run[..0]) == s;
  }

  /** A statement that overwrites a row does not delete it. */
  lemma UsedIds(s: State, a: Action, id: ExportId)
    requires Inv(s) && Finished(s, id) && id !in Step(s, a).rows
    ensures id in Step(s, a).created && !Overwrites(s, a, id)
  {
    hide StoreStep;
    if a.Advance? && a.t in s.tasks {
      StoreStepKeepsRows(s, a.t, a.answer);
      assert s.created == Step(s, a).created by { CreatedStays(s, a); }
    }
  }

  lemma CreatedStays(s: State, a: Action)
    ensures a.Advance? ==> Step(s, a).created == s.created
  {
  }

  /** Every failure to produce, transient or not, is recorded as `failed`; so unless another delivery of it
    * has got past its first read already, no later attempt, however often redelivered, makes it ready. */
  lemma FailureIsFinal(s: State, t: TaskId, id: ExportId, answer: Answer, run: seq<Action>)
    requires Inv(s) && t in s.tasks && s.tasks[t] == Delivery(id, Fail) && id in s.rows
    requires forall u :: u in s.tasks && u != t && s.tasks[u].Delivery? && s.tasks[u].id == id ==> s.tasks[u].next == Find
    ensures var s' := Exec(Step(s, Advance(t, answer)), run);
      id in s'.rows ==> s'.rows[id].state == Failed
  {
    var s1 := Step(s, Advance(t, answer));
    StepKeepsInv(s, Advance(t, answer));
    FinishedStays(s1, run, id);
  }

  /** In general, whatever else is under way: the failure is recorded, and stays recorded in every later
    * state of a run if and only if no delivery that overlapped this one overwrites it. */
  lemma FailureIsFinalIff(s: State, t: TaskId, id: ExportId, answer: Answer, run: seq<Action>)
    requires Inv(s) && t in s.tasks && s.tasks[t] == Delivery(id, Fail) && id in s.rows
    ensures var s1 := Step(s, Advance(t, answer));
      && id in s1.rows && s1.rows[id] == s.rows[id].(state := Failed)
      && (RowStaysThrough(s1, run, id, s1.rows[id]) <==> NeverOverwrites(s1, run, id))
  {
    hide RowStaysThrough, NeverOverwrites, Inv;
    StepKeepsInv(s, Advance(t, answer));
    FinishedStaysIff(Step(s, Advance(t, answer)), run, id);
  }

  // ---------------------------------------------------------------------------
  // Orphaned references
  // ---------------------------------------------------------------------------

  /** A reference whose row is gone, with no task left whose statements will drop it. */
  ghost predicate Orphaned(s: State, id: ExportId, c: Checksum)
  {
    && id in s.created && id !in s.rows && Ref(c, Export(id)) in s.refs
    && forall t :: t in s.tasks ==> !WillDrop(s.tasks[t], id, c)
  }

  /** The task has the statement that drops this reference still before it. A sweep past that statement of an
    * export has only the exports after it left. */
  predicate WillDrop(task: Task, id: ExportId, c: Checksum)
  {
    match task
    case Sweep(toDelete, deleted, next) =>
      var p := Purged(id, Some(c));
      (match next
       case DeleteRow => p in toDelete || p in deleted
       case DropRef(d) => deleted != [] && ((deleted[0].id == id && d == c) || p in deleted[1..])
       case DeleteBlob(_) | RemoveFile(_) | Release => deleted != [] && p in deleted[1..]
       case _ => false)
    case Forget(owner, next) => owner == id && next == DropRef(c)
    case _ => false
  }

  /** A reference for an export whose row is gone already comes into being in one way only: a delivery that
    * has outlived the row writes it. */
  lemma LateReferenceIff(s: State, a: Action, id: ExportId, c: Checksum)
    requires Inv(s) && id in s.created && id !in s.rows && Ref(c, Export(id)) !in s.refs
    ensures Ref(c, Export(id)) in Step(s, a).refs
       <==> a.Advance? && a.t in s.tasks && s.tasks[a.t] == Delivery(id, AddRef(c)) && c in s.blobs && a.answer != Refused
  {
    hide RowStep, SweepStep;
    if a.Advance? && a.t in s.tasks {
      AllTasksOk(s, a.t);
      RowAndSweepKeepRefs(s, a.t, a.answer);
    }
  }

  lemma RowAndSweepKeepRefs(s: State, t: TaskId, answer: Answer)
    requires t in s.tasks
    ensures s.tasks[t].Delivery? ==> RowStep(s, t, s.tasks[t].id, answer).refs == s.refs
    ensures s.tasks[t].Sweep? ==> SweepStep(s, t).refs == s.refs
  {
  }

  /** An orphaned reference keeps its blob in every later state: no sweep collects it. */
  lemma {:induction false} OrphansAreForever(s: State, run: seq<Action>, id: ExportId, c: Checksum)
    requires Inv(s) && Orphaned(s, id, c)
    ensures Orphaned(Exec(s, run), id, c) && c in Exec(s, run).blobs
    decreases |run|
  {
    hide Step, Inv, Orphaned;
    OrphanHasBlob(s, id, c);
    if run != [] {
      OrphanStep(s, run[0], id, c);
      StepKeepsInv(s, run[0]);
      OrphansAreForever(Step(s, run[0]), run[1..], id, c);
    }
  }

  lemma OrphanHasBlob(s: State, id: ExportId, c: Checksum)
    requires Inv(s) && Orphaned(s, id, c)
    ensures c in s.blobs
  {
    assert RefsHaveBlobs(s);
  }

  lemma OrphanStoreStep(s: State, t: TaskId, answer: Answer, id: ExportId, c: Checksum)
    requires Inv(s) && Orphaned(s, id, c) && t in s.tasks
    ensures Orphaned(StoreStep(s, t, answer), id, c)
  {
    assert TaskOk(s, s.tasks[t]) && !WillDrop(s.tasks[t], id, c);
  }

  lemma OrphanRowStep(s: State, t: TaskId, answer: Answer, id: ExportId, c: Checksum)
    requires Inv(s) && Orphaned(s, id, c) && t in s.tasks && s.tasks[t].Delivery?
    ensures Orphaned(RowStep(s, t, s.tasks[t].id, answer), id, c)
  {
    assert TaskOk(s, s.tasks[t]) && !WillDrop(s.tasks[t], id, c);
  }

  lemma OrphanSweepStep(s: State, t: TaskId, id: ExportId, c: Checksum)
    requires Orphaned(s, id, c) && t in s.tasks && s.tasks[t].Sweep?
    ensures Orphaned(SweepStep(s, t), id, c)
  {
    var Sweep(toDelete, deleted, next) := s.tasks[t];
    assert !WillDrop(s.tasks[t], id, c);
    match next
    case DeleteRow =>
      if toDelete != [] {
        assert toDelete == [toDelete[0]] + toDelete[1..];
      } else if deleted != [] {
        assert deleted == [deleted[0]] + deleted[1..];
      }
    case Release =>
      if |deleted| > 1 {
        assert deleted[1..] == [deleted[1]] + deleted[1..][1..];
      }
    case _ =>
  }

  lemma OrphanStep(s: State, a: Action, id: ExportId, c: Checksum)
    requires Inv(s) && Orphaned(s, id, c)
    ensures Orphaned(Step(s, a), id, c)
  {
    hide Inv, RowStep, StoreStep, SweepStep;
    if a.Advance? && a.t in s.tasks {
      OrphanStoreStep(s, a.t, a.answer, id, c);
      if s.tasks[a.t].Delivery? {
        OrphanRowStep(s, a.t, a.answer, id, c);
      } else if s.tasks[a.t].Sweep? {
        OrphanSweepStep(s, a.t, id, c);
      }
    }
  }

  /** How far a task is from its last statement: a sweep deletes its rows, then releases one after the other. */
  function ToDelete(task: Task): nat
  {
    if task.Sweep? && task.next.DeleteRow? then |task.toDelete| + 1 else 0
  }

  function ToRelease(task: Task): nat
  {
    if task.Sweep? then |task.deleted| else 0
  }

  function ToFinish(next: Next): nat
  {
    match next
    case DropRef(_) => 3
    case DeleteBlob(_) => 2
    case RemoveFile(_) => 1
    case _ => 0
  }

  predicate Nearer(task': Task, task: Task)
  {
    || ToDelete(task') < ToDelete(task)
    || (ToDelete(task') == ToDelete(task)
        && (|| ToRelease(task') < ToRelease(task)
            || (ToRelease(task') == ToRelease(task) && ToFinish(task'.next) < ToFinish(task.next))))
  }

  /** Let such a task run on and the reference goes, whatever the state. */
  lemma {:induction false} DropsBy(s: State, t: TaskId, id: ExportId, c: Checksum) returns (run: seq<Action>)
    requires t in s.tasks && WillDrop(s.tasks[t], id, c)
    ensures forall a :: a in run ==> a == Advance(t, Broken)
    ensures Ref(c, Export(id)) !in Exec(s, run).refs
    decreases ToDelete(s.tasks[t]), ToRelease(s.tasks[t]), ToFinish(s.tasks[t].next)
  {
    hide Step, WillDrop, ToDelete, ToRelease, ToFinish;
    var s1 := Step(s, Advance(t, Broken));
    DropsOrNears(s, t, id, c);
    var rest := [];
    if Ref(c, Export(id)) in s1.refs {
      rest := DropsBy(s1, t, id, c);
    } else {
      assert Exec(s1, rest) == s1;
    }
    run := [Advance(t, Broken)] + rest;
    assert run[1..] == rest;
  }

  lemma DeletesOrNears(s: State, t: TaskId, id: ExportId, c: Checksum)
    requires t in s.tasks && WillDrop(s.tasks[t], id, c) && s.tasks[t].Sweep? && s.tasks[t].next.DeleteRow?
    ensures var s1 := Step(s, Advance(t, Broken));
      || Ref(c, Export(id)) !in s1.refs
      || (t in s1.tasks && WillDrop(s1.tasks[t], id, c) && Nearer(s1.tasks[t], s.tasks[t]))
  {
    hide StoreStep, RowStep;
    var Sweep(toDelete, deleted, _) := s.tasks[t];
    if toDelete != [] {
      assert toDelete == [toDelete[0]] + toDelete[1..];
    } else {
      assert deleted == [deleted[0]] + deleted[1..];
    }
  }

  lemma ReleasesOrNears(s: State, t: TaskId, id: ExportId, c: Checksum)
    requires t in s.tasks && WillDrop(s.tasks[t], id, c) && s.tasks[t].Sweep? && s.tasks[t].next.Release?
    ensures var s1 := Step(s, Advance(t, Broken));
      || Ref(c, Export(id)) !in s1.refs
      || (t in s1.tasks && WillDrop(s1.tasks[t], id, c) && Nearer(s1.tasks[t], s.tasks[t]))
  {
    hide StoreStep, RowStep;
    var deleted := s.tasks[t].deleted;
    assert deleted[1..] == [deleted[1]] + deleted[1..][1..];
  }

  lemma StoresOrNears(s: State, t: TaskId, id: ExportId, c: Checksum)
    requires t in s.tasks && WillDrop(s.tasks[t], id, c) && !s.tasks[t].next.DeleteRow? && !s.tasks[t].next.Release?
    ensures var s1 := Step(s, Advance(t, Broken));
      || Ref(c, Export(id)) !in s1.refs
      || (t in s1.tasks && WillDrop(s1.tasks[t], id, c) && Nearer(s1.tasks[t], s.tasks[t]))
  {
    hide SweepStep, RowStep;
  }

  lemma DropsOrNears(s: State, t: TaskId, id: ExportId, c: Checksum)
    requires t in s.tasks && WillDrop(s.tasks[t], id, c)
    ensures var s1 := Step(s, Advance(t, Broken));
      || Ref(c, Export(id)) !in s1.refs
      || (t in s1.tasks && WillDrop(s1.tasks[t], id, c) && Nearer(s1.tasks[t], s.tasks[t]))
  {
    hide Step, Nearer;
    if s.tasks[t].Sweep? && s.tasks[t].next.DeleteRow? {
      DeletesOrNears(s, t, id, c);
    } else if s.tasks[t].Sweep? && s.tasks[t].next.Release? {
      ReleasesOrNears(s, t, id, c);
    } else {
      StoresOrNears(s, t, id, c);
    }
  }

  /** A reference whose export's row is gone is there in every later state of every run if and only if no task
    * has the statement that drops it still before it: from then on only a task already on its way collects it. */
  lemma NeverCollectedIff(s: State, id: ExportId, c: Checksum)
    requires Inv(s) && id in s.created && id !in s.rows && Ref(c, Export(id)) in s.refs
    ensures (forall run :: Ref(c, Export(id)) in Exec(s, run).refs)
       <==> (forall t :: t in s.tasks ==> !WillDrop(s.tasks[t], id, c))
  {
    hide Inv, Step, WillDrop;
    if forall t :: t in s.tasks ==> !WillDrop(s.tasks[t], id, c) {
      forall run
        ensures Ref(c, Export(id)) in Exec(s, run).refs
      {
        OrphansAreForever(s, run, id, c);
      }
    } else {
      var t :| t in s.tasks && WillDrop(s.tasks[t], id, c);
      var run := DropsBy(s, t, id, c);
    }
  }
}
