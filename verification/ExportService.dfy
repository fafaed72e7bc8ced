/** `run` and `sweep` as straight-line programs over the tables and the store, each an uninterrupted run
  * of the statements in `Exports`; what a sweep collects; and the same operations as methods.
  */
module ExportService {
  import opened Wrappers
  import opened Exports

  // ---------------------------------------------------------------------------
  // Runs, put together
  // ---------------------------------------------------------------------------

  lemma {:induction false} ExecConcat(s: State, a: seq<Action>, b: seq<Action>)
    ensures Exec(s, a + b) == Exec(Exec(s, a), b)
    decreases |a|
  {
    hide Step;
    if a == [] {
      assert a + b == b;
    } else {
      assert (a + b)[1..] == a[1..] + b;
      ExecConcat(Step(s, a[0]), a[1..], b);
    }
  }

  lemma ExecCons(s: State, a: Action, b: seq<Action>)
    ensures Exec(s, [a] + b) == Exec(Step(s, a), b)
  {
    hide Step;
    assert ([a] + b)[1..] == b;
  }

  lemma GotoGoto(s: State, t: TaskId, x: Next, y: Next)
    requires t in s.tasks
    ensures Goto(Goto(s, t, x), t, y) == Goto(s, t, y)
  {
    assert s.tasks[t := s.tasks[t].(next := x)][t := s.tasks[t].(next := y)] == s.tasks[t := s.tasks[t].(next := y)];
  }

  /** `put`, one statement after the other. */
  lemma PutSteps(s: State, t: TaskId, c: Checksum, answer: Answer) returns (run: seq<Action>)
    requires t in s.tasks && s.tasks[t].next == Stat(c)
    ensures forall a :: a in run ==> a == Advance(t, answer)
    ensures Exec(s, run) == Goto(s.(blobs := s.blobs + {c}, files := s.files + {c}), t, AddRef(c))
  {
    var go := Advance(t, answer);
    var s1 := Step(s, go);
    if c in s.blobs && c in s.files {
      assert s1 == Goto(s, t, Exists(c));
      assert s.blobs + {c} == s.blobs && s.files + {c} == s.files;
      GotoGoto(s, t, Exists(c), AddRef(c));
      run := [go, go];
      assert run[1..] == [go];
      assert Exec(s1, [go]) == Exec(Step(s1, go), [go][1..]);
    } else if c in s.blobs {
      var s2 := Step(s1, go);
      assert s1 == Goto(s, t, Exists(c));
      GotoGoto(s, t, Exists(c), WriteFile(c));
      assert s2 == Goto(s, t, WriteFile(c));
      var rest := WriteSteps(s2, t, c, answer);
      GotoGoto(s.(blobs := s.blobs + {c}, files := s.files + {c}), t, WriteFile(c), AddRef(c));
      run := [go] + ([go] + rest);
      ExecCons(s, go, [go] + rest);
      ExecCons(s1, go, rest);
    } else {
      assert s1 == Goto(s, t, WriteFile(c));
      var rest := WriteSteps(s1, t, c, answer);
      GotoGoto(s.(blobs := s.blobs + {c}, files := s.files + {c}), t, WriteFile(c), AddRef(c));
      run := [go] + rest;
      ExecCons(s, go, rest);
    }
  }

  lemma WriteSteps(s: State, t: TaskId, c: Checksum, answer: Answer) returns (run: seq<Action>)
    requires t in s.tasks && s.tasks[t].next == WriteFile(c)
    ensures forall a :: a in run ==> a == Advance(t, answer)
    ensures Exec(s, run) == Goto(s.(blobs := s.blobs + {c}, files := s.files + {c}), t, AddRef(c))
  {
    var go := Advance(t, answer);
    var s1 := Step(s, go);
    var s2 := Step(s1, go);
    assert s1 == Goto(s.(files := s.files + {c}), t, InsertBlob(c));
    GotoGoto(s.(blobs := s.blobs + {c}, files := s.files + {c}), t, InsertBlob(c), AddRef(c));
    run := [go] + [go];
    ExecCons(s, go, [go]);
    ExecCons(s1, go, []);
    assert [go] + [] == [go];
  }

  predicate Ours(a: Action, t: TaskId)
  {
    a.Advance? && a.t == t
  }

  /** `delete_if_unreferenced`, done in one go. */
  function Cleaned(s: State, c: Checksum): State
  {
    if c in s.blobs && Unreferenced(s, c) then s.(blobs := s.blobs - {c}, files := s.files - {c}) else s
  }

  lemma DeleteSteps(s: State, t: TaskId, c: Checksum) returns (run: seq<Action>)
    requires t in s.tasks && s.tasks[t].next == DeleteBlob(c)
    ensures forall a :: a in run ==> Ours(a, t)
    ensures Exec(s, run) == AfterDelete(Cleaned(s, c), t)
  {
    var go := Advance(t, Broken);
    var s1 := Step(s, go);
    if c in s.blobs && Unreferenced(s, c) {
      assert s1 == Goto(s.(blobs := s.blobs - {c}), t, RemoveFile(c));
      var s2 := Step(s1, go);
      AfterDeleteGoto(Cleaned(s, c), t, RemoveFile(c));
      assert s2 == AfterDelete(Goto(Cleaned(s, c), t, RemoveFile(c)), t);
      run := [go] + [go];
      ExecCons(s, go, [go]);
      ExecCons(s1, go, []);
      assert [go] + [] == [go];
    } else {
      run := [go] + [];
      ExecCons(s, go, []);
    }
  }

  lemma AfterDeleteGoto(s: State, t: TaskId, x: Next)
    requires t in s.tasks
    ensures AfterDelete(Goto(s, t, x), t) == AfterDelete(s, t)
  {
    assert s.tasks[t := s.tasks[t].(next := x)] - {t} == s.tasks - {t};
    forall y { GotoGoto(s, t, x, y); }
  }

  // ---------------------------------------------------------------------------
  // One delivery
  // ---------------------------------------------------------------------------

  /** What one undisturbed delivery leaves: `artifact` is what was produced, if anything was, and
    * `refOk` whether the reference could be written. */
  function Ran(s: State, id: ExportId, artifact: Option<Checksum>, refOk: bool): State
  {
    if id !in s.rows || Finished(s, id) then s
    else
      match artifact
      case None => s.(rows := s.rows[id := s.rows[id].(state := Failed)])
      case Some(c) =>
        var put := s.(blobs := s.blobs + {c}, files := s.files + {c});
        if refOk then
          put.(rows := s.rows[id := Row(Ready, Some(c))], refs := s.refs + {Ref(c, Export(id))})
        else Cleaned(put.(rows := s.rows[id := s.rows[id].(state := Running)]), c)
  }

  /** The first three statements bring an open export to its artifact. */
  lemma ClaimSteps(s: State, t: TaskId, id: ExportId, answer: Answer) returns (run: seq<Action>)
    requires t !in s.tasks && id in s.queued && id in s.rows && !Finished(s, id)
    ensures run == [Claim(t, id), Advance(t, answer), Advance(t, answer)]
    ensures Exec(s, run) == With(s.(rows := s.rows[id := s.rows[id].(state := Running)]), t, Delivery(id, Produce))
  {
    var go := Advance(t, answer);
    run := [Claim(t, id), go, go];
    var s1 := With(s, t, Delivery(id, Find));
    var s2 := With(s, t, Delivery(id, Mark));
    var s3 := With(s.(rows := s.rows[id := s.rows[id].(state := Running)]), t, Delivery(id, Produce));
    assert Step(s, Claim(t, id)) == s1;
    assert Step(s1, go) == s2 by {
      assert s1.tasks[t := Delivery(id, Mark)] == s2.tasks;
    }
    assert Step(s2, go) == s3 by {
      assert s2.tasks[t := Delivery(id, Produce)] == s3.tasks;
    }
    ExecThree(s, Claim(t, id), go, go);
  }

  lemma ExecTwo(s: State, a: Action, b: Action)
    ensures Exec(s, [a, b]) == Step(Step(s, a), b)
  {
    hide Step;
    assert [a, b] == [a] + [b] && [b] == [b] + [];
    ExecCons(s, a, [b]);
    ExecCons(Step(s, a), b, []);
  }

  lemma ExecThree(s: State, a: Action, b: Action, c: Action)
    ensures Exec(s, [a, b, c]) == Step(Step(Step(s, a), b), c)
  {
    hide Step;
    assert [a, b, c] == [a] + [b, c];
    ExecCons(s, a, [b, c]);
    ExecTwo(Step(s, a), b, c);
  }

  function With(s: State, t: TaskId, task: Task): State
  {
    s.(tasks := s.tasks[t := task])
  }

  lemma WithThenEnd(s: State, t: TaskId, task: Task)
    requires t !in s.tasks
    ensures With(s, t, task).tasks - {t} == s.tasks
  {
  }

  lemma FailSteps(s: State, t: TaskId, id: ExportId)
    requires t !in s.tasks && id in s.rows
    ensures Exec(With(s, t, Delivery(id, Produce)), [Advance(t, Broken), Advance(t, Broken)])
         == s.(rows := s.rows[id := s.rows[id].(state := Failed)])
  {
    var go := Advance(t, Broken);
    var s0, s1 := With(s, t, Delivery(id, Produce)), With(s, t, Delivery(id, Fail));
    assert Step(s0, go) == s1 by {
      assert s0.tasks[t := Delivery(id, Fail)] == s1.tasks;
    }
    WithThenEnd(s, t, Delivery(id, Fail));
    ExecTwo(s0, go, go);
  }

  /** The artifact is made and put, up to the statement that references it. */
  lemma MakeSteps(s: State, t: TaskId, id: ExportId, c: Checksum) returns (run: seq<Action>)
    requires t !in s.tasks
    ensures forall a :: a in run ==> Ours(a, t)
    ensures Exec(With(s, t, Delivery(id, Produce)), run)
      == With(s.(blobs := s.blobs + {c}, files := s.files + {c}), t, Delivery(id, AddRef(c)))
  {
    var go := Advance(t, Made(c));
    var put := s.(blobs := s.blobs + {c}, files := s.files + {c});
    var s0, s1 := With(s, t, Delivery(id, Produce)), With(s, t, Delivery(id, Stat(c)));
    assert Step(s0, go) == s1 by {
      assert s0.tasks[t := Delivery(id, Stat(c))] == s1.tasks;
    }
    var stored := PutSteps(s1, t, c, Made(c));
    var s2 := With(put, t, Delivery(id, AddRef(c)));
    assert Exec(s1, stored) == s2 by {
      assert s1.tasks[t := Delivery(id, AddRef(c))] == s2.tasks;
    }
    run := [go] + stored;
    ExecCons(s0, go, stored);
  }

  lemma StoreSteps(s: State, t: TaskId, id: ExportId, c: Checksum, refOk: bool) returns (run: seq<Action>)
    requires t !in s.tasks && id in s.rows
    ensures forall a :: a in run ==> Ours(a, t)
    ensures var put := s.(blobs := s.blobs + {c}, files := s.files + {c});
      Exec(With(s, t, Delivery(id, Produce)), run)
      == if refOk then put.(rows := s.rows[id := Row(Ready, Some(c))], refs := s.refs + {Ref(c, Export(id))})
         else Cleaned(put, c)
  {
    var put := s.(blobs := s.blobs + {c}, files := s.files + {c});
    var made := MakeSteps(s, t, id, c);
    var finish := RefSteps(put, t, id, c, refOk);
    run := made + finish;
    ExecConcat(With(s, t, Delivery(id, Produce)), made, finish);
  }

  lemma RefSteps(s: State, t: TaskId, id: ExportId, c: Checksum, refOk: bool) returns (run: seq<Action>)
    requires t !in s.tasks && id in s.rows && c in s.blobs
    ensures forall a :: a in run ==> Ours(a, t)
    ensures Exec(With(s, t, Delivery(id, AddRef(c))), run)
      == if refOk then s.(rows := s.rows[id := Row(Ready, Some(c))], refs := s.refs + {Ref(c, Export(id))})
         else Cleaned(s, c)
  {
    var s0 := With(s, t, Delivery(id, AddRef(c)));
    if refOk {
      var go := Advance(t, Made(c));
      var s1 := With(s.(refs := s.refs + {Ref(c, Export(id))}), t, Delivery(id, Record(c)));
      assert Step(s0, go) == s1 by {
        assert s0.tasks[t := Delivery(id, Record(c))] == s1.tasks;
      }
      WithThenEnd(s, t, Delivery(id, Record(c)));
      run := [go, go];
      ExecTwo(s0, go, go);
    } else {
      var go := Advance(t, Refused);
      var s1 := With(s, t, Delivery(id, DeleteBlob(c)));
      assert Step(s0, go) == s1 by {
        assert s0.tasks[t := Delivery(id, DeleteBlob(c))] == s1.tasks;
      }
      var rest := DeleteSteps(s1, t, c);
      WithThenEnd(s, t, Delivery(id, DeleteBlob(c)));
      assert AfterDelete(Cleaned(s1, c), t) == Cleaned(s, c);
      run := [go] + rest;
      ExecCons(s0, go, rest);
    }
  }

  /** An undisturbed delivery is a run of one task's steps. */
  lemma RanIsARun(s: State, t: TaskId, id: ExportId, artifact: Option<Checksum>, refOk: bool) returns (run: seq<Action>)
    requires t !in s.tasks && id in s.queued
    ensures forall a :: a in run ==> a == Claim(t, id) || Ours(a, t)
    ensures Exec(s, run) == Ran(s, id, artifact, refOk)
  {
    if id !in s.rows || Finished(s, id) {
      var go := Advance(t, Broken);
      assert Step(s, Claim(t, id)) == With(s, t, Delivery(id, Find));
      WithThenEnd(s, t, Delivery(id, Find));
      run := [Claim(t, id), go];
      ExecTwo(s, Claim(t, id), go);
    } else {
      var marked := s.(rows := s.rows[id := s.rows[id].(state := Running)]);
      var claim := ClaimSteps(s, t, id, Broken);
      var rest;
      match artifact {
        case None =>
          rest := [Advance(t, Broken), Advance(t, Broken)];
          FailSteps(marked, t, id);
          assert marked.rows[id := marked.rows[id].(state := Failed)] == s.rows[id := s.rows[id].(state := Failed)];
        case Some(c) =>
          rest := StoreSteps(marked, t, id, c, refOk);
          assert marked.rows[id := Row(Ready, Some(c))] == s.rows[id := Row(Ready, Some(c))];
      }
      run := claim + rest;
      ExecConcat(s, claim, rest);
    }
  }

  /** Spelled out: a delivery that finds no row, or a finished one, leaves everything alone; one that makes nothing
    * leaves the row failed; one whose artifact is referenced leaves the row ready with it, the bytes held and
    * referenced; and one that cannot reference it leaves the row running and the bytes held if and only if
    * something else references them. */
  lemma DeliveryLeaves(s: State, id: ExportId, artifact: Option<Checksum>, refOk: bool)
    requires Inv(s)
    ensures var s' := Ran(s, id, artifact, refOk);
      && s'.tasks == s.tasks && s'.created == s.created && s'.queued == s.queued && s'.forgotten == s.forgotten
      && (id !in s.rows || s.rows[id].state == Ready || s.rows[id].state == Failed ==> s' == s)
      && (id in s.rows && s.rows[id].state != Ready && s.rows[id].state != Failed ==>
            var row := s.rows[id];
            && (artifact.None? ==> s' == s.(rows := s.rows[id := row.(state := Failed)]))
            && (artifact.Some? ==>
                  var c := artifact.value;
                  && s'.rows == s.rows[id := if refOk then Row(Ready, Some(c)) else row.(state := Running)]
                  && s'.refs == s.refs + (if refOk then {Ref(c, Export(id))} else {})
                  && (c in s'.blobs <==> refOk || exists r :: r in s.refs && r.checksum == c)
                  && (c in s'.files <==> c in s'.blobs)
                  && s'.blobs - {c} == s.blobs - {c} && s'.files - {c} == s.files - {c}))
  {
    if artifact.Some? && !refOk && id in s.rows && !Finished(s, id) {
      var c := artifact.value;
      var put := s.(blobs := s.blobs + {c}, files := s.files + {c}, rows := s.rows[id := s.rows[id].(state := Running)]);
      assert Unreferenced(put, c) <==> !exists r :: r in s.refs && r.checksum == c;
    }
  }

  // ---------------------------------------------------------------------------
  // One sweep
  // ---------------------------------------------------------------------------

  function WithoutRows(rows: map<ExportId, Row>, purged: seq<Purged>): map<ExportId, Row>
  {
    if purged == [] then rows else WithoutRows(rows - {purged[0].id}, purged[1..])
  }

  /** The reference of one purged export dropped, and its blob with it if nothing else holds it. */
  function Dropped(s: State, p: Purged): State
  {
    match p.output
    case None => s
    case Some(c) => Cleaned(s.(refs := s.refs - {Ref(c, Export(p.id))}), c)
  }

  function Released(s: State, purged: seq<Purged>): State
    decreases |purged|
  {
    if purged == [] then s else Released(Dropped(s, purged[0]), purged[1..])
  }

  /** What one undisturbed sweep over the exports past their cutoff leaves. */
  function Swept(s: State, expired: seq<ExportId>): State
  {
    var purged := Snapshot(s.rows, expired);
    Released(s.(rows := WithoutRows(s.rows, purged)), purged)
  }

  lemma {:induction false} PurgeSteps(s: State, t: TaskId, toDelete: seq<Purged>, deleted: seq<Purged>) returns (run: seq<Action>)
    requires t !in s.tasks
    ensures forall a :: a in run ==> Ours(a, t)
    ensures Exec(With(s, t, Sweep(toDelete, deleted, DeleteRow)), run)
         == With(s.(rows := WithoutRows(s.rows, toDelete)), t, Sweep([], deleted + toDelete, DeleteRow))
    decreases |toDelete|
  {
    if toDelete == [] {
      run := [];
      assert deleted + toDelete == deleted;
    } else {
      var go := Advance(t, Broken);
      var s0 := With(s, t, Sweep(toDelete, deleted, DeleteRow));
      var s1 := s.(rows := s.rows - {toDelete[0].id});
      assert Step(s0, go) == With(s1, t, Sweep(toDelete[1..], deleted + [toDelete[0]], DeleteRow)) by {
        assert s0.tasks[t := Sweep(toDelete[1..], deleted + [toDelete[0]], DeleteRow)]
            == s.tasks[t := Sweep(toDelete[1..], deleted + [toDelete[0]], DeleteRow)];
      }
      var rest := PurgeSteps(s1, t, toDelete[1..], deleted + [toDelete[0]]);
      assert deleted + [toDelete[0]] + toDelete[1..] == deleted + toDelete;
      run := [go] + rest;
      ExecCons(s0, go, rest);
    }
  }

  /** One purged export released, up to the point where the sweep turns to the next. */
  lemma ReleaseOne(s: State, t: TaskId, deleted: seq<Purged>) returns (run: seq<Action>)
    requires t !in s.tasks && deleted != []
    ensures forall a :: a in run ==> Ours(a, t)
    ensures Exec(With(s, t, Sweep([], deleted, Begin(deleted[0]))), run)
         == With(Dropped(s, deleted[0]), t, Sweep([], deleted, Release))
  {
    hide Step, Cleaned;
    match deleted[0].output
    case None => run := [];
    case Some(c) =>
      var go := Advance(t, Broken);
      var s0 := With(s, t, Sweep([], deleted, DropRef(c)));
      var s1 := s.(refs := s.refs - {Ref(c, Export(deleted[0].id))});
      DropStep(s, t, deleted, c);
      var rest := DeleteSteps(With(s1, t, Sweep([], deleted, DeleteBlob(c))), t, c);
      CleanedThenRelease(s1, t, deleted, c);
      run := [go] + rest;
      ExecCons(s0, go, rest);
  }

  lemma DropStep(s: State, t: TaskId, deleted: seq<Purged>, c: Checksum)
    requires t !in s.tasks && deleted != []
    ensures Step(With(s, t, Sweep([], deleted, DropRef(c))), Advance(t, Broken))
         == With(s.(refs := s.refs - {Ref(c, Export(deleted[0].id))}), t, Sweep([], deleted, DeleteBlob(c)))
  {
    var s0 := With(s, t, Sweep([], deleted, DropRef(c)));
    assert s0.tasks[t := Sweep([], deleted, DeleteBlob(c))] == s.tasks[t := Sweep([], deleted, DeleteBlob(c))];
  }

  lemma CleanedThenRelease(s: State, t: TaskId, deleted: seq<Purged>, c: Checksum)
    requires t !in s.tasks
    ensures AfterDelete(Cleaned(With(s, t, Sweep([], deleted, DeleteBlob(c))), c), t)
         == With(Cleaned(s, c), t, Sweep([], deleted, Release))
  {
    var task := Sweep([], deleted, Release);
    assert s.tasks[t := Sweep([], deleted, DeleteBlob(c))][t := task] == s.tasks[t := task];
  }

  lemma ReleaseStep(s: State, t: TaskId, deleted: seq<Purged>)
    requires t !in s.tasks && deleted != []
    ensures Step(With(s, t, Sweep([], deleted, Release)), Advance(t, Broken))
         == if |deleted| == 1 then s else With(s, t, Sweep([], deleted[1..], Begin(deleted[1])))
  {
    WithThenEnd(s, t, Sweep([], deleted, Release));
    if |deleted| > 1 {
      var task := Sweep([], deleted[1..], Begin(deleted[1]));
      assert With(s, t, Sweep([], deleted, Release)).tasks[t := task] == s.tasks[t := task];
    }
  }

  lemma {:induction false} ReleaseSteps(s: State, t: TaskId, deleted: seq<Purged>) returns (run: seq<Action>)
    requires t !in s.tasks && deleted != []
    ensures forall a :: a in run ==> Ours(a, t)
    ensures Exec(With(s, t, Sweep([], deleted, Begin(deleted[0]))), run) == Released(s, deleted)
    decreases |deleted|
  {
    hide Step, Dropped, Begin;
    var go := Advance(t, Broken);
    var s0, s1 := With(s, t, Sweep([], deleted, Begin(deleted[0]))), Dropped(s, deleted[0]);
    assert t !in s1.tasks by { DroppedKeepsTasks(s, deleted[0]); }
    var one := ReleaseOne(s, t, deleted);
    ReleaseStep(s1, t, deleted);
    if |deleted| == 1 {
      run := one + ([go] + []);
      assert Released(s1, deleted[1..]) == s1;
      ExecConcat(s0, one, [go] + []);
      ExecCons(With(s1, t, Sweep([], deleted, Release)), go, []);
    } else {
      var rest := ReleaseSteps(s1, t, deleted[1..]);
      run := one + ([go] + rest);
      ExecConcat(s0, one, [go] + rest);
      ExecCons(With(s1, t, Sweep([], deleted, Release)), go, rest);
    }
  }

  lemma DroppedKeepsTasks(s: State, p: Purged)
    ensures Dropped(s, p).tasks == s.tasks && Dropped(s, p).rows == s.rows && Dropped(s, p).refs <= s.refs
  {
  }

  /** An undisturbed sweep is a run of one task's steps. */
  lemma SweptIsARun(s: State, t: TaskId, expired: seq<ExportId>) returns (run: seq<Action>)
    requires t !in s.tasks
    ensures forall a :: a in run ==> a == StartSweep(t, expired) || Ours(a, t)
    ensures Exec(s, run) == Swept(s, expired)
  {
    hide Exec, Snapshot, Released, WithoutRows;
    var purged := Snapshot(s.rows, expired);
    var go := Advance(t, Broken);
    var s0 := With(s, t, Sweep(purged, [], DeleteRow));
    var s1 := s.(rows := WithoutRows(s.rows, purged));
    assert Step(s, StartSweep(t, expired)) == s0;
    var purge := PurgeSteps(s, t, purged, []);
    assert [] + purged == purged;
    var s2 := With(s1, t, Sweep([], purged, DeleteRow));
    var rest;
    if purged == [] {
      WithThenEnd(s1, t, Sweep([], purged, DeleteRow));
      assert Step(s2, go) == s1;
      rest := [];
      assert Released(s1, purged) == s1 by { ReleasedNothing(s1); }
      ExecNothing(s1);
    } else {
      var s3 := With(s1, t, Sweep([], purged, Begin(purged[0])));
      assert Step(s2, go) == s3 by {
        assert s2.tasks[t := Sweep([], purged, Begin(purged[0]))] == s3.tasks;
      }
      rest := ReleaseSteps(s1, t, purged);
    }
    run := [StartSweep(t, expired)] + (purge + ([go] + rest));
    ExecCons(s, StartSweep(t, expired), purge + ([go] + rest));
    ExecConcat(s0, purge, [go] + rest);
    ExecCons(s2, go, rest);
  }

  lemma ReleasedNothing(s: State)
    ensures Released(s, []) == s
  {
  }

  lemma ExecNothing(s: State)
    ensures Exec(s, []) == s
  {
  }

  // ---------------------------------------------------------------------------
  // What a sweep collects
  // ---------------------------------------------------------------------------

  lemma {:induction false} PurgedRowsAreGone(rows: map<ExportId, Row>, purged: seq<Purged>)
    ensures forall id :: id in WithoutRows(rows, purged)
              <==> id in rows && forall k :: 0 <= k < |purged| ==> purged[k].id != id
    ensures forall id :: id in WithoutRows(rows, purged) ==> WithoutRows(rows, purged)[id] == rows[id]
    decreases |purged|
  {
    if purged != [] {
      PurgedRowsAreGone(rows - {purged[0].id}, purged[1..]);
      assert purged == [purged[0]] + purged[1..];
    }
  }

  lemma {:induction false} SnapshotIsComplete(rows: map<ExportId, Row>, ids: seq<ExportId>)
    ensures forall id :: id in ids && id in rows ==> Purged(id, rows[id].output) in Snapshot(rows, ids)
    ensures forall p :: p in Snapshot(rows, ids) ==> p.id in rows && p.id in ids && p.output == rows[p.id].output
  {
    if ids != [] {
      SnapshotIsComplete(rows, ids[1..]);
    }
  }

  /** Releasing drops exactly the purged exports' references, and a blob goes only with its last one. */
  lemma {:induction false} ReleasedRefs(s: State, purged: seq<Purged>)
    requires RefsHaveBlobs(s)
    ensures var s' := Released(s, purged);
      && RefsHaveBlobs(s') && s'.rows == s.rows && s'.blobs <= s.blobs
      && (forall r :: r in s'.refs <==> r in s.refs && !Releases(purged, r))
      && (forall c :: c in s.blobs && c !in s'.blobs ==> Unreferenced(s', c))
    decreases |purged|
  {
    hide Cleaned, Unreferenced;
    if purged != [] {
      DroppedRefs(s, purged[0]);
      ReleasedRefs(Dropped(s, purged[0]), purged[1..]);
      assert purged == [purged[0]] + purged[1..];
      StaysUnreferenced(Dropped(s, purged[0]), Released(s, purged));
    }
  }

  lemma StaysUnreferenced(s: State, s': State)
    requires s'.refs <= s.refs
    ensures forall c :: Unreferenced(s, c) ==> Unreferenced(s', c)
  {
  }

  predicate Releases(purged: seq<Purged>, r: Ref)
  {
    r.owner.Export? && Purged(r.owner.id, Some(r.checksum)) in purged
  }

  lemma DroppedRefs(s: State, p: Purged)
    requires RefsHaveBlobs(s)
    ensures var s' := Dropped(s, p);
      && RefsHaveBlobs(s') && s'.rows == s.rows && s'.blobs <= s.blobs
      && (forall r :: r in s'.refs <==> r in s.refs && !Releases([p], r))
      && (forall c :: c in s.blobs && c !in s'.blobs ==> Unreferenced(s', c))
      && (forall c :: p.output == Some(c) && c in s'.blobs ==> !Unreferenced(s', c))
  {
  }

  /** A blob goes only as the output of an export released. */
  lemma {:induction false} OnlyOutputsGo(s: State, purged: seq<Purged>)
    ensures forall c :: c in s.blobs && c !in Released(s, purged).blobs ==>
      exists p :: p in purged && p.output == Some(c)
    decreases |purged|
  {
    hide Unreferenced;
    if purged != [] {
      OnlyOutputsGo(Dropped(s, purged[0]), purged[1..]);
      assert purged == [purged[0]] + purged[1..];
    }
  }

  /** Releasing touches neither tasks nor the ids in use. */
  lemma {:induction false} ReleasedKeepsTasks(s: State, purged: seq<Purged>)
    ensures Released(s, purged).tasks == s.tasks && Released(s, purged).created == s.created
    decreases |purged|
  {
    if purged != [] {
      ReleasedKeepsTasks(Dropped(s, purged[0]), purged[1..]);
    }
  }

  /** A sweep deletes the rows it read and their references, and takes exactly those of their outputs that
    * nothing else references: every blob that goes was one, unreferenced in the end, and one that stays has
    * another reference. */
  lemma SweepCollects(s: State, expired: seq<ExportId>)
    requires Inv(s)
    ensures var s' := Swept(s, expired);
      && (forall id :: id in s'.rows <==> id in s.rows && id !in expired)
      && (forall id :: id in s'.rows ==> s'.rows[id] == s.rows[id])
      && (forall r :: r in s'.refs <==> r in s.refs && !OfExpired(s, expired, r))
      && s'.blobs <= s.blobs
      && (forall c :: c in s.blobs && c !in s'.blobs ==>
            Unreferenced(s', c) && exists id :: id in expired && id in s.rows && s.rows[id].output == Some(c))
      && (forall r :: r in s'.refs ==> r.checksum in s'.blobs)
      && (forall id :: (id in expired && id in s.rows && s.rows[id].output.Some?) ==>
            s.rows[id].output.value in s'.blobs ==> !Unreferenced(s', s.rows[id].output.value))
  {
    hide Inv, Snapshot, WithoutRows, Released, Unreferenced;
    var purged := Snapshot(s.rows, expired);
    var s1 := s.(rows := WithoutRows(s.rows, purged));
    assert RefsHaveBlobs(s) by { InvHasBlobs(s); }
    SnapshotIsComplete(s.rows, expired);
    PurgedRowsAreGone(s.rows, purged);
    ReleasedRefs(s1, purged);
    forall c | c in s.blobs && c !in Swept(s, expired).blobs
      ensures exists id :: id in expired && id in s.rows && s.rows[id].output == Some(c)
    {
      OnlyOutputsGo(s1, purged);
      var p :| p in purged && p.output == Some(c);
      assert p.id in expired && p.id in s.rows && s.rows[p.id].output == Some(c);
    }
    forall id | id in expired && id in s.rows && s.rows[id].output.Some?
      ensures s.rows[id].output.value in Swept(s, expired).blobs ==>
        !Unreferenced(Swept(s, expired), s.rows[id].output.value)
    {
      ReleasedCollects(s1, purged, id, s.rows[id].output.value);
    }
  }

  lemma InvHasBlobs(s: State)
    requires Inv(s)
    ensures RefsHaveBlobs(s)
  {
  }

  predicate OfExpired(s: State, expired: seq<ExportId>, r: Ref)
  {
    && r.owner.Export? && r.owner.id in expired && r.owner.id in s.rows
    && s.rows[r.owner.id].output == Some(r.checksum)
  }

  /** A blob that outlives the release of one of its owners has another. */
  lemma {:induction false} ReleasedCollects(s: State, purged: seq<Purged>, id: ExportId, c: Checksum)
    requires RefsHaveBlobs(s) && Purged(id, Some(c)) in purged
    ensures c in Released(s, purged).blobs ==> !Unreferenced(Released(s, purged), c)
    decreases |purged|
  {
    hide Cleaned, Unreferenced;
    var s1 := Dropped(s, purged[0]);
    DroppedRefs(s, purged[0]);
    assert purged == [purged[0]] + purged[1..];
    if Purged(id, Some(c)) in purged[1..] {
      ReleasedCollects(s1, purged[1..], id, c);
    } else {
      StaysHeld(s1, purged[1..], c);
    }
  }

  /** Releasing never takes a blob's last reference and leaves the blob. */
  lemma {:induction false} StaysHeld(s: State, purged: seq<Purged>, c: Checksum)
    requires RefsHaveBlobs(s) && (c in s.blobs ==> !Unreferenced(s, c))
    ensures c in Released(s, purged).blobs ==> !Unreferenced(Released(s, purged), c)
    decreases |purged|
  {
    hide Cleaned;
    if purged != [] {
      var s1 := Dropped(s, purged[0]);
      DroppedRefs(s, purged[0]);
      if c in s1.blobs && purged[0].output != Some(c) {
        var r :| r in s.refs && r.checksum == c;
        assert r in s1.refs;
      }
      StaysHeld(s1, purged[1..], c);
    }
  }

  // ---------------------------------------------------------------------------
  // A reader's deletion
  // ---------------------------------------------------------------------------

  /** What an undisturbed deletion by the export's reader leaves: the reference goes first, then the blob if
    * nothing else holds it, then the row. */
  function Forgot(s: State, id: ExportId): State
    requires id in s.rows
  {
    match s.rows[id].output
    case None => s.(rows := s.rows - {id})
    case Some(c) =>
      var dropped := s.(refs := s.refs - {Ref(c, Export(id))}, forgotten := s.forgotten + {id});
      Cleaned(dropped, c).(rows := s.rows - {id})
  }

  lemma RowForgotten(s: State, t: TaskId, id: ExportId)
    requires t !in s.tasks
    ensures Step(With(s, t, Forget(id, DeleteRow)), Advance(t, Broken)) == s.(rows := s.rows - {id})
  {
    WithThenEnd(s, t, Forget(id, DeleteRow));
  }

  lemma RefForgotten(s: State, t: TaskId, id: ExportId, c: Checksum)
    requires t !in s.tasks
    ensures Step(With(s, t, Forget(id, DropRef(c))), Advance(t, Broken))
         == With(s.(refs := s.refs - {Ref(c, Export(id))}, forgotten := s.forgotten + {id}), t, Forget(id, DeleteBlob(c)))
  {
    var s0 := With(s, t, Forget(id, DropRef(c)));
    assert s0.tasks[t := Forget(id, DeleteBlob(c))] == s.tasks[t := Forget(id, DeleteBlob(c))];
  }

  lemma CleanedThenRow(s: State, t: TaskId, id: ExportId, c: Checksum)
    requires t !in s.tasks
    ensures AfterDelete(Cleaned(With(s, t, Forget(id, DeleteBlob(c))), c), t)
         == With(Cleaned(s, c), t, Forget(id, DeleteRow))
  {
    var task := Forget(id, DeleteRow);
    assert s.tasks[t := Forget(id, DeleteBlob(c))][t := task] == s.tasks[t := task];
  }

  /** An undisturbed deletion is a run of one task's steps. */
  lemma ForgotIsARun(s: State, t: TaskId, id: ExportId) returns (run: seq<Action>)
    requires t !in s.tasks && id in s.rows
    ensures forall a :: a in run ==> a == StartForget(t, id) || Ours(a, t)
    ensures Exec(s, run) == Forgot(s, id)
  {
    hide Exec, Cleaned;
    var go := Advance(t, Broken);
    match s.rows[id].output
    case None =>
      assert Step(s, StartForget(t, id)) == With(s, t, Forget(id, DeleteRow));
      RowForgotten(s, t, id);
      run := [StartForget(t, id), go];
      ExecTwo(s, StartForget(t, id), go);
    case Some(c) =>
      var s0, s1 := With(s, t, Forget(id, DropRef(c))),
                    s.(refs := s.refs - {Ref(c, Export(id))}, forgotten := s.forgotten + {id});
      var s2, s3 := With(s1, t, Forget(id, DeleteBlob(c))), Cleaned(s1, c);
      assert Step(s, StartForget(t, id)) == s0;
      RefForgotten(s, t, id, c);
      var clean := DeleteSteps(s2, t, c);
      CleanedThenRow(s1, t, id, c);
      CleanedKeeps(s1, c);
      RowForgotten(s3, t, id);
      run := [StartForget(t, id), go] + (clean + ([go] + []));
      ExecConcat(s, [StartForget(t, id), go], clean + ([go] + []));
      ExecTwo(s, StartForget(t, id), go);
      ExecConcat(s2, clean, [go] + []);
      ExecCons(With(s3, t, Forget(id, DeleteRow)), go, []);
      ExecNothing(s3.(rows := s3.rows - {id}));
  }

  lemma CleanedKeeps(s: State, c: Checksum)
    ensures Cleaned(s, c).tasks == s.tasks && Cleaned(s, c).rows == s.rows
  {
  }

  /** A deletion takes the row, its reference, and its output, blob and file, unless something else references
    * it; no other row, reference, blob or file, and no task. */
  lemma ForgetCollects(s: State, id: ExportId)
    requires Inv(s) && id in s.rows
    ensures var s', output := Forgot(s, id), s.rows[id].output;
      && s'.tasks == s.tasks && s'.created == s.created && s'.queued == s.queued
      && (forall i :: i in s'.rows <==> i in s.rows && i != id)
      && (forall i :: i in s'.rows ==> s'.rows[i] == s.rows[i])
      && (forall r :: r in s'.refs <==> r in s.refs && !(output == Some(r.checksum) && r.owner == Export(id)))
      && (forall c :: c in s'.blobs <==>
            c in s.blobs && (output == Some(c) ==> exists r :: r in s'.refs && r.checksum == c))
      && (forall c :: c in s'.files <==> c in s.files && !(c in s.blobs && c !in s'.blobs))
  {
    if s.rows[id].output.Some? {
      var c := s.rows[id].output.value;
      var s' := Forgot(s, id);
      assert Unreferenced(s', c) <==> !exists r :: r in s'.refs && r.checksum == c;
    }
  }

  // ---------------------------------------------------------------------------
  // The instance
  // ---------------------------------------------------------------------------

  /** What `produce` came back with. */
  datatype Produced = Artifact(c: Checksum) | ProduceFailed(transient: bool)

  /** What the queue is told. */
  datatype Outcome = Done | Transient | Fatal

  function Found(artifact: Produced): Option<Checksum>
  {
    match artifact
    case Artifact(c) => Some(c)
    case ProduceFailed(_) => None
  }

  /** The tables and the store, with no other task running. */
  class Instance {
    var queued: set<ExportId>
    var created: set<ExportId>
    var forgotten: set<ExportId>
    var rows: map<ExportId, Row>
    var blobs: set<Checksum>
    var files: set<Checksum>
    var refs: set<Ref>

    ghost function View(): State
      reads this
    {
      State(queued, created, forgotten, rows, blobs, files, refs, map[])
    }

    constructor ()
      ensures View() == INIT
    {
      queued, created, forgotten := {}, {}, {};
      rows, blobs, files, refs := map[], {}, {}, {};
    }

    /** Ask for export `id`: the queue row first, then its own. */
    method Request(id: ExportId)
      modifies this`queued, this`created, this`rows
      ensures View() == Step(Step(old(View()), Enqueue(id)), Create(id))
    {
      queued := queued + {id};
      if id !in created {
        created := created + {id};
        rows := rows[id := Row(Queued, None)];
      }
    }

    method Put(c: Checksum)
      modifies this`blobs, this`files
      ensures View() == old(View()).(blobs := old(blobs) + {c}, files := old(files) + {c})
    {
      if c in blobs && c in files {
        assert blobs == blobs + {c} && files == files + {c};
        return;
      }
      files := files + {c};
      blobs := blobs + {c};
    }

    method DeleteIfUnreferenced(c: Checksum) returns (removed: bool)
      modifies this`blobs, this`files
      ensures View() == Cleaned(old(View()), c)
      ensures removed <==> old(c in blobs && Unreferenced(View(), c))
    {
      if c !in blobs || exists r :: r in refs && r.checksum == c {
        return false;
      }
      blobs := blobs - {c};
      files := files - {c};
      return true;
    }

    /** Carry out one delivery of export `id`. */
    method Run(id: ExportId, artifact: Produced, refOk: bool) returns (outcome: Outcome)
      modifies this`rows, this`blobs, this`files, this`refs
      ensures View() == Ran(old(View()), id, Found(artifact), refOk)
      ensures id !in old(rows) ==> outcome == Transient
      ensures old(Finished(View(), id)) ==> outcome == Done
      ensures id in old(rows) && !old(Finished(View(), id)) ==>
                outcome == match artifact
                           case Artifact(_) => if refOk then Done else Transient
                           case ProduceFailed(transient) => if transient then Transient else Fatal
    {
      if id !in rows {
        return Transient;
      }
      if rows[id].state == Ready || rows[id].state == Failed {
        return Done;
      }
      rows := rows[id := rows[id].(state := Running)];
      match artifact {
        case ProduceFailed(transient) =>
          rows := rows[id := rows[id].(state := Failed)];
          assert rows == old(rows)[id := old(rows)[id].(state := Failed)];
          return if transient then Transient else Fatal;
        case Artifact(c) =>
          Put(c);
          if !refOk {
            var _ := DeleteIfUnreferenced(c);
            return Transient;
          }
          refs := refs + {Ref(c, Export(id))};
          rows := rows[id := Row(Ready, Some(c))];
          assert rows == old(rows)[id := Row(Ready, Some(c))];
          return Done;
      }
    }

    /** A reader deletes an export; for one that is not there the answer is an error, here `false`. */
    method Delete(id: ExportId) returns (removed: bool)
      modifies this`rows, this`blobs, this`files, this`refs, this`forgotten
      ensures View() == if id in old(rows) then Forgot(old(View()), id) else old(View())
      ensures removed <==> id in old(rows)
    {
      if id !in rows {
        return false;
      }
      match rows[id].output {
        case None =>
        case Some(c) =>
          refs := refs - {Ref(c, Export(id))};
          forgotten := forgotten + {id};
          var _ := DeleteIfUnreferenced(c);
      }
      rows := rows - {id};
      return true;
    }

    /** Read the expired rows, then delete them one by one. */
    method PurgeExpired(expired: seq<ExportId>) returns (purged: seq<Purged>)
      modifies this`rows
      ensures purged == Snapshot(old(rows), expired)
      ensures View() == old(View()).(rows := WithoutRows(old(rows), purged))
    {
      purged := Snapshot(rows, expired);
      var i := 0;
      ghost var all := WithoutRows(rows, purged);
      while i < |purged|
        invariant 0 <= i <= |purged|
        invariant WithoutRows(rows, purged[i..]) == all
        invariant View() == old(View()).(rows := rows)
      {
        rows := rows - {purged[i].id};
        i := i + 1;
        assert purged[i - 1..][1..] == purged[i..];
      }
    }

    /** Delete the exports past their retention, with their output; a retention of zero or less keeps
      * everything. */
    method Sweep(expired: seq<ExportId>, retentionDays: int) returns (removed: nat)
      modifies this`rows, this`blobs, this`files, this`refs
      ensures View() == if retentionDays <= 0 then old(View()) else Swept(old(View()), expired)
      ensures removed == if retentionDays <= 0 then 0 else |Snapshot(old(rows), expired)|
    {
      hide Cleaned, Snapshot, WithoutRows;
      if retentionDays <= 0 {
        return 0;
      }
      var purged := PurgeExpired(expired);
      removed := 0;
      ghost var all := Released(View(), purged);
      while removed < |purged|
        invariant removed <= |purged|
        invariant Released(View(), purged[removed..]) == all
      {
        var p := purged[removed];
        ghost var before := View();
        if p.output.Some? {
          refs := refs - {Ref(p.output.value, Export(p.id))};
          var _ := DeleteIfUnreferenced(p.output.value);
        }
        assert View() == Dropped(before, p);
        assert purged[removed..][0] == p && purged[removed..][1..] == purged[removed + 1..];
        removed := removed + 1;
      }
    }
  }
}
