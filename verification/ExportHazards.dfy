/** Interleavings the code allows and its own comments rule out, each for every state it can start from:
  * a ready export with no file on disk, references no sweep will ever collect, a ready export whose blob
  * its own reader's interrupted deletion took away, and overlapping deliveries that undo each other.
  */
module ExportHazards {
  import opened Wrappers
  import opened Exports
  import opened ExportService

  /** A sweep of one export, up to the statement that drops its reference. */
  lemma SweepToDrop(s: State, t: TaskId, id: ExportId, c: Checksum) returns (run: seq<Action>)
    requires t !in s.tasks && id in s.rows && s.rows[id].output == Some(c)
    ensures forall a :: a in run ==> a == StartSweep(t, [id]) || Ours(a, t)
    ensures Exec(s, run) == With(s.(rows := s.rows - {id}), t, Sweep([], [Purged(id, Some(c))], DropRef(c)))
  {
    var p, go := Purged(id, Some(c)), Advance(t, Broken);
    var s0, s1 := With(s, t, Sweep([p], [], DeleteRow)), s.(rows := s.rows - {id});
    OneExpired(s, id, p);
    assert Step(s, StartSweep(t, [id])) == s0;
    var purge := PurgeSteps(s, t, [p], []);
    assert [] + [p] == [p] && WithoutRows(s.rows, [p]) == s1.rows;
    var s2, s3 := With(s1, t, Sweep([], [p], DeleteRow)), With(s1, t, Sweep([], [p], DropRef(c)));
    assert Step(s2, go) == s3 by {
      assert s2.tasks[t := Sweep([], [p], DropRef(c))] == s3.tasks;
    }
    run := [StartSweep(t, [id])] + (purge + ([go] + []));
    Chain(s, StartSweep(t, [id]), purge, go);
  }

  lemma Chain(s: State, a: Action, middle: seq<Action>, b: Action)
    ensures Exec(s, [a] + (middle + ([b] + []))) == Step(Exec(Step(s, a), middle), b)
  {
    hide Step;
    ExecCons(s, a, middle + ([b] + []));
    ExecConcat(Step(s, a), middle, [b] + []);
    ExecCons(Exec(Step(s, a), middle), b, []);
  }

  lemma OneExpired(s: State, id: ExportId, p: Purged)
    requires id in s.rows && p == Purged(id, s.rows[id].output)
    ensures Snapshot(s.rows, [id]) == [p]
  {
    assert [id][1..] == [] && Snapshot(s.rows, []) == [];
  }

  /** The same sweep, up to the moment between deleting the blob's row and removing its file. */
  lemma SweepToRemoval(s: State, t: TaskId, id: ExportId, c: Checksum) returns (run: seq<Action>)
    requires t !in s.tasks && id in s.rows && s.rows[id].output == Some(c) && c in s.blobs
    requires forall r :: r in s.refs && r.checksum == c ==> r.owner == Export(id)
    ensures forall a :: a in run ==> a == StartSweep(t, [id]) || Ours(a, t)
    ensures Exec(s, run)
      == With(s.(rows := s.rows - {id}, refs := s.refs - {Ref(c, Export(id))}, blobs := s.blobs - {c}),
              t, Sweep([], [Purged(id, Some(c))], RemoveFile(c)))
  {
    var p, go := Purged(id, Some(c)), Advance(t, Broken);
    var start := SweepToDrop(s, t, id, c);
    var s1 := s.(rows := s.rows - {id});
    var s2 := s1.(refs := s.refs - {Ref(c, Export(id))});
    DropStep(s1, t, [p], c);
    var s3 := With(s2, t, Sweep([], [p], DeleteBlob(c)));
    RowGoes(s2, t, p, c);
    run := start + [go, go];
    ExecConcat(s, start, [go, go]);
    ExecTwo(With(s1, t, Sweep([], [p], DropRef(c))), go, go);
  }

  lemma RowGoes(s: State, t: TaskId, p: Purged, c: Checksum)
    requires t !in s.tasks && c in s.blobs && Unreferenced(s, c)
    ensures Step(With(s, t, Sweep([], [p], DeleteBlob(c))), Advance(t, Broken))
         == With(s.(blobs := s.blobs - {c}), t, Sweep([], [p], RemoveFile(c)))
  {
    var s0 := With(s, t, Sweep([], [p], DeleteBlob(c)));
    assert s0.tasks[t := Sweep([], [p], RemoveFile(c))] == s.tasks[t := Sweep([], [p], RemoveFile(c))];
  }

  /** Whenever an expired export is its output's only owner and another open export renders to the
    * same bytes, a sweep and one delivery can leave the second export ready, referenced and with its
    * blob row, but without a file: the collector removes the file the second delivery has just
    * written. Nothing crashes and no reader deletes anything. */
  lemma MissingFile(s: State, id: ExportId, other: ExportId, c: Checksum) returns (run: seq<Action>)
    requires s.tasks == map[] && id in s.rows && s.rows[id].output == Some(c) && c in s.blobs
    requires forall r :: r in s.refs && r.checksum == c ==> r.owner == Export(id)
    requires other != id && other in s.rows && other in s.queued && !Finished(s, other)
    ensures forall a :: a in run ==> a.StartSweep? || a.Claim? || a.Advance?
    ensures var s' := Exec(s, run);
      && s'.tasks == map[]
      && other in s'.rows && s'.rows[other] == Row(Ready, Some(c))
      && Ref(c, Export(other)) in s'.refs && c in s'.blobs && c !in s'.files
  {
    hide Step, Finished, Snapshot;
    var sweep := SweepToRemoval(s, 0, id, c);
    var p, go := Purged(id, Some(c)), Advance(0, Broken);
    var swept := s.(rows := s.rows - {id}, refs := s.refs - {Ref(c, Export(id))}, blobs := s.blobs - {c});
    var s1 := With(swept, 0, Sweep([], [p], RemoveFile(c)));
    assert !Finished(s1, other) by { OnlyItsRow(s, s1, other); }
    var deliver := RanIsARun(s1, 1, other, Some(c), true);
    var made := DeliveredBeside(swept, other, c);
    assert Ran(s1, other, Some(c), true) == With(made, 0, Sweep([], [p], RemoveFile(c)));
    FileGoes(made, p, c);
    run := sweep + (deliver + [go, go]);
    ExecConcat(s, sweep, deliver + [go, go]);
    ExecConcat(s1, deliver, [go, go]);
    ExecTwo(With(made, 0, Sweep([], [p], RemoveFile(c))), go, go);
  }

  lemma OnlyItsRow(s: State, s': State, id: ExportId)
    requires id in s.rows && id in s'.rows && s'.rows[id] == s.rows[id]
    ensures Finished(s', id) == Finished(s, id)
  {
  }

  /** What a delivery leaves, whatever tasks stand beside it. */
  function DeliveredBeside(s: State, id: ExportId, c: Checksum): State
  {
    s.(blobs := s.blobs + {c}, files := s.files + {c}, rows := s.rows[id := Row(Ready, Some(c))],
       refs := s.refs + {Ref(c, Export(id))})
  }

  /** The last two statements of the sweep. */
  lemma FileGoes(s: State, p: Purged, c: Checksum)
    requires s.tasks == map[]
    ensures Step(Step(With(s, 0, Sweep([], [p], RemoveFile(c))), Advance(0, Broken)), Advance(0, Broken))
         == s.(files := s.files - {c})
  {
    var s1, s2 := With(s, 0, Sweep([], [p], RemoveFile(c))), s.(files := s.files - {c});
    assert Step(s1, Advance(0, Broken)) == With(s2, 0, Sweep([], [p], Release)) by {
      assert s1.tasks[0 := Sweep([], [p], Release)] == s2.tasks[0 := Sweep([], [p], Release)];
    }
    ReleaseStep(s2, 0, [p]);
  }

  /** Whenever an export with an output expires, a sweep interrupted between deleting its row and
    * dropping its reference orphans the reference: with the row gone no later sweep reads it again,
    * so the bytes stay for good, whatever runs afterwards. */
  lemma InterruptedSweepLeaks(s: State, id: ExportId, c: Checksum, later: seq<Action>) returns (run: seq<Action>)
    requires Inv(s) && s.tasks == map[]
    requires id in s.rows && s.rows[id].output == Some(c) && id !in s.forgotten
    ensures forall a :: a in run ==> a == StartSweep(0, [id]) || a == Crash(0) || Ours(a, 0)
    ensures var s' := Exec(Exec(s, run), later);
      id !in s'.rows && Ref(c, Export(id)) in s'.refs && c in s'.blobs
  {
    var p := Purged(id, Some(c));
    var start := SweepToDrop(s, 0, id, c);
    var s1 := s.(rows := s.rows - {id});
    run := start + ([Crash(0)] + []);
    ExecConcat(s, start, [Crash(0)] + []);
    ExecCons(With(s1, 0, Sweep([], [p], DropRef(c))), Crash(0), []);
    WithThenEnd(s1, 0, Sweep([], [p], DropRef(c)));
    assert Exec(s, run) == s1;
    RunKeepsInv(s, run);
    StillReferenced(s, id, c);
    OrphansAreForever(s1, later, id, c);
    StaysOrphaned(Exec(s1, later), id, c);
  }

  lemma StillReferenced(s: State, id: ExportId, c: Checksum)
    requires Inv(s) && s.tasks == map[]
    requires id in s.rows && s.rows[id].output == Some(c) && id !in s.forgotten
    ensures Orphaned(s.(rows := s.rows - {id}), id, c)
  {
  }

  lemma StaysOrphaned(s: State, id: ExportId, c: Checksum)
    requires Orphaned(s, id, c)
    ensures id !in s.rows && Ref(c, Export(id)) in s.refs
  {
  }

  /** No crash is needed: a delivery that references its artifact after a sweep has deleted its row orphans
    * the reference just the same. */
  lemma LateReferenceLeaks(s: State, id: ExportId, c: Checksum, later: seq<Action>) returns (run: seq<Action>)
    requires Inv(s) && s.tasks == map[] && id in s.queued && id in s.rows && !Finished(s, id)
    requires s.rows[id].output == None
    ensures forall a :: a in run ==> a.Claim? || a.StartSweep? || a.Advance?
    ensures var s' := Exec(Exec(s, run), later);
      id !in s'.rows && Ref(c, Export(id)) in s'.refs && c in s'.blobs
  {
    hide Step, Finished;
    var marked := s.(rows := s.rows[id := s.rows[id].(state := Running)]);
    var put := marked.(blobs := s.blobs + {c}, files := s.files + {c});
    var s1 := With(put, 1, Delivery(id, AddRef(c)));
    var claim := ClaimSteps(s, 1, id, Broken);
    var make := MakeSteps(marked, 1, id, c);
    var sweep := SweptIsARun(s1, 0, [id]);
    var swept := put.(rows := s.rows - {id});
    OneSwept(s1, swept, id);
    ReferenceComesLate(swept, id, c);
    var go := Advance(1, Made(c));
    run := claim + (make + (sweep + [go, go]));
    ExecConcat(s, claim, make + (sweep + [go, go]));
    ExecConcat(With(marked, 1, Delivery(id, Produce)), make, sweep + [go, go]);
    ExecConcat(s1, sweep, [go, go]);
    ExecTwo(With(swept, 1, Delivery(id, AddRef(c))), go, go);
    RunKeepsInv(s, run);
    var s2 := Exec(s, run);
    assert s2 == swept.(refs := swept.refs + {Ref(c, Export(id))});
    NowOrphaned(s, s2, id, c);
    OrphansAreForever(s2, later, id, c);
    StaysOrphaned(Exec(s2, later), id, c);
  }

  /** A sweep over one export without an output deletes its row and nothing else. */
  lemma OneSwept(s: State, swept: State, id: ExportId)
    requires id in s.rows && s.rows[id].output == None && s.tasks.Keys == {1}
    requires swept == s.(rows := s.rows - {id}, tasks := map[])
    ensures Swept(s, [id]) == With(swept, 1, s.tasks[1])
  {
    var p := Purged(id, None);
    OneExpired(s, id, p);
    assert WithoutRows(s.rows, [p]) == s.rows - {id} && [p][1..] == [];
    var s1 := s.(rows := s.rows - {id});
    assert Released(Dropped(s1, p), []) == s1;
    assert swept.tasks[1 := s.tasks[1]] == s.tasks;
  }

  lemma ReferenceComesLate(s: State, id: ExportId, c: Checksum)
    requires s.tasks == map[] && id !in s.rows && c in s.blobs
    ensures var go := Advance(1, Made(c));
      Step(Step(With(s, 1, Delivery(id, AddRef(c))), go), go) == s.(refs := s.refs + {Ref(c, Export(id))})
  {
    var go := Advance(1, Made(c));
    var s0 := With(s, 1, Delivery(id, AddRef(c)));
    var s1 := With(s.(refs := s.refs + {Ref(c, Export(id))}), 1, Delivery(id, Record(c)));
    assert Step(s0, go) == s1 by {
      assert s0.tasks[1 := Delivery(id, Record(c))] == s1.tasks;
    }
    WithThenEnd(s, 1, Delivery(id, Record(c)));
    assert Step(s1, go).rows == s.rows;
  }

  lemma NowOrphaned(s: State, s': State, id: ExportId, c: Checksum)
    requires Inv(s) && id in s.rows
    requires s'.tasks == map[] && id !in s'.rows && Ref(c, Export(id)) in s'.refs && s'.created == s.created
    ensures Orphaned(s', id, c)
  {
  }

  /** The commonest way: a delivery is cut off between referencing its artifact and recording it, the
    * redelivery renders other bytes, and the sweep drops the reference of those alone. The first artifact
    * is kept for good. */
  lemma StaleReferenceLeaks(s: State, id: ExportId, c: Checksum, other: Checksum, later: seq<Action>)
    returns (run: seq<Action>)
    requires Inv(s) && s.tasks == map[] && id in s.queued && id in s.rows && !Finished(s, id) && c != other
    ensures forall a :: a in run ==> a.Claim? || a.Crash? || a.StartSweep? || a.Advance?
    ensures var s' := Exec(Exec(s, run), later);
      id !in s'.rows && Ref(c, Export(id)) in s'.refs && c in s'.blobs
  {
    hide Step, Finished, Swept, Orphaned, Inv, Ran;
    var cut := ReferencedThenCut(s, id, c);
    var s1 := Exec(s, cut);
    var deliver := RanIsARun(s1, 0, id, Some(other), true);
    var s2 := Ran(s1, id, Some(other), true);
    DeliveredWhole(s1, id, other);
    var sweep := SweptIsARun(s2, 0, [id]);
    run := cut + (deliver + sweep);
    ExecConcat(s, cut, deliver + sweep);
    ExecConcat(s1, deliver, sweep);
    RunKeepsInv(s, run);
    RunKeepsInv(s, cut);
    RunKeepsInv(s1, deliver);
    StaleReferenceStays(s2, id, c, other);
    OrphansAreForever(Exec(s, run), later, id, c);
    StaysOrphaned(Exec(Exec(s, run), later), id, c);
  }

  /** A delivery up to its reference, then a crash. */
  lemma ReferencedThenCut(s: State, id: ExportId, c: Checksum) returns (run: seq<Action>)
    requires s.tasks == map[] && id in s.queued && id in s.rows && !Finished(s, id)
    ensures forall a :: a in run ==> a.Claim? || a.Crash? || a.Advance?
    ensures var s' := Exec(s, run);
      && s'.tasks == map[] && s'.queued == s.queued && s'.created == s.created
      && id in s'.rows && !Finished(s', id) && Ref(c, Export(id)) in s'.refs
  {
    hide Step;
    var running := s.(rows := s.rows[id := s.rows[id].(state := Running)]);
    var put := running.(blobs := s.blobs + {c}, files := s.files + {c});
    var claim := ClaimSteps(s, 1, id, Broken);
    var make := MakeSteps(running, 1, id, c);
    var go := Advance(1, Made(c));
    var s1 := With(put, 1, Delivery(id, AddRef(c)));
    ReferencedAndCut(put, id, c);
    run := claim + (make + [go, Crash(1)]);
    ExecConcat(s, claim, make + [go, Crash(1)]);
    ExecConcat(With(running, 1, Delivery(id, Produce)), make, [go, Crash(1)]);
    ExecTwo(s1, go, Crash(1));
  }

  lemma ReferencedAndCut(s: State, id: ExportId, c: Checksum)
    requires s.tasks == map[] && c in s.blobs
    ensures Step(Step(With(s, 1, Delivery(id, AddRef(c))), Advance(1, Made(c))), Crash(1))
         == s.(refs := s.refs + {Ref(c, Export(id))})
  {
    var s0 := With(s, 1, Delivery(id, AddRef(c)));
    var s1 := With(s.(refs := s.refs + {Ref(c, Export(id))}), 1, Delivery(id, Record(c)));
    assert Step(s0, Advance(1, Made(c))) == s1 by {
      assert s0.tasks[1 := Delivery(id, Record(c))] == s1.tasks;
    }
    WithThenEnd(s, 1, Delivery(id, Record(c)));
  }

  lemma DeliveredWhole(s: State, id: ExportId, c: Checksum)
    requires s.tasks == map[] && id in s.rows && !Finished(s, id)
    ensures Ran(s, id, Some(c), true) == DeliveredBeside(s, id, c)
  {
  }

  lemma StaleReferenceStays(s: State, id: ExportId, c: Checksum, other: Checksum)
    requires Inv(s) && s.tasks == map[] && id in s.rows && s.rows[id].output == Some(other) && c != other
    requires Ref(c, Export(id)) in s.refs
    ensures Orphaned(Swept(s, [id]), id, c)
  {
    hide Snapshot, WithoutRows, Released;
    SweepCollects(s, [id]);
    assert !OfExpired(s, [id], Ref(c, Export(id)));
    var purged := Snapshot(s.rows, [id]);
    ReleasedKeepsTasks(s.(rows := WithoutRows(s.rows, purged)), purged);
    assert id in s.created;
  }

  /** Nor does it take a delivery or a sweep: when an account is erased or a job purged, the row of an export
    * goes by foreign key, and its reference and blob stay for good unless a task read the row before. */
  lemma CascadeLeaksIff(s: State, ids: set<ExportId>, id: ExportId, c: Checksum)
    requires Inv(s) && id in ids && id in s.rows && s.rows[id].output == Some(c) && id !in s.forgotten
    ensures (forall later :: Ref(c, Export(id)) in Exec(Step(s, Cascade(ids)), later).refs)
       <==> (forall t :: t in s.tasks ==> !WillDrop(s.tasks[t], id, c))
  {
    hide WillDrop;
    var s1 := Step(s, Cascade(ids));
    StepKeepsInv(s, Cascade(ids));
    assert id in s1.created && Ref(c, Export(id)) in s1.refs && s1.tasks == s.tasks;
    NeverCollectedIff(s1, id, c);
  }

  /** Whenever a reader deletes an export that is its output's only owner, a crash just before the row
    * goes leaves a row that is still ready and names an output that is gone: no reference, no blob. */
  lemma InterruptedDeletionBreaks(s: State, id: ExportId, c: Checksum)
    requires s.tasks == map[] && id in s.rows && s.rows[id] == Row(Ready, Some(c)) && c in s.blobs
    requires forall r :: r in s.refs && r.checksum == c ==> r.owner == Export(id)
    ensures var go := Advance(0, Broken);
      var s' := Exec(s, [StartForget(0, id), go] + [go, Crash(0)]);
      id in s'.rows && s'.rows[id] == Row(Ready, Some(c)) && Unreferenced(s', c) && c !in s'.blobs
  {
    hide Step;
    var go := Advance(0, Broken);
    var s1 := With(s, 0, Forget(id, DropRef(c)));
    var s2 := s.(refs := s.refs - {Ref(c, Export(id))}, forgotten := s.forgotten + {id});
    DeletionBegins(s, id, c);
    DeletionDrops(s, id, c);
    DeletionIsCut(s2, id, c);
    ExecConcat(s, [StartForget(0, id), go], [go, Crash(0)]);
    ExecTwo(s, StartForget(0, id), go);
    ExecTwo(With(s2, 0, Forget(id, DeleteBlob(c))), go, Crash(0));
  }

  lemma DeletionBegins(s: State, id: ExportId, c: Checksum)
    requires s.tasks == map[] && id in s.rows && s.rows[id].output == Some(c)
    ensures Step(s, StartForget(0, id)) == With(s, 0, Forget(id, DropRef(c)))
  {
  }

  lemma DeletionDrops(s: State, id: ExportId, c: Checksum)
    requires s.tasks == map[]
    ensures var s2 := s.(refs := s.refs - {Ref(c, Export(id))}, forgotten := s.forgotten + {id});
      Step(With(s, 0, Forget(id, DropRef(c))), Advance(0, Broken)) == With(s2, 0, Forget(id, DeleteBlob(c)))
  {
    var s1 := With(s, 0, Forget(id, DropRef(c)));
    assert s1.tasks[0 := Forget(id, DeleteBlob(c))] == s.tasks[0 := Forget(id, DeleteBlob(c))];
  }

  lemma DeletionIsCut(s: State, id: ExportId, c: Checksum)
    requires s.tasks == map[] && c in s.blobs && Unreferenced(s, c)
    ensures var s' := Step(Step(With(s, 0, Forget(id, DeleteBlob(c))), Advance(0, Broken)), Crash(0));
      s'.rows == s.rows && s'.refs == s.refs && c !in s'.blobs
  {
  }

  /** Two overlapping deliveries of an open export: one has set it running, the other delivers it in full,
    * and then the first, failing, turns the ready export into a failed one. */
  lemma OverlapFailsReady(s: State, id: ExportId, c: Checksum) returns (before: seq<Action>, after: seq<Action>)
    requires s.tasks == map[] && id in s.queued && id in s.rows && !Finished(s, id)
    ensures forall a :: a in before + after ==> a.Claim? || a.Advance?
    ensures id in Exec(s, before).rows && Exec(s, before).rows[id] == Row(Ready, Some(c))
    ensures var s' := Exec(s, before + after);
      id in s'.rows && s'.rows[id] == Row(Failed, Some(c))
  {
    hide Step, Finished, Ran;
    var marked := s.(rows := s.rows[id := s.rows[id].(state := Running)]);
    var s1 := With(marked, 1, Delivery(id, Produce));
    var claim := ClaimSteps(s, 1, id, Broken);
    var deliver := DeliverBeside(marked, id, c);
    var made := DeliveredBeside(marked, id, c);
    before := claim + deliver;
    ExecConcat(s, claim, deliver);
    after := [Advance(1, Broken), Advance(1, Broken)];
    FailSteps(made, 1, id);
    ExecConcat(s, before, after);
  }

  /** A whole delivery of a running export beside another one that has yet to produce. */
  lemma DeliverBeside(s: State, id: ExportId, c: Checksum) returns (run: seq<Action>)
    requires s.tasks == map[] && id in s.queued && id in s.rows && s.rows[id].state == Running
    ensures forall a :: a in run ==> a.Claim? || a.Advance?
    ensures Exec(With(s, 1, Delivery(id, Produce)), run) == With(DeliveredBeside(s, id, c), 1, Delivery(id, Produce))
  {
    hide Exec;
    var s1 := With(s, 1, Delivery(id, Produce));
    run := RanIsARun(s1, 0, id, Some(c), true);
  }

  /** The other way round: the first delivery fails the export for good, as it must seem, and the second,
    * already past its first read, makes it ready. */
  lemma OverlapRevivesFailed(s: State, id: ExportId, c: Checksum) returns (before: seq<Action>, after: seq<Action>)
    requires s.tasks == map[] && id in s.queued && id in s.rows && !Finished(s, id)
    ensures forall a :: a in before + after ==> a.Claim? || a.Advance?
    ensures id in Exec(s, before).rows && Exec(s, before).rows[id].state == Failed
    ensures var s' := Exec(s, before + after);
      id in s'.rows && s'.rows[id] == Row(Ready, Some(c))
  {
    hide Step, Finished, Ran;
    var marked := s.(rows := s.rows[id := s.rows[id].(state := Running)]);
    var claim := ClaimSteps(s, 1, id, Broken);
    var fail := FailBeside(marked, id);
    var failed := marked.(rows := marked.rows[id := marked.rows[id].(state := Failed)]);
    before := claim + fail;
    ExecConcat(s, claim, fail);
    after := StoreSteps(failed, 1, id, c, true);
    ExecConcat(s, before, after);
  }

  lemma FailBeside(s: State, id: ExportId) returns (run: seq<Action>)
    requires s.tasks == map[] && id in s.queued && id in s.rows && s.rows[id].state == Running
    ensures forall a :: a in run ==> a.Claim? || a.Advance?
    ensures Exec(With(s, 1, Delivery(id, Produce)), run)
         == With(s.(rows := s.rows[id := s.rows[id].(state := Failed)]), 1, Delivery(id, Produce))
  {
    hide Exec;
    run := RanIsARun(With(s, 1, Delivery(id, Produce)), 0, id, None, true);
  }

  /** An erasure cancels open exports first, lest one be delivered afterwards. It does not help: a delivery
    * turns away from exports that are ready or failed only, so a cancelled one is delivered like any other. */
  lemma CancelledIsDelivered(s: State, id: ExportId, c: Checksum) returns (run: seq<Action>)
    requires s.tasks == map[] && id in s.queued && id in s.rows
    requires s.rows[id].state == Queued || s.rows[id].state == Running
    ensures var s1 := Step(s, CancelOpen(id));
      && id in s1.rows && s1.rows[id] == s.rows[id].(state := Cancelled)
      && (forall a :: a in run ==> a.Claim? || a.Advance?)
      && id in Exec(s1, run).rows && Exec(s1, run).rows[id] == Row(Ready, Some(c))
      && Ref(c, Export(id)) in Exec(s1, run).refs && c in Exec(s1, run).blobs
  {
    hide Exec;
    run := RanIsARun(Step(s, CancelOpen(id)), 0, id, Some(c), true);
  }

  /** Each of these can begin: an instance on which two exports of the same bytes were asked for
    * and one was delivered. */
  lemma SoundStart() returns (run: seq<Action>)
    ensures var s := Exec(INIT, run);
      && Inv(s) && s.tasks == map[] && 0 in s.rows && s.rows[0] == Row(Ready, Some(7)) && 7 in s.blobs
      && s.refs == {Ref(7, Export(0))} && 0 !in s.forgotten
      && 1 in s.rows && s.rows[1] == Row(Queued, None) && 1 in s.queued && !Finished(s, 1)
  {
    var ask := [Enqueue(0), Create(0)];
    var again := [Enqueue(1), Create(1)];
    var s1 := State({0}, {0}, {}, map[0 := Row(Queued, None)], {}, {}, {}, map[]);
    var s2 := State({0, 1}, {0, 1}, {}, map[0 := Row(Queued, None), 1 := Row(Queued, None)], {}, {}, {}, map[]);
    ExecTwo(INIT, Enqueue(0), Create(0));
    assert Exec(INIT, ask) == s1;
    ExecTwo(s1, Enqueue(1), Create(1));
    assert Exec(s1, again) == s2;
    var deliver := RanIsARun(s2, 0, 0, Some(7), true);
    run := ask + (again + deliver);
    ExecConcat(INIT, ask, again + deliver);
    ExecConcat(s1, again, deliver);
    InitIsSound();
    RunKeepsInv(INIT, run);
  }
}
