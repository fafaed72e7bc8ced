/** `store_units` of `imports.rs`: fetch and store a work's units, over any number of attempts. */
module Imports {
  import opened Wrappers
  import opened Decimal

  type Checksum = nat

  datatype Unit = Unit(key: string, ordinal: nat, content: seq<char>)

  datatype UnitState = Pending | Stored | Skipped | Failed

  /** A row of `import_units`; its key is unique within the import. */
  datatype Row = Row(ordinal: nat, state: UnitState, checksum: Option<Checksum>)

  type Table = map<string, Row>

  /** Where the store put a unit's body, or that it could not. */
  type Put = Unit -> Option<Checksum>

  datatype Outcome = Outcome(key: string, ordinal: nat, checksum: Option<Checksum>, stored: bool)

  datatype Ending =
    | Finished(outcomes: seq<Outcome>)          // Ok
    | Incomplete(failed: nat, of: nat)          // the transient error that counts
    | Unfetched                                 // the bulk fetch failed
    | Stopped(cancelled: bool)                  // cancelled, or the database failed

  /** What one attempt meets: the source's answers, the store's, the order the listing comes in, and
    * how many steps it makes before it is cancelled or the database fails, if it is. */
  datatype World = World(
    order: seq<string>, bodyAllowed: bool, perUnit: bool,
    bulk: Option<seq<Unit>>, one: nat -> Option<Unit>, put: Put,
    stop: Option<nat>, cancelled: bool)

  // ---------------------------------------------------------------------------
  // The table
  // ---------------------------------------------------------------------------

  /** Insert or replace; a row that brings no checksum keeps the old one. */
  function Upsert(rows: Table, key: string, row: Row): Table
  {
    rows[key := if row.checksum.None? && key in rows then row.(checksum := rows[key].checksum) else row]
  }

  function OrdinalKey(n: nat): string
  {
    "ordinal-" + Print(n)
  }

  lemma OrdinalKeysDiffer(m: nat, n: nat)
    requires OrdinalKey(m) == OrdinalKey(n)
    ensures m == n
  {
    assert OrdinalKey(m)[8..] == Print(m) && OrdinalKey(n)[8..] == Print(n);
    ValueOfPrint(m);
    ValueOfPrint(n);
  }

  function StoredKeys(rows: Table): set<string>
  {
    set key | key in rows && rows[key].state == Stored
  }

  /** The ordinals of the failed rows, as far as they fit 32 bits, in the listing's order. */
  function FailedOrdinals(rows: Table, order: seq<string>): (f: seq<nat>)
    ensures forall n :: n in f <==>
      exists key :: key in order && key in rows && rows[key].state == Failed && rows[key].ordinal == n && n < 0x1_0000_0000
  {
    if order == [] then []
    else
      var rest := FailedOrdinals(rows, order[1..]);
      var key := order[0];
      if key in rows && rows[key].state == Failed && rows[key].ordinal < 0x1_0000_0000 then [rows[key].ordinal] + rest
      else rest
  }

  predicate PerUnitRetry(rows: Table, w: World)
  {
    rows != map[] && FailedOrdinals(rows, w.order) != [] && w.perUnit
  }

  // ---------------------------------------------------------------------------
  // One attempt
  // ---------------------------------------------------------------------------

  /** A unit that cannot be read again leaves a failed row under a made-up key. */
  function AfterFetch(rows: Table, n: nat, one: nat -> Option<Unit>): Table
  {
    if one(n).None? then Upsert(rows, OrdinalKey(n), Row(n, Failed, None)) else rows
  }

  function AfterFetches(rows: Table, failed: seq<nat>, one: nat -> Option<Unit>): Table
    decreases |failed|
  {
    if failed == [] then rows else AfterFetches(AfterFetch(rows, failed[0], one), failed[1..], one)
  }

  function Fetched(failed: seq<nat>, one: nat -> Option<Unit>): seq<Unit>
  {
    if failed == [] then []
    else (match one(failed[0])
          case Some(unit) => [unit]
          case None => [])
         + Fetched(failed[1..], one)
  }

  function AfterUnit(rows: Table, u: Unit, already: set<string>, put: Put): Table
  {
    if u.key in already then rows
    else
      match put(u)
      case Some(c) => Upsert(rows, u.key, Row(u.ordinal, Stored, Some(c)))
      case None => Upsert(rows, u.key, Row(u.ordinal, Failed, None))
  }

  function AfterUnits(rows: Table, units: seq<Unit>, already: set<string>, put: Put): Table
    decreases |units|
  {
    if units == [] then rows else AfterUnits(AfterUnit(rows, units[0], already, put), units[1..], already, put)
  }

  function OutcomeOf(u: Unit, already: set<string>, put: Put): Outcome
  {
    if u.key in already then Outcome(u.key, u.ordinal, None, true)
    else Outcome(u.key, u.ordinal, put(u), put(u).Some?)
  }

  function Outcomes(units: seq<Unit>, already: set<string>, put: Put): (o: seq<Outcome>)
    ensures |o| == |units| && forall k :: 0 <= k < |o| ==> o[k] == OutcomeOf(units[k], already, put)
  {
    if units == [] then [] else [OutcomeOf(units[0], already, put)] + Outcomes(units[1..], already, put)
  }

  function Unstored(outcomes: seq<Outcome>): nat
  {
    if outcomes == [] then 0 else (if outcomes[0].stored then 0 else 1) + Unstored(outcomes[1..])
  }

  /** The part of `steps` an attempt gets through. */
  function Steps(stop: Option<nat>, from: nat, steps: nat): (n: nat)
    ensures n <= steps
  {
    match stop
    case None => steps
    case Some(p) => if p < from then 0 else if p - from < steps then p - from else steps
  }

  predicate StopsWithin(stop: Option<nat>, steps: nat)
  {
    stop.Some? && stop.value <= steps
  }

  function Ended(units: seq<Unit>, already: set<string>, put: Put): Ending
  {
    var outcomes := Outcomes(units, already, put);
    if Unstored(outcomes) > 0 then Incomplete(Unstored(outcomes), |outcomes|) else Finished(outcomes)
  }

  /** The table and the answer after storing `units`, `before` steps into the attempt. */
  function StoreAll(rows: Table, units: seq<Unit>, already: set<string>, w: World, before: nat): (Table, Ending)
  {
    (AfterUnits(rows, units[..Steps(w.stop, before, |units|)], already, w.put),
     if StopsWithin(w.stop, before + |units|) then Stopped(w.cancelled) else Ended(units, already, w.put))
  }

  /** One attempt: bulk for a fresh import, unit by unit for a retry where the source can. */
  function Attempt(rows: Table, w: World): (Table, Ending)
  {
    if !w.bodyAllowed then (rows, Finished([]))
    else if PerUnitRetry(rows, w) then
      var failed := FailedOrdinals(rows, w.order);
      var rows' := AfterFetches(rows, failed[..Steps(w.stop, 0, |failed|)], w.one);
      if w.stop.Some? && w.stop.value < |failed| then (rows', Stopped(w.cancelled))
      else StoreAll(rows', Fetched(failed, w.one), StoredKeys(rows), w, |failed|)
    else
      match w.bulk
      case None => (rows, Unfetched)
      case Some(units) => StoreAll(rows, units, StoredKeys(rows), w, 0)
  }

  // ---------------------------------------------------------------------------
  // What a pass over the units leaves
  // ---------------------------------------------------------------------------

  lemma {:induction false} UnitsLeaveOthers(rows: Table, units: seq<Unit>, already: set<string>, put: Put, key: string)
    requires key in already || forall k :: 0 <= k < |units| ==> units[k].key != key
    ensures var after := AfterUnits(rows, units, already, put);
      (key in after <==> key in rows) && (key in rows ==> after[key] == rows[key])
    decreases |units|
  {
    if units != [] {
      UnitsLeaveOthers(AfterUnit(rows, units[0], already, put), units[1..], already, put, key);
    }
  }

  /** Of the fetched units that share a key, the last one decides the row. */
  lemma {:induction false} LastOneWins(rows: Table, units: seq<Unit>, already: set<string>, put: Put, i: nat)
    requires i < |units| && units[i].key !in already
    requires forall k :: i < k < |units| ==> units[k].key != units[i].key
    ensures var after := AfterUnits(rows, units, already, put);
      && units[i].key in after && after[units[i].key].ordinal == units[i].ordinal
      && (put(units[i]).Some? ==> after[units[i].key] == Row(units[i].ordinal, Stored, put(units[i])))
      && (put(units[i]).None? ==> after[units[i].key].state == Failed)
    decreases |units|
  {
    if i == 0 {
      UnitsLeaveOthers(AfterUnit(rows, units[0], already, put), units[1..], already, put, units[0].key);
    } else {
      LastOneWins(AfterUnit(rows, units[0], already, put), units[1..], already, put, i - 1);
    }
  }

  lemma {:induction false} AllStored(rows: Table, units: seq<Unit>, already: set<string>, put: Put, u: Unit)
    requires u in units && forall k :: 0 <= k < |units| ==> units[k].key in already || put(units[k]).Some?
    requires forall key :: key in already ==> key in rows && rows[key].state == Stored
    ensures var after := AfterUnits(rows, units, already, put);
      u.key in after && after[u.key].state == Stored
    decreases |units|
  {
    if u.key in already {
      UnitsLeaveOthers(rows, units, already, put, u.key);
    } else {
      var rows' := AfterUnit(rows, units[0], already, put);
      if u in units[1..] {
        AllStored(rows', units[1..], already, put, u);
      } else {
        StaysStored(rows', units[1..], already, put, u.key);
      }
    }
  }

  lemma {:induction false} StaysStored(rows: Table, units: seq<Unit>, already: set<string>, put: Put, key: string)
    requires key in rows && rows[key].state == Stored
    requires forall k :: 0 <= k < |units| ==> units[k].key in already || put(units[k]).Some?
    ensures var after := AfterUnits(rows, units, already, put);
      key in after && after[key].state == Stored
    decreases |units|
  {
    if units != [] {
      StaysStored(AfterUnit(rows, units[0], already, put), units[1..], already, put, key);
    }
  }

  lemma {:induction false} UnstoredIffAny(outcomes: seq<Outcome>)
    ensures Unstored(outcomes) == 0 <==> forall k :: 0 <= k < |outcomes| ==> outcomes[k].stored
  {
    if outcomes != [] {
      UnstoredIffAny(outcomes[1..]);
      assert outcomes == [outcomes[0]] + outcomes[1..];
    }
  }

  /** On the bulk path `Ok` means that every unit the source gave is stored, repeated keys or not. */
  lemma BulkOkStoresAll(rows: Table, w: World, u: Unit)
    requires w.bodyAllowed && !PerUnitRetry(rows, w) && w.bulk.Some? && u in w.bulk.value
    requires Attempt(rows, w).1.Finished?
    ensures var after := Attempt(rows, w).0;
      u.key in after && after[u.key].state == Stored
  {
    var units, already := w.bulk.value, StoredKeys(rows);
    var outcomes := Outcomes(units, already, w.put);
    UnstoredIffAny(outcomes);
    assert units[..|units|] == units;
    forall k | 0 <= k < |units|
      ensures units[k].key in already || w.put(units[k]).Some?
    {
      assert outcomes[k].stored;
    }
    AllStored(rows, units, already, w.put, u);
  }

  /** How many of the fetched units the table holds as failed. */
  function FailedAmong(rows: Table, units: seq<Unit>): nat
  {
    if units == [] then 0
    else (if units[0].key in rows && rows[units[0].key].state == Failed then 1 else 0) + FailedAmong(rows, units[1..])
  }

  /** Fetched units that share a key, not stored already, can all be put or none can. */
  ghost predicate SameFate(units: seq<Unit>, already: set<string>, put: Put)
  {
    forall i, j :: 0 <= i < j < |units| && units[i].key == units[j].key && units[i].key !in already ==>
      put(units[i]).Some? == put(units[j]).Some?
  }

  /** The table says of a unit what its outcome says. */
  predicate Matches(rows: Table, u: Unit, already: set<string>, put: Put)
  {
    u.key in rows && rows[u.key].state == if OutcomeOf(u, already, put).stored then Stored else Failed
  }

  lemma MatchesByLast(rows: Table, units: seq<Unit>, already: set<string>, put: Put, k: nat)
    requires k < |units|
    requires forall key :: key in already ==> key in rows && rows[key].state == Stored
    requires SameFate(units, already, put)
    ensures Matches(AfterUnits(rows, units, already, put), units[k], already, put)
  {
    hide AfterUnit, AfterUnits;
    if units[k].key in already {
      UnitsLeaveOthers(rows, units, already, put, units[k].key);
    } else {
      var i := LastWithKey(units, units[k].key);
      LastOneWins(rows, units, already, put, i);
      assert k <= i && (k < i ==> put(units[k]).Some? == put(units[i]).Some?);
    }
  }

  /** After a whole pass the table says of every unit what its outcome says if and only if no two units
    * that share a key, not stored already, fared differently. */
  lemma RowsMatchOutcomesIff(rows: Table, units: seq<Unit>, already: set<string>, put: Put)
    requires forall key :: key in already ==> key in rows && rows[key].state == Stored
    ensures (forall k :: 0 <= k < |units| ==> Matches(AfterUnits(rows, units, already, put), units[k], already, put))
       <==> SameFate(units, already, put)
  {
    hide AfterUnits;
    var after := AfterUnits(rows, units, already, put);
    if SameFate(units, already, put) {
      forall k | 0 <= k < |units|
        ensures Matches(after, units[k], already, put)
      {
        MatchesByLast(rows, units, already, put, k);
      }
    }
    if forall k :: 0 <= k < |units| ==> Matches(after, units[k], already, put) {
      forall i, j | 0 <= i < j < |units| && units[i].key == units[j].key && units[i].key !in already
        ensures put(units[i]).Some? == put(units[j]).Some?
      {
        assert Matches(after, units[i], already, put) && Matches(after, units[j], already, put);
      }
    }
  }

  function Last(units: seq<Unit>, key: string): (last: Option<Unit>)
    ensures last.Some? ==> last.value.key == key
  {
    if units == [] then None
    else if units[|units| - 1].key == key then Some(units[|units| - 1])
    else Last(units[..|units| - 1], key)
  }

  predicate Fails(u: Unit, already: set<string>, put: Put)
  {
    u.key !in already && put(u).None?
  }

  /** The last fetched unit with the key, which decides the row, fails. */
  predicate FailsInTheEnd(units: seq<Unit>, key: string, already: set<string>, put: Put)
  {
    Last(units, key).Some? && Fails(Last(units, key).value, already, put)
  }

  /** How many of `part` fail though the last unit with their key succeeds, and the other way round. */
  function Revived(units: seq<Unit>, part: seq<Unit>, already: set<string>, put: Put): nat
    decreases |part|
  {
    if part == [] then 0
    else (if Fails(part[0], already, put) && !FailsInTheEnd(units, part[0].key, already, put) then 1 else 0)
         + Revived(units, part[1..], already, put)
  }

  function Lost(units: seq<Unit>, part: seq<Unit>, already: set<string>, put: Put): nat
    decreases |part|
  {
    if part == [] then 0
    else (if !Fails(part[0], already, put) && FailsInTheEnd(units, part[0].key, already, put) then 1 else 0)
         + Lost(units, part[1..], already, put)
  }

  lemma {:induction false} LastIs(units: seq<Unit>, i: nat)
    requires i < |units| && forall k :: i < k < |units| ==> units[k].key != units[i].key
    ensures Last(units, units[i].key) == Some(units[i])
    decreases |units|
  {
    if i < |units| - 1 {
      LastIs(units[..|units| - 1], i);
    }
  }

  lemma TableSaysLast(rows: Table, units: seq<Unit>, already: set<string>, put: Put, u: Unit)
    requires u in units
    requires forall key :: key in already ==> key in rows && rows[key].state == Stored
    ensures var after := AfterUnits(rows, units, already, put);
      u.key in after && after[u.key].state == if FailsInTheEnd(units, u.key, already, put) then Failed else Stored
  {
    hide AfterUnits, Last;
    var i := LastWithKey(units, u.key);
    LastIs(units, i);
    if u.key in already {
      UnitsLeaveOthers(rows, units, already, put, u.key);
    } else {
      LastOneWins(rows, units, already, put, i);
    }
  }

  lemma {:induction false} CountsDiffer(rows: Table, units: seq<Unit>, part: seq<Unit>, already: set<string>, put: Put)
    requires forall u :: u in part ==>
      u.key in rows && (rows[u.key].state == Failed <==> FailsInTheEnd(units, u.key, already, put))
    ensures FailedAmong(rows, part) + Revived(units, part, already, put)
         == Unstored(Outcomes(part, already, put)) + Lost(units, part, already, put)
    decreases |part|
  {
    hide FailsInTheEnd;
    if part != [] {
      CountsDiffer(rows, units, part[1..], already, put);
      assert part[0] in part && forall u :: u in part[1..] ==> u in part;
      assert Outcomes(part, already, put)[1..] == Outcomes(part[1..], already, put);
    }
  }

  /** What the answer of a pass reports as failed; `Ok` reports none. */
  function Reported(ending: Ending): nat
  {
    if ending.Incomplete? then ending.failed else 0
  }

  /** The answer of a pass counts exactly the fetched units the table then holds as failed, bulk or unit by
    * unit, if and only if as many units fail whose key's last unit succeeds as succeed whose key's last unit
    * fails. `Ok` is never wrong, and when no two units with one key fare differently there are neither. */
  lemma CountIsExactIff(rows: Table, units: seq<Unit>, w: World, before: nat, already: set<string>)
    requires forall key :: key in already ==> key in rows && rows[key].state == Stored
    requires !StopsWithin(w.stop, before + |units|)
    ensures var (after, ending) := StoreAll(rows, units, already, w, before);
      && (forall u :: u in units ==>
            u.key in after && after[u.key].state == if FailsInTheEnd(units, u.key, already, w.put) then Failed else Stored)
      && (Reported(ending) == FailedAmong(after, units)
          <==> Revived(units, units, already, w.put) == Lost(units, units, already, w.put))
      && (ending.Incomplete? ==> ending.of == |units|)
      && (ending.Finished? ==> FailedAmong(after, units) == 0)
    ensures SameFate(units, already, w.put) ==>
      Revived(units, units, already, w.put) == 0 == Lost(units, units, already, w.put)
  {
    hide AfterUnits, FailsInTheEnd, SameFate, Outcomes, Unstored, Revived, Lost, FailedAmong;
    var outcomes := Outcomes(units, already, w.put);
    assert units[..|units|] == units;
    forall u | u in units
      ensures var after := AfterUnits(rows, units, already, w.put);
        u.key in after && after[u.key].state == if FailsInTheEnd(units, u.key, already, w.put) then Failed else Stored
    {
      TableSaysLast(rows, units, already, w.put, u);
    }
    CountsDiffer(AfterUnits(rows, units, already, w.put), units, units, already, w.put);
    if Unstored(outcomes) == 0 {
      UnstoredIffAny(outcomes);
      assert forall k :: 0 <= k < |units| ==> outcomes[k].stored;
      forall u | u in units
        ensures !Fails(u, already, w.put) && !FailsInTheEnd(units, u.key, already, w.put)
      {
        NoneFails(units, already, w.put, u);
      }
      NoneCounted(units, units, already, w.put);
    }
    if SameFate(units, already, w.put) {
      forall u | u in units
        ensures Fails(u, already, w.put) == FailsInTheEnd(units, u.key, already, w.put)
      {
        FateOfLast(units, already, w.put, u);
      }
      NoneCounted(units, units, already, w.put);
    }
  }

  lemma NoneFails(units: seq<Unit>, already: set<string>, put: Put, u: Unit)
    requires u in units && forall k :: 0 <= k < |units| ==> !Fails(units[k], already, put)
    ensures !Fails(u, already, put) && !FailsInTheEnd(units, u.key, already, put)
  {
    hide Last;
    var i := LastWithKey(units, u.key);
    LastIs(units, i);
  }

  lemma FateOfLast(units: seq<Unit>, already: set<string>, put: Put, u: Unit)
    requires u in units && SameFate(units, already, put)
    ensures Fails(u, already, put) == FailsInTheEnd(units, u.key, already, put)
  {
    hide Last;
    var k :| 0 <= k < |units| && units[k] == u;
    var i := LastWithKey(units, u.key);
    LastIs(units, i);
    assert k <= i && (k < i && u.key !in already ==> put(units[k]).Some? == put(units[i]).Some?);
  }

  lemma {:induction false} NoneCounted(units: seq<Unit>, part: seq<Unit>, already: set<string>, put: Put)
    requires forall u :: u in part ==> Fails(u, already, put) == FailsInTheEnd(units, u.key, already, put)
    ensures Revived(units, part, already, put) == 0 == Lost(units, part, already, put)
    decreases |part|
  {
    hide FailsInTheEnd, Fails;
    if part != [] {
      assert part[0] in part && forall u :: u in part[1..] ==> u in part;
      NoneCounted(units, part[1..], already, put);
    }
  }

  /** Otherwise the count can mean nothing: a unit that fails and then succeeds under the same
    * key is counted, though nothing is left failed; the other way round nothing is left stored. */
  lemma RepeatedKeysMiscount(u: Unit, v: Unit, w: World)
    requires u.key == v.key && w.put(u).None? && w.put(v).Some? && w.stop.None?
    ensures var (after, ending) := StoreAll(map[], [u, v], {}, w, 0);
      ending == Incomplete(1, 2) && FailedAmong(after, [u, v]) == 0
    ensures var (after, ending) := StoreAll(map[], [v, u], {}, w, 0);
      ending == Incomplete(1, 2) && FailedAmong(after, [v, u]) == 2
  {
    hide AfterUnits, FailedAmong, Unstored, Outcomes;
    assert [u, v][..2] == [u, v] && [v, u][..2] == [v, u];
    TwoUnits(map[], u, v, w.put);
    TwoUnits(map[], v, u, w.put);
    TwoCounted(AfterUnits(map[], [u, v], {}, w.put), u, v);
    TwoCounted(AfterUnits(map[], [v, u], {}, w.put), v, u);
  }

  lemma TwoUnits(rows: Table, u: Unit, v: Unit, put: Put)
    ensures AfterUnits(rows, [u, v], {}, put) == AfterUnit(AfterUnit(rows, u, {}, put), v, {}, put)
    ensures Unstored(Outcomes([u, v], {}, put)) == (if put(u).Some? then 0 else 1) + (if put(v).Some? then 0 else 1)
  {
    assert [u, v][1..] == [v] && [v][1..] == [];
    assert AfterUnits(rows, [u, v], {}, put) == AfterUnits(AfterUnit(rows, u, {}, put), [v], {}, put);
    var outcomes := Outcomes([u, v], {}, put);
    assert outcomes[1..] == [OutcomeOf(v, {}, put)] && outcomes[1..][1..] == [];
    assert Unstored(outcomes[1..]) == if put(v).Some? then 0 else 1;
  }

  lemma TwoCounted(rows: Table, u: Unit, v: Unit)
    requires u.key == v.key && u.key in rows
    ensures FailedAmong(rows, [u, v]) == if rows[u.key].state == Failed then 2 else 0
  {
    assert [u, v][1..] == [v] && [v][1..] == [];
    assert FailedAmong(rows, [v]) == if rows[u.key].state == Failed then 1 else 0;
  }

  // ---------------------------------------------------------------------------
  // Stored units over any number of attempts
  // ---------------------------------------------------------------------------

  /** The attempt fails to read a unit again under the made-up key `key`. */
  ghost predicate FailsAs(rows: Table, w: World, key: string)
  {
    && w.bodyAllowed && PerUnitRetry(rows, w)
    && exists n :: n in FailedOrdinals(rows, w.order)[..Steps(w.stop, 0, |FailedOrdinals(rows, w.order)|)]
                   && w.one(n).None? && OrdinalKey(n) == key
  }

  lemma {:induction false} FetchesTouch(rows: Table, failed: seq<nat>, one: nat -> Option<Unit>, key: string)
    ensures var after := AfterFetches(rows, failed, one);
      if exists n :: n in failed && one(n).None? && OrdinalKey(n) == key
      then key in after && after[key].state == Failed
      else (key in after <==> key in rows) && (key in rows ==> after[key] == rows[key])
    decreases |failed|
  {
    hide OrdinalKey;
    if failed != [] {
      var rows' := AfterFetch(rows, failed[0], one);
      FetchesTouch(rows', failed[1..], one, key);
      assert failed == [failed[0]] + failed[1..];
    }
  }

  /** A unit stored when an attempt begins is neither rewritten nor lost by it, however it ends, unless a
    * unit it cannot read again happens to be recorded under that very key; and then it is. */
  lemma StoredSurvivesIff(rows: Table, w: World, key: string)
    requires key in rows && rows[key].state == Stored
    ensures var after := Attempt(rows, w).0;
      key in after && (after[key] == rows[key] <==> !FailsAs(rows, w, key))
  {
    hide OrdinalKey;
    var already := StoredKeys(rows);
    if w.bodyAllowed && PerUnitRetry(rows, w) {
      var failed := FailedOrdinals(rows, w.order);
      var tried := failed[..Steps(w.stop, 0, |failed|)];
      var rows' := AfterFetches(rows, tried, w.one);
      FetchesTouch(rows, tried, w.one, key);
      var units := Fetched(failed, w.one);
      UnitsLeaveOthers(rows', units[..Steps(w.stop, |failed|, |units|)], already, w.put, key);
    } else if w.bodyAllowed && w.bulk.Some? {
      UnitsLeaveOthers(rows, w.bulk.value[..Steps(w.stop, 0, |w.bulk.value|)], already, w.put, key);
    }
  }

  /** The units an attempt has fetched, when it gets as far as storing them. */
  function UnitsOf(rows: Table, w: World): seq<Unit>
  {
    if PerUnitRetry(rows, w) then Fetched(FailedOrdinals(rows, w.order), w.one)
    else if w.bulk.Some? then w.bulk.value
    else []
  }

  /** Some row is failed, under an ordinal of 32 bits, and the source reads units one at a time. */
  ghost predicate Retries(rows: Table, w: World)
  {
    w.perUnit && exists key :: key in w.order && key in rows && rows[key].state == Failed && rows[key].ordinal < 0x1_0000_0000
  }

  lemma RetriesIff(rows: Table, w: World)
    ensures Retries(rows, w) <==> PerUnitRetry(rows, w)
  {
    var failed := FailedOrdinals(rows, w.order);
    if Retries(rows, w) {
      var key :| key in w.order && key in rows && rows[key].state == Failed && rows[key].ordinal < 0x1_0000_0000;
      assert rows[key].ordinal in failed;
    }
    if PerUnitRetry(rows, w) {
      assert failed[0] in failed;
    }
  }

  /** The steps of an attempt: a reading for each failed ordinal in a retry, and a storing for each unit. */
  function StepsOf(rows: Table, w: World): nat
  {
    (if PerUnitRetry(rows, w) then |FailedOrdinals(rows, w.order)| else 0) + |UnitsOf(rows, w)|
  }

  /** What can be said of a fetched unit without putting anything: it is held already, or the store takes it. */
  predicate HeldOrTaken(rows: Table, u: Unit, put: Put)
  {
    (u.key in rows && rows[u.key].state == Stored) || put(u).Some?
  }

  function Missed(outcomes: seq<Outcome>): set<nat>
  {
    set k | 0 <= k < |outcomes| && !outcomes[k].stored
  }

  lemma {:induction false} UnstoredIsACount(outcomes: seq<Outcome>)
    ensures Unstored(outcomes) == |Missed(outcomes)|
    decreases |outcomes|
  {
    if outcomes == [] {
      assert Missed(outcomes) == {};
    } else {
      var n := |outcomes| - 1;
      var front, last := outcomes[..n], outcomes[n];
      UnstoredIsACount(front);
      UnstoredSnoc(front, last);
      assert front + [last] == outcomes;
      assert Missed(outcomes) == Missed(front) + if last.stored then {} else {n};
    }
  }

  /** Storing given units to the end: `Ok`, with an outcome for each, if and only if each is held or taken, and
    * else the error that counts those that are not. */
  lemma EndedIff(rows: Table, units: seq<Unit>, put: Put)
    ensures var ending := Ended(units, StoredKeys(rows), put);
      var missed := set k | 0 <= k < |units| && !HeldOrTaken(rows, units[k], put);
      && (ending.Finished? <==> missed == {}) && (missed != {} ==> ending == Incomplete(|missed|, |units|))
      && (ending.Finished? ==> |ending.outcomes| == |units| && forall k :: 0 <= k < |units| ==>
            var held := units[k].key in StoredKeys(rows);
            ending.outcomes[k] == Outcome(units[k].key, units[k].ordinal, if held then None else put(units[k]), true))
  {
    var already := StoredKeys(rows);
    var outcomes := Outcomes(units, already, put);
    var missed := set k | 0 <= k < |units| && !HeldOrTaken(rows, units[k], put);
    assert forall k :: 0 <= k < |units| ==> (outcomes[k].stored <==> HeldOrTaken(rows, units[k], put));
    UnstoredIsACount(outcomes);
    assert missed == Missed(outcomes);
    if missed == {} {
      forall k | 0 <= k < |units|
        ensures outcomes[k].stored
      {
        assert k !in missed;
      }
    } else {
      var k :| k in missed;
      assert |missed| > 0;
    }
  }

  /** When an attempt gives which answer, for every table and whatever it meets. A refused body is `Ok` and
    * touches nothing; `Unfetched` is for the source that gave nothing when asked for everything; an attempt
    * is cut off if and only if that falls inside its steps; and one that is not counts the fetched units that
    * are neither held nor taken, and is `Ok` if and only if there are none. */
  lemma AnswersIff(rows: Table, w: World)
    ensures var (after, ending) := Attempt(rows, w);
      var units, fetched := UnitsOf(rows, w), w.bodyAllowed && (Retries(rows, w) || w.bulk.Some?);
      var cut := w.stop.Some? && w.stop.value <= StepsOf(rows, w);
      var missed := set k | 0 <= k < |units| && !HeldOrTaken(rows, units[k], w.put);
      && (!w.bodyAllowed ==> after == rows && ending == Finished([]))
      && (ending.Unfetched? <==> w.bodyAllowed && !Retries(rows, w) && w.bulk.None?)
      && (ending.Unfetched? ==> after == rows)
      && (ending.Stopped? <==> fetched && cut) && (ending.Stopped? ==> ending.cancelled == w.cancelled)
      && (fetched && !cut ==>
            && (ending.Finished? <==> missed == {})
            && (missed != {} ==> ending == Incomplete(|missed|, |units|))
            && (ending.Finished? ==> |ending.outcomes| == |units|)
            && (ending.Finished? ==> forall k :: 0 <= k < |units| ==>
                  ending.outcomes[k].key == units[k].key && ending.outcomes[k].stored))
  {
    hide FailedOrdinals, AfterFetches, AfterUnits, Ended, Retries, StoredKeys, HeldOrTaken;
    RetriesIff(rows, w);
    EndedIff(rows, UnitsOf(rows, w), w.put);
  }

  /** With no stored key of the made-up form, an attempt that comes to an answer of its own has recorded every
    * unit it fetched as stored or failed, and `Ok` means that none is failed. The number it reports is that of
    * the failed ones under the same condition as for one pass, and so whenever no two units with one key fare
    * differently (none can, when the keys are distinct). */
  lemma AttemptCountIsExactIff(rows: Table, w: World)
    requires w.bodyAllowed
    requires forall key, n: nat :: key in StoredKeys(rows) ==> OrdinalKey(n) != key
    requires Attempt(rows, w).1.Incomplete? || Attempt(rows, w).1.Finished?
    ensures var (after, ending) := Attempt(rows, w);
      var units, already := UnitsOf(rows, w), StoredKeys(rows);
      && (forall k :: 0 <= k < |units| ==>
            units[k].key in after && (after[units[k].key].state == Stored || after[units[k].key].state == Failed))
      && (Reported(ending) == FailedAmong(after, units)
          <==> Revived(units, units, already, w.put) == Lost(units, units, already, w.put))
      && (SameFate(units, already, w.put) ==> Reported(ending) == FailedAmong(after, units))
      && (ending.Incomplete? ==> ending.failed > 0 && ending.of == |units|)
      && (ending.Finished? ==> FailedAmong(after, units) == 0)
  {
    hide OrdinalKey, AfterUnits, FailedAmong, AfterFetches, SameFate, Revived, Lost, FailsInTheEnd;
    var units, already := UnitsOf(rows, w), StoredKeys(rows);
    if PerUnitRetry(rows, w) {
      var failed := FailedOrdinals(rows, w.order);
      assert failed[..|failed|] == failed;
      var rows' := AfterFetches(rows, failed, w.one);
      forall key | key in already
        ensures key in rows' && rows'[key].state == Stored
      {
        FetchesTouch(rows, failed, w.one, key);
      }
      CountIsExactIff(rows', units, w, |failed|, already);
    } else {
      CountIsExactIff(rows, units, w, 0, already);
    }
  }

  function Attempts(rows: Table, worlds: seq<World>): Table
    decreases |worlds|
  {
    if worlds == [] then rows else Attempts(Attempt(rows, worlds[0]).0, worlds[1..])
  }

  /** So over any attempts, whatever the source and the store answer and wherever each one is cut off, a
    * stored unit whose key is not of the made-up form keeps its row. */
  lemma {:induction false} StoredForever(rows: Table, worlds: seq<World>, key: string)
    requires key in rows && rows[key].state == Stored
    requires forall n: nat :: OrdinalKey(n) != key
    ensures key in Attempts(rows, worlds) && Attempts(rows, worlds)[key] == rows[key]
    decreases |worlds|
  {
    hide Attempt, OrdinalKey;
    if worlds != [] {
      StoredSurvivesIff(rows, worlds[0], key);
      StoredForever(Attempt(rows, worlds[0]).0, worlds[1..], key);
    }
  }

  predicate HasChecksum(rows: Table, key: string)
  {
    key in rows && rows[key].checksum.Some?
  }

  lemma {:induction false} UnitsKeepChecksum(rows: Table, units: seq<Unit>, already: set<string>, put: Put, key: string)
    requires HasChecksum(rows, key)
    ensures HasChecksum(AfterUnits(rows, units, already, put), key)
    decreases |units|
  {
    if units != [] {
      UnitsKeepChecksum(AfterUnit(rows, units[0], already, put), units[1..], already, put, key);
    }
  }

  lemma {:induction false} FetchesKeepChecksum(rows: Table, failed: seq<nat>, one: nat -> Option<Unit>, key: string)
    requires HasChecksum(rows, key)
    ensures HasChecksum(AfterFetches(rows, failed, one), key)
    decreases |failed|
  {
    hide OrdinalKey;
    if failed != [] {
      var rows' := AfterFetch(rows, failed[0], one);
      FetchesKeepChecksum(rows', failed[1..], one, key);
    }
  }

  /** A unit that has once had a body keeps naming one, failed again or not, over any attempts. */
  lemma {:induction false} ChecksumsStay(rows: Table, worlds: seq<World>, key: string)
    requires HasChecksum(rows, key)
    ensures HasChecksum(Attempts(rows, worlds), key)
    decreases |worlds|
  {
    hide Attempt, HasChecksum;
    if worlds != [] {
      AttemptKeepsChecksum(rows, worlds[0], key);
      ChecksumsStay(Attempt(rows, worlds[0]).0, worlds[1..], key);
    }
  }

  lemma AttemptKeepsChecksum(rows: Table, w: World, key: string)
    requires HasChecksum(rows, key)
    ensures HasChecksum(Attempt(rows, w).0, key)
  {
    hide AfterUnits, AfterFetches, HasChecksum;
    var failed := FailedOrdinals(rows, w.order);
    var tried := failed[..Steps(w.stop, 0, |failed|)];
    FetchesKeepChecksum(rows, tried, w.one, key);
    var units := Fetched(failed, w.one);
    var rows' := AfterFetches(rows, tried, w.one);
    UnitsKeepChecksum(rows', units[..Steps(w.stop, |failed|, |units|)], StoredKeys(rows), w.put, key);
    if w.bulk.Some? {
      UnitsKeepChecksum(rows, w.bulk.value[..Steps(w.stop, 0, |w.bulk.value|)], StoredKeys(rows), w.put, key);
    }
  }

  // ---------------------------------------------------------------------------
  // What a unit-by-unit retry leaves out
  // ---------------------------------------------------------------------------

  /** After a unit-by-unit retry that answers `Ok`, the stored units are those stored before it and
    * those it could read again: a unit that could not be read, or was never tried, is not stored, and
    * nothing says so. */
  lemma RetryOkStoresIff(rows: Table, w: World, key: string)
    requires w.bodyAllowed && PerUnitRetry(rows, w) && Attempt(rows, w).1.Finished?
    ensures var after := Attempt(rows, w).0;
      key in after && after[key].state == Stored
      <==> (key in rows && rows[key].state == Stored && !FailsAs(rows, w, key))
           || (key !in StoredKeys(rows) && exists u :: u in Fetched(FailedOrdinals(rows, w.order), w.one) && u.key == key)
  {
    hide OrdinalKey, AfterUnit;
    var failed, already := FailedOrdinals(rows, w.order), StoredKeys(rows);
    var rows', units := AfterFetches(rows, failed, w.one), Fetched(failed, w.one);
    assert failed[..|failed|] == failed && units[..|units|] == units;
    FetchesTouch(rows, failed, w.one, key);
    if key !in already && exists u :: u in units && u.key == key {
      var outcomes := Outcomes(units, already, w.put);
      UnstoredIffAny(outcomes);
      var i := LastWithKey(units, key);
      assert outcomes[i].stored;
      LastOneWins(rows', units, already, w.put, i);
    } else {
      UnitsLeaveOthers(rows', units, already, w.put, key);
    }
  }

  lemma {:induction false} LastWithKey(units: seq<Unit>, key: string) returns (i: nat)
    requires exists u :: u in units && u.key == key
    ensures i < |units| && units[i].key == key && forall k :: i < k < |units| ==> units[k].key != key
  {
    i := |units| - 1;
    while units[i].key != key
      invariant 0 <= i < |units| && exists k :: 0 <= k <= i && units[k].key == key
      invariant forall k :: i < k < |units| ==> units[k].key != key
      decreases i
    {
      i := i - 1;
    }
  }

  /** The source reads units one at a time, and a key names one unit and is not of the made-up form. */
  ghost predicate Addresses(w: World, u: Unit)
  {
    && w.perUnit
    && (forall n: nat :: OrdinalKey(n) != u.key)
    && (forall n :: w.one(n).Some? ==> w.one(n).value.ordinal == n && (w.one(n).value.key == u.key ==> n == u.ordinal))
    && (forall m, n :: w.one(m).Some? ==> w.one(m).value.key != OrdinalKey(n))
  }

  /** Some unit was once recorded under a made-up key. */
  ghost predicate Stuck(rows: Table)
  {
    exists n: nat :: n < 0x1_0000_0000 && OrdinalKey(n) in rows && rows[OrdinalKey(n)].state == Failed
                     && rows[OrdinalKey(n)].ordinal == n
  }

  /** Nothing in the table speaks of unit `u`. */
  ghost predicate Unmentioned(rows: Table, u: Unit)
  {
    u.key !in rows && forall key :: key in rows && rows[key].state == Failed ==> rows[key].ordinal != u.ordinal
  }

  ghost predicate ListsAll(rows: Table, w: World)
  {
    forall key :: key in rows ==> key in w.order
  }

  lemma {:induction false} FetchesKeep(rows: Table, failed: seq<nat>, one: nat -> Option<Unit>, u: Unit)
    requires Unmentioned(rows, u) && u.ordinal !in failed && forall n: nat :: OrdinalKey(n) != u.key
    ensures Unmentioned(AfterFetches(rows, failed, one), u)
    ensures Stuck(rows) ==> Stuck(AfterFetches(rows, failed, one))
    decreases |failed|
  {
    hide OrdinalKey;
    if failed != [] {
      var rows' := AfterFetch(rows, failed[0], one);
      assert Unmentioned(rows', u);
      if Stuck(rows) {
        var n: nat :| n < 0x1_0000_0000 && OrdinalKey(n) in rows && rows[OrdinalKey(n)].state == Failed
                      && rows[OrdinalKey(n)].ordinal == n;
        if OrdinalKey(n) == OrdinalKey(failed[0]) {
          OrdinalKeysDiffer(n, failed[0]);
        }
        assert rows'[OrdinalKey(n)].state == Failed && rows'[OrdinalKey(n)].ordinal == n;
      }
      FetchesKeep(rows', failed[1..], one, u);
    }
  }

  lemma {:induction false} UnitsKeep(rows: Table, units: seq<Unit>, already: set<string>, put: Put, u: Unit)
    requires Unmentioned(rows, u)
    requires forall v :: v in units ==> v.ordinal != u.ordinal && v.key != u.key
    ensures Unmentioned(AfterUnits(rows, units, already, put), u)
    decreases |units|
  {
    if units != [] {
      assert units[0] in units;
      UnitsKeep(AfterUnit(rows, units[0], already, put), units[1..], already, put, u);
    }
  }

  lemma {:induction false} FetchedFrom(failed: seq<nat>, one: nat -> Option<Unit>)
    ensures forall v :: v in Fetched(failed, one) ==> exists n :: n in failed && one(n) == Some(v)
  {
    if failed != [] {
      FetchedFrom(failed[1..], one);
      assert failed == [failed[0]] + failed[1..];
    }
  }

  lemma StuckStays(rows: Table, units: seq<Unit>, already: set<string>, put: Put)
    requires Stuck(rows) && forall v, n: nat :: v in units ==> v.key != OrdinalKey(n)
    ensures Stuck(AfterUnits(rows, units, already, put))
  {
    hide OrdinalKey;
    var n: nat :| n < 0x1_0000_0000 && OrdinalKey(n) in rows && rows[OrdinalKey(n)].state == Failed
                  && rows[OrdinalKey(n)].ordinal == n;
    UnitsLeaveOthers(rows, units, already, put, OrdinalKey(n));
  }

  lemma AttemptKeepsForgetting(rows: Table, w: World, u: Unit)
    requires Stuck(rows) && Unmentioned(rows, u) && Addresses(w, u) && ListsAll(rows, w)
    ensures Stuck(Attempt(rows, w).0) && Unmentioned(Attempt(rows, w).0, u)
  {
    hide OrdinalKey, AfterUnit;
    var failed := FailedOrdinals(rows, w.order);
    assert u.ordinal !in failed;
    StuckMeansRetry(rows, w);
    if w.bodyAllowed {
      var tried := failed[..Steps(w.stop, 0, |failed|)];
      var rows', units := AfterFetches(rows, tried, w.one), Fetched(failed, w.one);
      FetchesKeep(rows, tried, w.one, u);
      FetchedFrom(failed, w.one);
      var some := units[..Steps(w.stop, |failed|, |units|)];
      assert forall v :: v in some ==> v in units;
      UnitsKeep(rows', some, StoredKeys(rows), w.put, u);
      StuckStays(rows', some, StoredKeys(rows), w.put);
    }
  }

  lemma StuckMeansRetry(rows: Table, w: World)
    requires Stuck(rows) && w.perUnit && ListsAll(rows, w)
    ensures PerUnitRetry(rows, w)
  {
    hide OrdinalKey;
    var n: nat :| n < 0x1_0000_0000 && OrdinalKey(n) in rows && rows[OrdinalKey(n)].state == Failed
                  && rows[OrdinalKey(n)].ordinal == n;
    assert OrdinalKey(n) in w.order;
    assert n in FailedOrdinals(rows, w.order);
  }

  ghost predicate AllAddress(rows: Table, worlds: seq<World>, u: Unit)
    decreases |worlds|
  {
    worlds == [] || (Addresses(worlds[0], u) && ListsAll(rows, worlds[0])
                     && AllAddress(Attempt(rows, worlds[0]).0, worlds[1..], u))
  }

  /** One made-up row is never cleared, so every later attempt at a source that reads units one at a time
    * is a retry of the failed ones: a unit the table does not yet speak of (an attempt was cut off
    * before it) is never stored, however many attempts follow and however they answer. */
  lemma {:induction false} NeverFetchedAgain(rows: Table, worlds: seq<World>, u: Unit)
    requires Stuck(rows) && Unmentioned(rows, u) && AllAddress(rows, worlds, u)
    ensures Stuck(Attempts(rows, worlds)) && u.key !in Attempts(rows, worlds)
    decreases |worlds|
  {
    hide Attempt, Stuck, Addresses, ListsAll;
    if worlds != [] {
      AttemptKeepsForgetting(rows, worlds[0], u);
      NeverFetchedAgain(Attempt(rows, worlds[0]).0, worlds[1..], u);
    }
  }

  /** Two attempts are enough to get there: one cut off after its first unit could not be stored, one that
    * cannot read that unit again. The second answers `Ok`, and the unit the first never came to is lost. */
  lemma TwoAttemptsForget(a: Unit, b: Unit, w1: World, w2: World)
    requires a.key != b.key && a.ordinal != b.ordinal && a.ordinal < 0x1_0000_0000
    requires forall n: nat :: OrdinalKey(n) != a.key && OrdinalKey(n) != b.key
    requires w1.bodyAllowed && w1.bulk == Some([a, b]) && w1.put(a).None? && w1.stop == Some(1)
    requires w2.bodyAllowed && w2.perUnit && w2.order == [a.key] && w2.one(a.ordinal).None? && w2.stop.None?
    ensures var once := Attempt(map[], w1).0;
      && Attempt(once, w2).1 == Finished([])
      && Stuck(Attempt(once, w2).0) && Unmentioned(Attempt(once, w2).0, b)
  {
    hide OrdinalKey;
    var once: Table := map[a.key := Row(a.ordinal, Failed, None)];
    FirstAttempt(a, b, w1);
    var twice := Upsert(once, OrdinalKey(a.ordinal), Row(a.ordinal, Failed, None));
    SecondAttempt(a, once, w2);
    assert OrdinalKey(a.ordinal) in twice && twice[OrdinalKey(a.ordinal)].ordinal == a.ordinal;
  }

  lemma SecondAttempt(a: Unit, once: Table, w: World)
    requires once == map[a.key := Row(a.ordinal, Failed, None)] && a.ordinal < 0x1_0000_0000
    requires w.bodyAllowed && w.perUnit && w.order == [a.key] && w.one(a.ordinal).None? && w.stop.None?
    ensures Attempt(once, w) == (Upsert(once, OrdinalKey(a.ordinal), Row(a.ordinal, Failed, None)), Finished([]))
  {
    hide OrdinalKey;
    var failed := FailedOrdinals(once, w.order);
    OneFailed(a, once);
    OneUnread(a.ordinal, once, w.one);
    assert failed[..1] == failed;
  }

  lemma OneFailed(a: Unit, once: Table)
    requires once == map[a.key := Row(a.ordinal, Failed, None)] && a.ordinal < 0x1_0000_0000
    ensures FailedOrdinals(once, [a.key]) == [a.ordinal]
  {
    assert [a.key][1..] == [] && FailedOrdinals(once, []) == [];
  }

  lemma OneUnread(n: nat, rows: Table, one: nat -> Option<Unit>)
    requires one(n).None?
    ensures Fetched([n], one) == [] && AfterFetches(rows, [n], one) == AfterFetch(rows, n, one)
  {
    hide OrdinalKey;
    assert [n][1..] == [] && Fetched([], one) == [];
  }

  lemma FirstAttempt(a: Unit, b: Unit, w: World)
    requires w.bodyAllowed && w.bulk == Some([a, b]) && w.put(a).None? && w.stop == Some(1)
    ensures Attempt(map[], w).0 == map[a.key := Row(a.ordinal, Failed, None)]
  {
    assert [a, b][..1] == [a] && [a][1..] == [];
    assert AfterUnits(map[], [a], {}, w.put) == AfterUnit(map[], a, {}, w.put);
    assert StoredKeys(map[]) == {};
  }

  // ---------------------------------------------------------------------------
  // Progress
  // ---------------------------------------------------------------------------

  const PREVIEW_PERMILLE: int := 50

  function Permille(done: nat, total: nat): int
    requires total > 0
  {
    PREVIEW_PERMILLE + 950 * done / total
  }

  /** `950 * done / total` is the largest number of 950ths of the total that have been done. */
  lemma ShareBounds(done: nat, total: nat)
    requires total > 0
    ensures var q := 950 * done / total; q >= 0 && q * total <= 950 * done < q * total + total
  {
    var a := 950 * done;
    assert a == (a / total) * total + a % total;
  }

  lemma NotLess(q: nat, total: nat, a: nat)
    requires a < q * total + total && total > 0
    ensures forall p: nat :: p * total <= a ==> p <= q
  {
    forall p: nat
      ensures p > q ==> p * total >= q * total + total
    {
      MulMonotone(q + 1, p, total);
    }
  }

  lemma MulMonotone(x: nat, y: nat, n: nat)
    ensures x <= y ==> x * n <= y * n
  {
  }

  /** The bar never leaves its range, so the clamp never acts; it never goes back; it is full exactly after
    * the last unit; and it stands at the share of 950 that is done, rounded down. */
  lemma ProgressIsHonest(done: nat, total: nat)
    requires 0 < total && done <= total
    ensures PREVIEW_PERMILLE <= Permille(done, total) <= 1000
    ensures done < total ==> Permille(done, total) <= Permille(done + 1, total)
    ensures Permille(done, total) == 1000 <==> done == total
    ensures (Permille(done, total) - PREVIEW_PERMILLE) * total <= 950 * done
          < (Permille(done, total) - PREVIEW_PERMILLE + 1) * total
  {
    var q, next: nat := 950 * done / total, 950 * (done + 1) / total;
    ShareBounds(done, total);
    ShareBounds(done + 1, total);
    NotLess(950, total, 950 * total);
    NotLess(q, total, 950 * done);
    NotLess(next, total, 950 * (done + 1));
  }

  /** What is reported over the first `n` units: a unit held already is passed over in silence. */
  function Log(units: seq<Unit>, already: set<string>, n: nat): seq<(int, string)>
    requires n <= |units|
  {
    if n == 0 then []
    else
      Log(units, already, n - 1)
      + if units[n - 1].key in already then [] else [(Permille(n, |units|), units[n - 1].key)]
  }

  /** The reports of a whole attempt. */
  function AttemptLog(rows: Table, w: World): seq<(int, string)>
  {
    if !w.bodyAllowed then []
    else if PerUnitRetry(rows, w) then
      var failed := FailedOrdinals(rows, w.order);
      var units := Fetched(failed, w.one);
      if w.stop.Some? && w.stop.value < |failed| then []
      else Log(units, StoredKeys(rows), Steps(w.stop, |failed|, |units|))
    else
      match w.bulk
      case None => []
      case Some(units) => Log(units, StoredKeys(rows), Steps(w.stop, 0, |units|))
  }

  /** Reports stay in range and never go back, and only the last unit's says that all is done. */
  lemma {:induction false} LogIsHonest(units: seq<Unit>, already: set<string>, n: nat)
    requires 0 < n <= |units|
    ensures forall k :: 0 <= k < |Log(units, already, n)| ==>
      PREVIEW_PERMILLE <= Log(units, already, n)[k].0 <= Permille(n, |units|) <= 1000
    ensures forall j, k :: 0 <= j < k < |Log(units, already, n)| ==>
      Log(units, already, n)[j].0 <= Log(units, already, n)[k].0
    ensures n < |units| ==> Permille(n, |units|) < 1000
  {
    hide Permille;
    ProgressIsHonest(n, |units|);
    if n > 1 {
      LogIsHonest(units, already, n - 1);
      ProgressIsHonest(n - 1, |units|);
    } else {
      assert Log(units, already, 0) == [];
    }
  }

  /** Every unit not held already is reported, in order, with the share of the units it completes. */
  lemma {:induction false} LogIsComplete(units: seq<Unit>, already: set<string>, k: nat, n: nat)
    requires k < n <= |units| && units[k].key !in already
    ensures var at := |Log(units, already, k)|;
      at < |Log(units, already, n)| && Log(units, already, n)[at] == (Permille(k + 1, |units|), units[k].key)
    decreases n
  {
    hide Permille;
    if k < n - 1 {
      LogIsComplete(units, already, k, n - 1);
    }
  }

  // ---------------------------------------------------------------------------
  // `store_units`
  // ---------------------------------------------------------------------------

  class UnitTable {
    var rows: Table
    var progress: seq<(int, string)>

    method UpsertUnit(key: string, row: Row)
      modifies this`rows
      ensures rows == Upsert(old(rows), key, row)
    {
      if row.checksum.None? && key in rows {
        rows := rows[key := row.(checksum := rows[key].checksum)];
      } else {
        rows := rows[key := row];
      }
    }

    /** `store_units`, up to where it is cancelled or the database fails. */
    method StoreUnits(w: World) returns (ending: Ending)
      modifies this
      ensures (rows, ending) == Attempt(old(rows), w)
      ensures progress == old(progress) + AttemptLog(old(rows), w)
    {
      hide FailedOrdinals, AfterUnit, OrdinalKey, Log;
      assert progress + [] == progress;
      if !w.bodyAllowed {
        return Finished([]);
      }
      var alreadyStored := StoredKeys(rows);
      var failed := FailedOrdinals(rows, w.order);
      var fetched: seq<Unit>, before := [], 0;
      if rows != map[] && failed != [] && w.perUnit {
        var cut;
        fetched, cut := FetchAgain(failed, w);
        if cut {
          return Stopped(w.cancelled);
        }
        assert failed[..|failed|] == failed;
        before := |failed|;
      } else {
        match w.bulk {
          case None => return Unfetched;
          case Some(units) => fetched := units;
        }
      }
      ending := StoreFetched(fetched, alreadyStored, w, before);
    }

    method FetchAgain(failed: seq<nat>, w: World) returns (units: seq<Unit>, cut: bool)
      modifies this`rows
      ensures rows == AfterFetches(old(rows), failed[..Steps(w.stop, 0, |failed|)], w.one)
      ensures cut <==> w.stop.Some? && w.stop.value < |failed|
      ensures !cut ==> units == Fetched(failed, w.one)
    {
      hide OrdinalKey, AfterFetches, Fetched;
      units := [];
      NoneFetched(rows, w.one);
      var n := Steps(w.stop, 0, |failed|);
      ghost var all := AfterFetches(rows, failed[..n], w.one);
      for i := 0 to |failed|
        invariant i <= n
        invariant AfterFetches(rows, failed[i..n], w.one) == all
        invariant units + Fetched(failed[i..], w.one) == Fetched(failed, w.one)
      {
        if w.stop == Some(i) {
          assert failed[i..n] == [];
          NoneFetched(rows, w.one);
          return units, true;
        }
        OneFetched(rows, failed, i, n, w.one);
        match w.one(failed[i]) {
          case Some(unit) => units := units + [unit];
          case None => UpsertUnit(OrdinalKey(failed[i]), Row(failed[i], Failed, None));
        }
      }
      assert failed[|failed|..] == [] && failed[|failed|..n] == [];
      NoneFetched(rows, w.one);
      return units, false;
    }

    method StoreFetched(fetched: seq<Unit>, alreadyStored: set<string>, w: World, before: nat) returns (ending: Ending)
      requires w.stop.Some? ==> before <= w.stop.value
      modifies this
      ensures (rows, ending) == StoreAll(old(rows), fetched, alreadyStored, w, before)
      ensures progress == old(progress) + Log(fetched, alreadyStored, Steps(w.stop, before, |fetched|))
    {
      hide AfterUnit, AfterUnits, Outcomes, Unstored, Permille, Log;
      var n := Steps(w.stop, before, |fetched|);
      var total := if |fetched| > 1 then |fetched| else 1;
      var outcomes: seq<Outcome>, anyFailed := [], false;
      ghost var all := AfterUnits(rows, fetched[..n], alreadyStored, w.put);
      NothingYet(rows, alreadyStored, w.put);
      NothingLogged(fetched, alreadyStored);
      for index := 0 to |fetched|
        invariant index <= n
        invariant AfterUnits(rows, fetched[index..n], alreadyStored, w.put) == all
        invariant outcomes == Outcomes(fetched[..index], alreadyStored, w.put)
        invariant anyFailed <==> Unstored(outcomes) > 0
        invariant progress == old(progress) + Log(fetched, alreadyStored, index)
      {
        NothingYet(rows, alreadyStored, w.put);
        if w.stop == Some(before + index) {
          assert fetched[index..n] == [];
          return Stopped(w.cancelled);
        }
        var unit := fetched[index];
        OneMore(rows, fetched, index, n, alreadyStored, w.put);
        OneMoreLogged(fetched, alreadyStored, index);
        if unit.key in alreadyStored {
          HeldIsLeft(rows, unit, alreadyStored, w.put);
          outcomes := outcomes + [Outcome(unit.key, unit.ordinal, None, true)];
          continue;
        }
        var ok := Store(unit, alreadyStored, w.put);
        outcomes := outcomes + [Outcome(unit.key, unit.ordinal, w.put(unit), ok)];
        if !ok {
          anyFailed := true;
        }
        progress := progress + [(Permille(index + 1, total), unit.key)];
      }
      NothingYet(rows, alreadyStored, w.put);
      assert fetched[|fetched|..n] == [] && fetched[..|fetched|] == fetched;
      if w.stop == Some(before + |fetched|) {
        return Stopped(w.cancelled);
      }
      return if anyFailed then Incomplete(Unstored(outcomes), |outcomes|) else Finished(outcomes);
    }

    /** Put one unit's body in the store and record how that went. */
    method Store(unit: Unit, ghost alreadyStored: set<string>, put: Put) returns (ok: bool)
      requires unit.key !in alreadyStored
      modifies this`rows
      ensures ok <==> put(unit).Some?
      ensures rows == AfterUnit(old(rows), unit, alreadyStored, put)
    {
      match put(unit) {
        case Some(checksum) =>
          UpsertUnit(unit.key, Row(unit.ordinal, Stored, Some(checksum)));
          return true;
        case None =>
          UpsertUnit(unit.key, Row(unit.ordinal, Failed, None));
          return false;
      }
    }
  }

  lemma NoneFetched(rows: Table, one: nat -> Option<Unit>)
    ensures AfterFetches(rows, [], one) == rows && Fetched([], one) == []
  {
  }

  lemma OneFetched(rows: Table, failed: seq<nat>, i: nat, n: nat, one: nat -> Option<Unit>)
    requires i < n <= |failed|
    ensures AfterFetches(rows, failed[i..n], one) == AfterFetches(AfterFetch(rows, failed[i], one), failed[i + 1..n], one)
    ensures Fetched(failed[i..], one)
         == (if one(failed[i]).Some? then [one(failed[i]).value] else []) + Fetched(failed[i + 1..], one)
  {
    hide AfterFetch;
    assert failed[i..n][1..] == failed[i + 1..n] && failed[i..][1..] == failed[i + 1..];
  }

  lemma NothingLogged(units: seq<Unit>, already: set<string>)
    ensures Log(units, already, 0) == []
  {
  }

  lemma OneMoreLogged(units: seq<Unit>, already: set<string>, i: nat)
    requires i < |units|
    ensures Log(units, already, i + 1)
         == Log(units, already, i) + if units[i].key in already then [] else [(Permille(i + 1, |units|), units[i].key)]
  {
    hide Permille;
  }

  lemma HeldIsLeft(rows: Table, u: Unit, already: set<string>, put: Put)
    requires u.key in already
    ensures AfterUnit(rows, u, already, put) == rows
  {
  }

  lemma NothingYet(rows: Table, already: set<string>, put: Put)
    ensures AfterUnits(rows, [], already, put) == rows && Outcomes([], already, put) == [] && Unstored([]) == 0
  {
  }

  lemma {:induction false} OutcomesSnoc(units: seq<Unit>, u: Unit, already: set<string>, put: Put)
    ensures Outcomes(units + [u], already, put) == Outcomes(units, already, put) + [OutcomeOf(u, already, put)]
  {
    assert |Outcomes(units + [u], already, put)| == |units| + 1;
  }

  lemma {:induction false} UnstoredSnoc(outcomes: seq<Outcome>, o: Outcome)
    ensures Unstored(outcomes + [o]) == Unstored(outcomes) + if o.stored then 0 else 1
  {
    if outcomes == [] {
      assert [o][1..] == [];
      assert outcomes + [o] == [o];
    } else {
      assert (outcomes + [o])[1..] == outcomes[1..] + [o];
      UnstoredSnoc(outcomes[1..], o);
    }
  }

  lemma OneMore(rows: Table, units: seq<Unit>, i: nat, n: nat, already: set<string>, put: Put)
    requires i < n <= |units|
    ensures AfterUnits(rows, units[i..n], already, put)
         == AfterUnits(AfterUnit(rows, units[i], already, put), units[i + 1..n], already, put)
    ensures Outcomes(units[..i + 1], already, put) == Outcomes(units[..i], already, put) + [OutcomeOf(units[i], already, put)]
    ensures Unstored(Outcomes(units[..i + 1], already, put))
         == Unstored(Outcomes(units[..i], already, put)) + if OutcomeOf(units[i], already, put).stored then 0 else 1
  {
    assert units[i..n][1..] == units[i + 1..n] && units[..i + 1] == units[..i] + [units[i]];
    OutcomesSnoc(units[..i], units[i], already, put);
    UnstoredSnoc(Outcomes(units[..i], already, put), OutcomeOf(units[i], already, put));
  }
}
