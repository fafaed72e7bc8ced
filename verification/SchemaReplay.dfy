/** Three gates replay the same migrations, each into a shape of its own: a dictionary of dictionaries
  * (`load_schema`), a dictionary of sets (`parse_inventory`) and one flat dictionary (`column_types`).
  */
module SchemaReplay {
  type Name = string

  /** What the migrations say, one statement after the other. */
  datatype Event =
    | Create(table: Name, columns: seq<(Name, string)>)
    | Add(table: Name, column: Name, declared: string)
    | RenameTable(source: Name, target: Name)
    | RenameColumn(table: Name, source: Name, target: Name)
    | Drop(table: Name)

  type Nested = map<Name, map<Name, string>>
  type Sets = map<Name, set<Name>>
  type Flat = map<(Name, Name), string>

  // ---------------------------------------------------------------------------
  // One event, three times
  // ---------------------------------------------------------------------------

  function Columns(schema: Nested, table: Name): map<Name, string>
  {
    if table in schema then schema[table] else map[]
  }

  function Names(tables: Sets, table: Name): set<Name>
  {
    if table in tables then tables[table] else {}
  }

  /** Later declarations of a column win. */
  function Declared(known: map<Name, string>, columns: seq<(Name, string)>): map<Name, string>
    decreases |columns|
  {
    if columns == [] then known else Declared(known[columns[0].0 := columns[0].1], columns[1..])
  }

  /** The declaration of a column that counts: the last one. */
  ghost predicate LastOf(columns: seq<(Name, string)>, k: int)
  {
    0 <= k < |columns| && forall j :: k < j < |columns| ==> columns[j].0 != columns[k].0
  }

  ghost predicate Mentions(columns: seq<(Name, string)>, c: Name)
  {
    exists k :: 0 <= k < |columns| && columns[k].0 == c
  }

  lemma MentionsCons(columns: seq<(Name, string)>, c: Name)
    requires columns != []
    ensures Mentions(columns, c) <==> columns[0].0 == c || Mentions(columns[1..], c)
  {
    if k :| 0 < k < |columns| && columns[k].0 == c {
      assert columns[1..][k - 1].0 == c;
    }
    if k :| 0 <= k < |columns[1..]| && columns[1..][k].0 == c {
      assert columns[k + 1].0 == c;
    }
  }

  /** A declared column has the type of its last declaration; one that is not keeps its own. */
  lemma {:induction false} DeclaredIs(known: map<Name, string>, columns: seq<(Name, string)>, c: Name)
    ensures var after := Declared(known, columns);
      && (c in after <==> c in known || Mentions(columns, c))
      && (forall k :: LastOf(columns, k) && columns[k].0 == c ==> c in after && after[c] == columns[k].1)
      && (c in known && !Mentions(columns, c) ==> after[c] == known[c])
    decreases |columns|
  {
    hide Mentions;
    if columns == [] {
      assert !Mentions(columns, c) by { NothingMentioned(columns, c); }
    } else {
      var rest := columns[1..];
      DeclaredIs(known[columns[0].0 := columns[0].1], rest, c);
      MentionsCons(columns, c);
      forall k | LastOf(columns, k) && columns[k].0 == c
        ensures c in Declared(known, columns) && Declared(known, columns)[c] == columns[k].1
      {
        if k > 0 {
          LastOfTail(columns, k);
        } else {
          FirstIsLast(columns);
        }
      }
    }
  }

  lemma NothingMentioned(columns: seq<(Name, string)>, c: Name)
    requires columns == []
    ensures !Mentions(columns, c)
  {
  }

  lemma LastOfTail(columns: seq<(Name, string)>, k: int)
    requires k > 0 && LastOf(columns, k)
    ensures LastOf(columns[1..], k - 1) && columns[1..][k - 1] == columns[k]
  {
    assert forall j :: 0 <= j < |columns[1..]| ==> columns[1..][j] == columns[j + 1];
  }

  lemma FirstIsLast(columns: seq<(Name, string)>)
    requires LastOf(columns, 0)
    ensures !Mentions(columns[1..], columns[0].0)
  {
    assert forall j :: 0 <= j < |columns[1..]| ==> columns[1..][j] == columns[j + 1];
  }

  function NestedStep(schema: Nested, e: Event): Nested
  {
    match e
    case Create(t, columns) => schema[t := Declared(Columns(schema, t), columns)]
    case Add(t, c, declared) => schema[t := Columns(schema, t)[c := declared]]
    case RenameTable(source, target) => (schema - {source})[target := Columns(schema, source)]
    case RenameColumn(t, source, target) =>
      if t in schema && source in schema[t] then schema[t := (schema[t] - {source})[target := schema[t][source]]] else schema
    case Drop(t) => schema - {t}
  }

  function Listed(tables: Sets, t: Name, columns: seq<(Name, string)>): Sets
    decreases |columns|
  {
    if columns == [] then tables else Listed(tables[t := Names(tables, t) + {columns[0].0}], t, columns[1..])
  }

  function SetsStep(tables: Sets, e: Event): Sets
  {
    match e
    case Create(t, columns) => Listed(tables, t, columns)
    case Add(t, c, _) => tables[t := Names(tables, t) + {c}]
    case RenameTable(source, target) => (tables - {source})[target := Names(tables, source)]
    case RenameColumn(t, source, target) =>
      if t in tables && source in tables[t] then tables[t := tables[t] - {source} + {target}] else tables
    case Drop(t) => tables - {t}
  }

  function Typed(types: Flat, t: Name, columns: seq<(Name, string)>): Flat
    decreases |columns|
  {
    if columns == [] then types else Typed(types[(t, columns[0].0) := columns[0].1], t, columns[1..])
  }

  function Of(types: Flat, t: Name): set<(Name, Name)>
  {
    set k | k in types && k.0 == t
  }

  function Moved(types: Flat, source: Name, target: Name): Flat
  {
    map k | k in types && k.0 == source :: (target, k.1) := types[k]
  }

  /** Added columns are not among the statements this one reads. */
  function FlatStep(types: Flat, e: Event): Flat
  {
    match e
    case Create(t, columns) => Typed(types, t, columns)
    case Add(_, _, _) => types
    case RenameTable(source, target) => (types - Of(types, source)) + Moved(types, source, target)
    case RenameColumn(t, source, target) =>
      if (t, source) in types then (types - {(t, source)})[(t, target) := types[(t, source)]] else types
    case Drop(t) => types - Of(types, t)
  }

  function NestedReplay(schema: Nested, events: seq<Event>): Nested
    decreases |events|
  {
    if events == [] then schema else NestedReplay(NestedStep(schema, events[0]), events[1..])
  }

  function SetsReplay(tables: Sets, events: seq<Event>): Sets
    decreases |events|
  {
    if events == [] then tables else SetsReplay(SetsStep(tables, events[0]), events[1..])
  }

  function FlatReplay(types: Flat, events: seq<Event>): Flat
    decreases |events|
  {
    if events == [] then types else FlatReplay(FlatStep(types, events[0]), events[1..])
  }

  // ---------------------------------------------------------------------------
  // Dictionaries and sets agree
  // ---------------------------------------------------------------------------

  ghost predicate SameColumns(schema: Nested, tables: Sets)
  {
    forall t :: Columns(schema, t).Keys == Names(tables, t)
  }

  function NamesIn(columns: seq<(Name, string)>): set<Name>
  {
    if columns == [] then {} else {columns[0].0} + NamesIn(columns[1..])
  }

  lemma {:induction false} DeclaredNames(known: map<Name, string>, columns: seq<(Name, string)>)
    ensures Declared(known, columns).Keys == known.Keys + NamesIn(columns)
    decreases |columns|
  {
    if columns != [] {
      DeclaredNames(known[columns[0].0 := columns[0].1], columns[1..]);
    }
  }

  lemma {:induction false} ListedNames(tables: Sets, t: Name, columns: seq<(Name, string)>)
    ensures Names(Listed(tables, t, columns), t) == Names(tables, t) + NamesIn(columns)
    ensures forall u :: u != t ==> Names(Listed(tables, t, columns), u) == Names(tables, u)
    decreases |columns|
  {
    if columns != [] {
      ListedNames(tables[t := Names(tables, t) + {columns[0].0}], t, columns[1..]);
    }
  }

  lemma SetsStepAgrees(schema: Nested, tables: Sets, e: Event)
    requires SameColumns(schema, tables)
    ensures SameColumns(NestedStep(schema, e), SetsStep(tables, e))
  {
    match e
    case Create(t, columns) =>
      DeclaredNames(Columns(schema, t), columns);
      ListedNames(tables, t, columns);
      assert Columns(schema, t).Keys == Names(tables, t);
      forall u
        ensures Columns(NestedStep(schema, e), u).Keys == Names(SetsStep(tables, e), u)
      {
        assert Columns(schema, u).Keys == Names(tables, u);
      }
    case Add(t, c, _) => StepAt(schema, tables, e, t, t);
    case RenameTable(source, target) => StepAt(schema, tables, e, source, target);
    case RenameColumn(t, source, target) => StepAt(schema, tables, e, t, t);
    case Drop(t) => StepAt(schema, tables, e, t, t);
  }

  lemma StepAt(schema: Nested, tables: Sets, e: Event, t: Name, t': Name)
    requires SameColumns(schema, tables) && !e.Create?
    requires t == (if e.RenameTable? then e.source else e.table) && t' == (if e.RenameTable? then e.target else e.table)
    ensures SameColumns(NestedStep(schema, e), SetsStep(tables, e))
  {
    assert Columns(schema, t).Keys == Names(tables, t);
    forall u
      ensures Columns(NestedStep(schema, e), u).Keys == Names(SetsStep(tables, e), u)
    {
      assert Columns(schema, u).Keys == Names(tables, u);
    }
  }

  /** For every list of events, `load_schema` and `parse_inventory` hold the same columns per table. */
  lemma {:induction false} InventoryAgrees(schema: Nested, tables: Sets, events: seq<Event>)
    requires SameColumns(schema, tables)
    ensures SameColumns(NestedReplay(schema, events), SetsReplay(tables, events))
    decreases |events|
  {
    hide SameColumns, NestedStep, SetsStep;
    if events != [] {
      SetsStepAgrees(schema, tables, events[0]);
      InventoryAgrees(NestedStep(schema, events[0]), SetsStep(tables, events[0]), events[1..]);
    }
  }

  // ---------------------------------------------------------------------------
  // When the flat dictionary agrees
  // ---------------------------------------------------------------------------

  ghost predicate SameTypes(schema: Nested, types: Flat)
  {
    forall t, c :: ((t, c) in types <==> c in Columns(schema, t))
                   && ((t, c) in types ==> types[(t, c)] == Columns(schema, t)[c])
  }

  lemma {:induction false} TypedEntries(types: Flat, t: Name, columns: seq<(Name, string)>, known: map<Name, string>)
    requires forall c :: ((t, c) in types <==> c in known) && (c in known ==> types[(t, c)] == known[c])
    ensures var types' := Typed(types, t, columns);
      var known' := Declared(known, columns);
      && (forall c :: ((t, c) in types' <==> c in known') && (c in known' ==> types'[(t, c)] == known'[c]))
      && (forall k: (Name, Name) :: k.0 != t ==> (k in types' <==> k in types) && (k in types ==> types'[k] == types[k]))
    decreases |columns|
  {
    if columns != [] {
      TypedEntries(types[(t, columns[0].0) := columns[0].1], t, columns[1..], known[columns[0].0 := columns[0].1]);
    }
  }

  /** The step the flat dictionary takes as the others do: an added column must be known already, with
    * its type, and a rename must not leave anything of its target behind. */
  ghost predicate Follows(schema: Nested, e: Event)
  {
    match e
    case Add(t, c, declared) => c in Columns(schema, t) && Columns(schema, t)[c] == declared
    case RenameTable(source, target) => Columns(schema, target).Keys <= Columns(schema, source).Keys
    case _ => true
  }

  lemma RenamedColumns(schema: Nested, source: Name, target: Name, t: Name)
    ensures Columns(NestedStep(schema, RenameTable(source, target)), t)
         == if t == target then Columns(schema, source) else if t == source then map[] else Columns(schema, t)
  {
  }

  lemma RenamedTypes(types: Flat, source: Name, target: Name, t: Name, c: Name)
    ensures var types' := FlatStep(types, RenameTable(source, target));
      && (t == target && (source, c) in types ==> (t, c) in types' && types'[(t, c)] == types[(source, c)])
      && (t == target && (source, c) !in types ==>
            ((t, c) in types' <==> (t, c) in types) && ((t, c) in types ==> types'[(t, c)] == types[(t, c)]))
      && (t != target && t == source ==> (t, c) !in types')
      && (t != target && t != source ==>
            ((t, c) in types' <==> (t, c) in types) && ((t, c) in types ==> types'[(t, c)] == types[(t, c)]))
  {
    var moved := Moved(types, source, target);
    assert (target, c) in moved <==> (source, c) in types;
    assert (t, c) in moved ==> t == target;
    assert (target, c) in moved ==> moved[(target, c)] == types[(source, c)];
  }

  lemma RenameEntries(schema: Nested, types: Flat, source: Name, target: Name)
    requires SameTypes(schema, types)
    ensures var e := RenameTable(source, target);
      SameTypes(NestedStep(schema, e), FlatStep(types, e)) <==> Follows(schema, e)
  {
    hide NestedStep, FlatStep, Columns;
    var e := RenameTable(source, target);
    var schema', types' := NestedStep(schema, e), FlatStep(types, e);
    if Follows(schema, e) {
      forall t, c
        ensures (t, c) in types' <==> c in Columns(schema', t)
        ensures (t, c) in types' ==> types'[(t, c)] == Columns(schema', t)[c]
      {
        RenamedColumns(schema, source, target, t);
        RenamedTypes(types, source, target, t, c);
      }
    } else {
      var c :| c in Columns(schema, target) && c !in Columns(schema, source);
      RenamedColumns(schema, source, target, target);
      RenamedTypes(types, source, target, target, c);
      assert (target, c) in types' && c !in Columns(schema', target);
    }
  }

  lemma CreateAgrees(schema: Nested, types: Flat, t: Name, columns: seq<(Name, string)>)
    requires SameTypes(schema, types)
    ensures SameTypes(NestedStep(schema, Create(t, columns)), FlatStep(types, Create(t, columns)))
  {
    TypedEntries(types, t, columns, Columns(schema, t));
    var schema' := NestedStep(schema, Create(t, columns));
    assert Columns(schema', t) == Declared(Columns(schema, t), columns);
    assert forall u :: u != t ==> Columns(schema', u) == Columns(schema, u);
  }

  lemma AddAgreesIff(schema: Nested, types: Flat, t: Name, c: Name, declared: string)
    requires SameTypes(schema, types)
    ensures SameTypes(NestedStep(schema, Add(t, c, declared)), types) <==> Follows(schema, Add(t, c, declared))
  {
    var schema' := NestedStep(schema, Add(t, c, declared));
    assert Columns(schema', t) == Columns(schema, t)[c := declared] && c in Columns(schema', t);
    assert forall u :: u != t ==> Columns(schema', u) == Columns(schema, u);
    assert (t, c) in types <==> c in Columns(schema, t);
  }

  lemma RenameColumnAgrees(schema: Nested, types: Flat, t: Name, source: Name, target: Name)
    requires SameTypes(schema, types)
    ensures SameTypes(NestedStep(schema, RenameColumn(t, source, target)), FlatStep(types, RenameColumn(t, source, target)))
  {
    var schema' := NestedStep(schema, RenameColumn(t, source, target));
    assert (t, source) in types <==> source in Columns(schema, t);
    assert forall u :: u != t ==> Columns(schema', u) == Columns(schema, u);
  }

  lemma DropAgrees(schema: Nested, types: Flat, t: Name)
    requires SameTypes(schema, types)
    ensures SameTypes(NestedStep(schema, Drop(t)), FlatStep(types, Drop(t)))
  {
    var schema' := NestedStep(schema, Drop(t));
    assert Columns(schema', t) == map[];
    assert forall u :: u != t ==> Columns(schema', u) == Columns(schema, u);
  }

  /** From agreement, one event keeps the flat dictionary in agreement exactly when it follows it. */
  lemma FlatStepAgreesIff(schema: Nested, types: Flat, e: Event)
    requires SameTypes(schema, types)
    ensures SameTypes(NestedStep(schema, e), FlatStep(types, e)) <==> Follows(schema, e)
  {
    hide NestedStep, SameTypes;
    match e
    case Create(t, columns) => CreateAgrees(schema, types, t, columns);
    case Add(t, c, declared) => AddAgreesIff(schema, types, t, c, declared);
    case RenameTable(source, target) => RenameEntries(schema, types, source, target);
    case RenameColumn(t, source, target) => RenameColumnAgrees(schema, types, t, source, target);
    case Drop(t) => DropAgrees(schema, types, t);
  }

  ghost predicate AllFollow(schema: Nested, events: seq<Event>)
    decreases |events|
  {
    events == [] || (Follows(schema, events[0]) && AllFollow(NestedStep(schema, events[0]), events[1..]))
  }

  /** From agreement, the flat dictionary agrees after every event of a history if and only if it follows
    * each of them in the schema that event meets. */
  lemma {:induction false} HistoryAgreesIff(schema: Nested, types: Flat, events: seq<Event>)
    requires SameTypes(schema, types)
    ensures (forall n :: 0 <= n <= |events| ==>
               SameTypes(NestedReplay(schema, events[..n]), FlatReplay(types, events[..n])))
       <==> AllFollow(schema, events)
    decreases |events|
  {
    hide SameTypes, NestedStep, FlatStep, Follows;
    assert events[..0] == [];
    if events != [] {
      var schema', types' := NestedStep(schema, events[0]), FlatStep(types, events[0]);
      FlatStepAgreesIff(schema, types, events[0]);
      forall n | 0 < n <= |events|
        ensures NestedReplay(schema, events[..n]) == NestedReplay(schema', events[1..][..n - 1])
        ensures FlatReplay(types, events[..n]) == FlatReplay(types', events[1..][..n - 1])
      {
        assert events[..n][1..] == events[1..][..n - 1];
      }
      assert events[1..][..0] == [];
      if SameTypes(schema', types') {
        HistoryAgreesIff(schema', types', events[1..]);
        AgreesFromTail(schema, types, schema', types', events);
      } else {
        assert !SameTypes(NestedReplay(schema, events[..1]), FlatReplay(types, events[..1]));
      }
    }
  }

  lemma AgreesFromTail(schema: Nested, types: Flat, schema': Nested, types': Flat, events: seq<Event>)
    requires events != [] && SameTypes(schema, types)
    requires forall n :: 0 < n <= |events| ==>
      && NestedReplay(schema, events[..n]) == NestedReplay(schema', events[1..][..n - 1])
      && FlatReplay(types, events[..n]) == FlatReplay(types', events[1..][..n - 1])
    ensures (forall n :: 0 <= n <= |events| ==>
               SameTypes(NestedReplay(schema, events[..n]), FlatReplay(types, events[..n])))
       <==> (forall n :: 0 <= n <= |events[1..]| ==>
               SameTypes(NestedReplay(schema', events[1..][..n]), FlatReplay(types', events[1..][..n])))
  {
    hide SameTypes, NestedStep, FlatStep;
    assert events[..0] == [];
    if forall n :: 0 <= n <= |events| ==> SameTypes(NestedReplay(schema, events[..n]), FlatReplay(types, events[..n])) {
      forall n | 0 <= n <= |events[1..]|
        ensures SameTypes(NestedReplay(schema', events[1..][..n]), FlatReplay(types', events[1..][..n]))
      {
        assert NestedReplay(schema, events[..n + 1]) == NestedReplay(schema', events[1..][..n + 1 - 1]);
      }
    }
  }

  /** No column is added after its table, and no table is renamed over another. */
  ghost predicate PlainHistory(schema: Nested, events: seq<Event>)
    decreases |events|
  {
    events == []
    || (!events[0].Add? && (events[0].RenameTable? ==> events[0].target !in schema)
        && PlainHistory(NestedStep(schema, events[0]), events[1..]))
  }

  lemma {:induction false} PlainFollows(schema: Nested, events: seq<Event>)
    requires PlainHistory(schema, events)
    ensures AllFollow(schema, events)
    decreases |events|
  {
    if events != [] {
      PlainFollows(NestedStep(schema, events[0]), events[1..]);
    }
  }

  /** On such a history, replayed from nothing, all three agree on every column and its type. */
  lemma PlainHistoriesAgree(events: seq<Event>)
    requires PlainHistory(map[], events)
    ensures SameTypes(NestedReplay(map[], events), FlatReplay(map[], events))
    ensures SameColumns(NestedReplay(map[], events), SetsReplay(map[], events))
  {
    PlainFollows(map[], events);
    HistoryAgreesIff(map[], map[], events);
    assert events[..|events|] == events;
    InventoryAgrees(map[], map[], events);
  }

  lemma {:induction false} DeclaredSnoc(known: map<Name, string>, columns: seq<(Name, string)>, c: Name, declared: string)
    ensures Declared(known, columns + [(c, declared)]) == Declared(known, columns)[c := declared]
    decreases |columns|
  {
    if columns == [] {
      assert columns + [(c, declared)] == [(c, declared)] && [(c, declared)][1..] == [];
    } else {
      assert (columns + [(c, declared)])[1..] == columns[1..] + [(c, declared)];
      DeclaredSnoc(known[columns[0].0 := columns[0].1], columns[1..], c, declared);
    }
  }

  lemma {:induction false} ListedSnoc(tables: Sets, t: Name, columns: seq<(Name, string)>, c: Name, declared: string)
    ensures var tables' := Listed(tables, t, columns);
      Listed(tables, t, columns + [(c, declared)]) == tables'[t := Names(tables', t) + {c}]
    decreases |columns|
  {
    if columns == [] {
      assert columns + [(c, declared)] == [(c, declared)] && [(c, declared)][1..] == [];
    } else {
      assert (columns + [(c, declared)])[1..] == columns[1..] + [(c, declared)];
      ListedSnoc(tables[t := Names(tables, t) + {columns[0].0}], t, columns[1..], c, declared);
    }
  }

  /** Creating a table and adding a column is creating it with the column, its type included, for the nested
    * replay and the sets; the flat one alone tells the two apart. */
  lemma AddedIsDeclared(schema: Nested, tables: Sets, t: Name, columns: seq<(Name, string)>, c: Name, declared: string)
    ensures var create, add, both := Create(t, columns), Add(t, c, declared), Create(t, columns + [(c, declared)]);
      && NestedStep(NestedStep(schema, create), add) == NestedStep(schema, both)
      && SetsStep(SetsStep(tables, create), add) == SetsStep(tables, both)
  {
    DeclaredSnoc(Columns(schema, t), columns, c, declared);
    ListedSnoc(tables, t, columns, c, declared);
  }

  /** A rename over a table that has a column of its own: the flat dictionary keeps that column, the
    * others lose it. */
  lemma RenameOverMerges(x: Name, t: Name, c: Name, d: Name)
    requires x != t && c != d
    ensures var events := [Create(x, [(c, "uuid")]), Create(t, [(d, "text")])] + [RenameTable(x, t)];
      (t, d) in FlatReplay(map[], events) && d !in Columns(NestedReplay(map[], events), t)
  {
    var schema: Nested := map[x := map[c := "uuid"], t := map[d := "text"]];
    var types: Flat := map[(x, c) := "uuid", (t, d) := "text"];
    TwoTables(x, t, c, d);
    var events := [Create(x, [(c, "uuid")]), Create(t, [(d, "text")])] + [RenameTable(x, t)];
    assert events[1..][1..] == [RenameTable(x, t)];
    assert NestedReplay(map[], events) == NestedReplay(schema, [RenameTable(x, t)]);
    assert FlatReplay(map[], events) == FlatReplay(types, [RenameTable(x, t)]);
    OneEvent(schema, types, RenameTable(x, t));
  }

  lemma OneColumn(known: map<Name, string>, types: Flat, t: Name, c: Name, declared: string)
    ensures Declared(known, [(c, declared)]) == known[c := declared]
    ensures Typed(types, t, [(c, declared)]) == types[(t, c) := declared]
  {
    assert [(c, declared)][1..] == [];
  }

  lemma TwoTables(x: Name, t: Name, c: Name, d: Name)
    requires x != t
    ensures NestedStep(NestedStep(map[], Create(x, [(c, "uuid")])), Create(t, [(d, "text")]))
         == map[x := map[c := "uuid"], t := map[d := "text"]]
    ensures FlatStep(FlatStep(map[], Create(x, [(c, "uuid")])), Create(t, [(d, "text")]))
         == map[(x, c) := "uuid", (t, d) := "text"]
  {
    hide Declared, Typed;
    OneColumn(map[], map[], x, c, "uuid");
    OneColumn(map[], map[(x, c) := "uuid"], t, d, "text");
    assert FlatStep(map[], Create(x, [(c, "uuid")])) == map[(x, c) := "uuid"];
    assert NestedStep(map[], Create(x, [(c, "uuid")])) == map[x := map[c := "uuid"]];
  }

  lemma OneEvent(schema: Nested, types: Flat, e: Event)
    ensures NestedReplay(schema, [e]) == NestedStep(schema, e) && FlatReplay(types, [e]) == FlatStep(types, e)
  {
    assert [e][1..] == [];
  }

  // ---------------------------------------------------------------------------
  // A rebuild
  // ---------------------------------------------------------------------------

  /** Rename a table away, create it anew, drop what it was: whatever was there, the table is left with
    * exactly its new definition, the temporary name is gone, and no other table is touched. */
  lemma RebuildNested(schema: Nested, x: Name, t: Name, columns: seq<(Name, string)>)
    requires x != t
    ensures var after := NestedStep(NestedStep(NestedStep(schema, RenameTable(x, t)), Create(x, columns)), Drop(t));
      && x in after && after[x] == Declared(map[], columns) && t !in after
      && (forall u :: u != x && u != t ==> (u in after <==> u in schema) && (u in schema ==> after[u] == schema[u]))
  {
  }

  lemma RebuildSets(tables: Sets, x: Name, t: Name, columns: seq<(Name, string)>)
    requires x != t
    ensures var after := SetsStep(SetsStep(SetsStep(tables, RenameTable(x, t)), Create(x, columns)), Drop(t));
      && Names(after, x) == NamesIn(columns) && t !in after
      && (forall u :: u != x && u != t ==> Names(after, u) == Names(tables, u))
  {
    var renamed := SetsStep(tables, RenameTable(x, t));
    ListedNames(renamed, x, columns);
    assert Names(renamed, x) == {};
    var created := Listed(renamed, x, columns);
    assert created == SetsStep(renamed, Create(x, columns));
    forall u | u != x && u != t
      ensures Names(created - {t}, u) == Names(tables, u)
    {
      assert Names(created, u) == Names(renamed, u) == Names(tables, u);
    }
  }

  lemma RebuildFlat(types: Flat, x: Name, t: Name, columns: seq<(Name, string)>)
    requires x != t
    ensures var after := FlatStep(FlatStep(FlatStep(types, RenameTable(x, t)), Create(x, columns)), Drop(t));
      && (forall c :: ((x, c) in after <==> c in Declared(map[], columns))
                      && ((x, c) in after ==> after[(x, c)] == Declared(map[], columns)[c]))
      && (forall c :: (t, c) !in after)
      && (forall k: (Name, Name) :: k.0 != x && k.0 != t ==>
            (k in after <==> k in types) && (k in types ==> after[k] == types[k]))
  {
    var renamed := FlatStep(types, RenameTable(x, t));
    assert forall k :: k in Moved(types, x, t) ==> k.0 == t;
    assert forall c :: (x, c) !in renamed;
    TypedEntries(renamed, x, columns, map[]);
  }

  /** A column renamed to a free name and back is where it was, with the type it had. */
  lemma RenamedBack(schema: Nested, t: Name, source: Name, target: Name)
    requires source in Columns(schema, t) && target !in Columns(schema, t)
    ensures var renamed := NestedStep(schema, RenameColumn(t, source, target));
      && source !in Columns(renamed, t) && target in Columns(renamed, t)
      && Columns(renamed, t)[target] == Columns(schema, t)[source]
      && NestedStep(renamed, RenameColumn(t, target, source)) == schema
  {
    var before := schema[t];
    var after := (before - {source})[target := before[source]];
    assert (after - {target})[source := after[target]] == before;
    assert schema[t := after][t := before] == schema;
  }

  // ---------------------------------------------------------------------------
  // The replays as loops
  // ---------------------------------------------------------------------------

  /** `load_schema`. */
  method LoadSchema(events: seq<Event>) returns (schema: Nested)
    ensures schema == NestedReplay(map[], events)
  {
    hide NestedStep, Declared;
    schema := map[];
    for i := 0 to |events|
      invariant NestedReplay(schema, events[i..]) == NestedReplay(map[], events)
    {
      assert events[i..][1..] == events[i + 1..];
      schema := ApplyNested(schema, events[i]);
    }
  }

  method ApplyNested(before: Nested, e: Event) returns (schema: Nested)
    ensures schema == NestedStep(before, e)
  {
    schema := before;
    match e {
      case Create(table, found) =>
        var columns := Columns(schema, table);
        for k := 0 to |found|
          invariant Declared(columns, found[k..]) == Declared(Columns(before, table), found)
        {
          assert found[k..][1..] == found[k + 1..];
          columns := columns[found[k].0 := found[k].1];
        }
        schema := schema[table := columns];
      case Add(table, column, declared) =>
        schema := schema[table := Columns(schema, table)[column := declared]];
      case RenameTable(source, target) =>
        var popped := Columns(schema, source);
        schema := schema - {source};
        schema := schema[target := popped];
      case RenameColumn(table, source, target) =>
        if table in schema && source in schema[table] {
          var declared := schema[table][source];
          schema := schema[table := schema[table] - {source}];
          schema := schema[table := schema[table][target := declared]];
        }
      case Drop(table) => schema := schema - {table};
    }
  }

  /** `parse_inventory`. */
  method ParseInventory(events: seq<Event>) returns (tables: Sets)
    ensures tables == SetsReplay(map[], events)
  {
    hide SetsStep, Listed;
    tables := map[];
    for i := 0 to |events|
      invariant SetsReplay(tables, events[i..]) == SetsReplay(map[], events)
    {
      assert events[i..][1..] == events[i + 1..];
      tables := ApplySets(tables, events[i]);
    }
  }

  method ApplySets(before: Sets, e: Event) returns (tables: Sets)
    ensures tables == SetsStep(before, e)
  {
    tables := before;
    match e {
      case Create(table, lines) =>
        for k := 0 to |lines|
          invariant Listed(tables, table, lines[k..]) == Listed(before, table, lines)
        {
          assert lines[k..][1..] == lines[k + 1..];
          tables := tables[table := Names(tables, table) + {lines[k].0}];
        }
      case Add(table, column, _) => tables := tables[table := Names(tables, table) + {column}];
      case RenameTable(source, target) =>
        var popped := Names(tables, source);
        tables := tables - {source};
        tables := tables[target := popped];
      case RenameColumn(table, source, target) =>
        if table in tables && source in tables[table] {
          tables := tables[table := tables[table] - {source}];
          tables := tables[table := tables[table] + {target}];
        }
      case Drop(table) => tables := tables - {table};
    }
  }

  /** `column_types`. */
  method ColumnTypes(events: seq<Event>) returns (types: Flat)
    ensures types == FlatReplay(map[], events)
  {
    hide FlatStep, Typed;
    types := map[];
    for i := 0 to |events|
      invariant FlatReplay(types, events[i..]) == FlatReplay(map[], events)
    {
      assert events[i..][1..] == events[i + 1..];
      types := ApplyFlat(types, events[i]);
    }
  }

  method ApplyFlat(before: Flat, e: Event) returns (types: Flat)
    ensures types == FlatStep(before, e)
  {
    types := before;
    match e {
      case Create(table, lines) =>
        for k := 0 to |lines|
          invariant Typed(types, table, lines[k..]) == Typed(before, table, lines)
        {
          assert lines[k..][1..] == lines[k + 1..];
          types := types[(table, lines[k].0) := lines[k].1];
        }
      case Add(_, _, _) =>
      case RenameTable(source, target) =>
        var moved := Moved(types, source, target);
        types := DeleteTable(types, source);
        types := types + moved;
      case RenameColumn(table, source, target) =>
        if (table, source) in types {
          var declared := types[(table, source)];
          types := types - {(table, source)};
          types := types[(table, target) := declared];
        }
      case Drop(table) => types := DeleteTable(types, table);
    }
  }

  /** Delete a table's keys, one after the other, in whatever order. */
  method DeleteTable(before: Flat, table: Name) returns (types: Flat)
    ensures types == before - Of(before, table)
  {
    types := before;
    var keys := Of(before, table);
    ghost var all := keys;
    while keys != {}
      invariant keys <= all
      invariant types == before - (all - keys)
      decreases |keys|
    {
      var k :| k in keys;
      types := types - {k};
      keys := keys - {k};
    }
  }
}
