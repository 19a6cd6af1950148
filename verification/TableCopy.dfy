/**
 Copying a database table by table, in chunks (scripts/migrate_sqlite_to_postgres.py).
 */
module TableCopy {
  import opened Options
  import opened Lists

  /** A row: its integer primary key, its foreign keys as (table, key), and the other columns. */
  datatype Row = Row(key: int, refs: seq<(string, int)>, values: seq<string>)

  type Database = map<string, seq<Row>>

  function RowsOf(db: Database, table: string): seq<Row> {
    if table in db then db[table] else []
  }

  predicate Resolves(db: Database, r: (string, int)) {
    exists row | row in RowsOf(db, r.0) :: row.key == r.1
  }

  /** Every foreign key of the table's rows to another table resolves. */
  ghost predicate TableResolves(db: Database, table: string) {
    forall row, r | row in RowsOf(db, table) && r in row.refs && r.0 != table :: Resolves(db, r)
  }

  ghost predicate AllResolve(db: Database) {
    forall table | table in db :: TableResolves(db, table)
  }

  // ----- the plan -----

  /** The selected names, in the order of the target's dependency-sorted tables. */
  function Ordered(sortedTables: seq<string>, selected: set<string>): (r: seq<string>)
    ensures forall n :: n in r <==> n in sortedTables && n in selected
  {
    if sortedTables == [] then []
    else
      var rest := Ordered(sortedTables[1..], selected);
      if sortedTables[0] in selected then [sortedTables[0]] + rest else rest
  }

  /** Each table comes behind the tables its rows refer to. */
  ghost predicate Topological(names: seq<string>, source: Database) {
    forall i, row, r | 0 <= i < |names| && row in RowsOf(source, names[i]) && r in row.refs && r.0 != names[i] ::
      r.0 in names ==> r.0 in names[..i]
  }

  /** The planned tables refer to planned tables only. */
  ghost predicate ClosedUnderParents(names: seq<string>, source: Database) {
    forall i, row, r | 0 <= i < |names| && row in RowsOf(source, names[i]) && r in row.refs :: r.0 in names
  }

  lemma {:induction false} OrderedKeepsPlaces(sortedTables: seq<string>, selected: set<string>, i: nat) returns (j: nat)
    requires Distinct(sortedTables) && i < |Ordered(sortedTables, selected)|
    ensures j < |sortedTables| && sortedTables[j] == Ordered(sortedTables, selected)[i]
    ensures forall n | n in sortedTables[..j] && n in selected :: n in Ordered(sortedTables, selected)[..i]
  {
    var r := Ordered(sortedTables, selected);
    var rest := Ordered(sortedTables[1..], selected);
    if sortedTables[0] in selected && i == 0 {
      j := 0;
    } else {
      var k := if sortedTables[0] in selected then i - 1 else i;
      var below := OrderedKeepsPlaces(sortedTables[1..], selected, k);
      j := below + 1;
      assert sortedTables[..j] == [sortedTables[0]] + sortedTables[1..][..below];
      if sortedTables[0] in selected {
        assert r[..i] == [sortedTables[0]] + rest[..k];
      }
    }
  }

  lemma {:induction false} OrderedIsDistinct(sortedTables: seq<string>, selected: set<string>)
    requires Distinct(sortedTables)
    ensures Distinct(Ordered(sortedTables, selected))
  {
    if sortedTables != [] {
      OrderedIsDistinct(sortedTables[1..], selected);
    }
  }

  /** Selecting tables from a topological order keeps it topological. */
  lemma PlanIsTopological(sortedTables: seq<string>, selected: set<string>, source: Database)
    requires Distinct(sortedTables) && Topological(sortedTables, source)
    ensures Topological(Ordered(sortedTables, selected), source)
  {
    var names := Ordered(sortedTables, selected);
    forall i, row, r | 0 <= i < |names| && row in RowsOf(source, names[i]) && r in row.refs && r.0 != names[i]
      ensures r.0 in names ==> r.0 in names[..i]
    {
      var j := OrderedKeepsPlaces(sortedTables, selected, i);
      assert r.0 in names ==> r.0 in sortedTables && r.0 in selected;
    }
  }

  // ----- the copy -----

  /** What coercion does to a row: it may fail, and it leaves keys alone. */
  type Coercion = Row -> Option<Row>

  ghost predicate KeepsKeys(coerce: Coercion) {
    forall row :: coerce(row).Some? ==> coerce(row).value.key == row.key && coerce(row).value.refs == row.refs
  }

  /** The coerced rows, or `None` when one of them cannot be represented (the program raises). */
  function CoerceAll(rows: seq<Row>, coerce: Coercion): Option<seq<Row>> {
    if rows == [] then Some([])
    else
      match (CoerceAll(rows[..|rows| - 1], coerce), coerce(rows[|rows| - 1]))
      case (Some(before), Some(last)) => Some(before + [last])
      case _ => None
  }

  /** Every row of the planned tables can be represented in the target. */
  predicate AllCoerce(source: Database, names: seq<string>, coerce: Coercion) {
    forall k | 0 <= k < |names| :: CoerceAll(RowsOf(source, names[k]), coerce).Some?
  }

  /** Rows are coerced one by one and in place, and all of them or none. */
  lemma {:induction false} CoercedRows(rows: seq<Row>, coerce: Coercion)
    ensures CoerceAll(rows, coerce).Some? <==> forall i | 0 <= i < |rows| :: coerce(rows[i]).Some?
    ensures CoerceAll(rows, coerce).Some? ==>
              && |CoerceAll(rows, coerce).value| == |rows|
              && forall i | 0 <= i < |rows| :: coerce(rows[i]) == Some(CoerceAll(rows, coerce).value[i])
  {
    if rows != [] {
      var n := |rows| - 1;
      CoercedRows(rows[..n], coerce);
      assert forall i | 0 <= i < n :: rows[..n][i] == rows[i];
    }
  }

  lemma {:induction false} CoerceAppend(a: seq<Row>, b: seq<Row>, coerce: Coercion)
    ensures CoerceAll(a + b, coerce) ==
            match (CoerceAll(a, coerce), CoerceAll(b, coerce))
            case (Some(x), Some(y)) => Some(x + y)
            case _ => None
    decreases |b|
  {
    if b == [] {
      assert a + b == a;
      match CoerceAll(a, coerce) case None => case Some(x) => assert x + [] == x;
    } else {
      assert (a + b)[..|a + b| - 1] == a + b[..|b| - 1];
      CoerceAppend(a, b[..|b| - 1], coerce);
      match (CoerceAll(a, coerce), CoerceAll(b[..|b| - 1], coerce), coerce(b[|b| - 1]))
      case (Some(x), Some(y), Some(z)) => assert x + (y + [z]) == x + y + [z];
      case _ =>
    }
  }

  lemma {:induction false} CoercedFromSource(rows: seq<Row>, coerce: Coercion, x: Row) returns (row: Row)
    requires CoerceAll(rows, coerce).Some? && KeepsKeys(coerce) && x in CoerceAll(rows, coerce).value
    ensures row in rows && x.key == row.key && x.refs == row.refs
  {
    var before, last := rows[..|rows| - 1], rows[|rows| - 1];
    if x == coerce(last).value {
      row := last;
    } else {
      row := CoercedFromSource(before, coerce, x);
    }
  }

  lemma {:induction false} SourceIsCoerced(rows: seq<Row>, coerce: Coercion, row: Row) returns (x: Row)
    requires CoerceAll(rows, coerce).Some? && KeepsKeys(coerce) && row in rows
    ensures x in CoerceAll(rows, coerce).value && x.key == row.key
  {
    var before, last := rows[..|rows| - 1], rows[|rows| - 1];
    assert rows == before + [last];
    if row == last {
      x := coerce(last).value;
    } else {
      x := SourceIsCoerced(before, coerce, row);
    }
  }

  /** The source rows that are copied once `names[..i]` are done, with the first `n` rows of `names[i]`. */
  function Copied(source: Database, names: seq<string>, i: nat, n: nat, table: string): (r: seq<Row>)
    requires i <= |names|
    ensures r <= RowsOf(source, table)
  {
    if table in names[..i] then RowsOf(source, table)
    else if i < |names| && table == names[i] && n <= |RowsOf(source, table)| then RowsOf(source, table)[..n]
    else []
  }

  /** The target at that point: behind what each table held come the coerced rows copied so far, in order. */
  ghost predicate CopiedUpTo(
    start: Database, source: Database, names: seq<string>, coerce: Coercion, i: nat, n: nat, target: Database)
    requires i <= |names|
  {
    forall table ::
      && CoerceAll(Copied(source, names, i, n, table), coerce).Some?
      && RowsOf(target, table) == RowsOf(start, table) + CoerceAll(Copied(source, names, i, n, table), coerce).value
  }

  /** A state the target passes through. */
  ghost predicate Boundary(start: Database, source: Database, names: seq<string>, coerce: Coercion, target: Database) {
    exists i: nat, n: nat :: i <= |names| && CopiedUpTo(start, source, names, coerce, i, n, target)
  }

  /** At every chunk boundary, every foreign key between distinct tables in the target resolves. */
  lemma BoundaryResolves(start: Database, source: Database, names: seq<string>, coerce: Coercion, target: Database)
    requires Boundary(start, source, names, coerce, target) && KeepsKeys(coerce)
    requires AllResolve(start) && AllResolve(source)
    requires Topological(names, source) && ClosedUnderParents(names, source)
    ensures AllResolve(target)
  {
    hide CoerceAll, Copied, KeepsKeys, Topological, ClosedUnderParents;
    var i: nat, n: nat :| i <= |names| && CopiedUpTo(start, source, names, coerce, i, n, target);
    forall table | table in target ensures TableResolves(target, table) {
      forall row, r | row in RowsOf(target, table) && r in row.refs && r.0 != table ensures Resolves(target, r) {
        assert CoerceAll(Copied(source, names, i, n, table), coerce).Some?;
        if row in RowsOf(start, table) {
          StartKeyStays(start, source, names, coerce, i, n, target, table, row, r);
        } else {
          CopiedKeyResolves(start, source, names, coerce, i, n, target, table, row, r);
        }
      }
    }
  }

  lemma StartKeyStays(
    start: Database, source: Database, names: seq<string>, coerce: Coercion, i: nat, n: nat, target: Database,
    table: string, row: Row, r: (string, int))
    requires i <= |names| && CopiedUpTo(start, source, names, coerce, i, n, target) && AllResolve(start)
    requires row in RowsOf(start, table) && r in row.refs && r.0 != table
    ensures Resolves(target, r)
  {
    hide CoerceAll, Copied;
    assert TableResolves(start, table);
    var parent :| parent in RowsOf(start, r.0) && parent.key == r.1;
    assert CoerceAll(Copied(source, names, i, n, r.0), coerce).Some?;
    assert parent in RowsOf(target, r.0);
  }

  /** A copied child was copied behind its parent's whole table. */
  lemma CopiedKeyResolves(
    start: Database, source: Database, names: seq<string>, coerce: Coercion, i: nat, n: nat, target: Database,
    table: string, row: Row, r: (string, int))
    requires i <= |names| && CopiedUpTo(start, source, names, coerce, i, n, target) && KeepsKeys(coerce) &&
             AllResolve(source)
    requires Topological(names, source) && ClosedUnderParents(names, source)
    requires CoerceAll(Copied(source, names, i, n, table), coerce).Some?
    requires row in CoerceAll(Copied(source, names, i, n, table), coerce).value && r in row.refs && r.0 != table
    ensures Resolves(target, r)
  {
    hide CoerceAll, KeepsKeys, Topological, ClosedUnderParents, Copied;
    var original := CoercedFromSource(Copied(source, names, i, n, table), coerce, row);
    assert original in RowsOf(source, table);
    assert TableResolves(source, table);
    var parent :| parent in RowsOf(source, r.0) && parent.key == r.1;
    ParentCopiedFirst(source, names, i, n, table, original, r);
    assert CoerceAll(Copied(source, names, i, n, r.0), coerce).Some?;
    var copy := SourceIsCoerced(RowsOf(source, r.0), coerce, parent);
    assert copy in RowsOf(target, r.0);
  }

  lemma ParentCopiedFirst(
    source: Database, names: seq<string>, i: nat, n: nat, table: string, row: Row, r: (string, int))
    requires i <= |names| && Topological(names, source) && ClosedUnderParents(names, source)
    requires row in Copied(source, names, i, n, table) && r in row.refs && r.0 != table
    ensures Copied(source, names, i, n, r.0) == RowsOf(source, r.0)
  {
    var k :| 0 <= k < |names| && k <= i && names[k] == table;
    assert r.0 in names[..k];
    assert r.0 in names[..i];
  }

  /** How many chunks of at most `size` rows `n` rows make. */
  function Chunks(n: nat, size: nat): nat
    requires size > 0
  {
    if n == 0 then 0 else 1 + Chunks(if n < size then 0 else n - size, size)
  }

  class Target {
    var db: Database
    /** The next id of each table's sequence. */
    var nextIds: map<string, int>
    /** The states right after each insert. */
    ghost var boundaries: seq<Database>

    constructor (initial: Database)
      ensures db == initial && nextIds == map[] && boundaries == []
    {
      db, nextIds := initial, map[];
      boundaries := [];
    }

    method Insert(table: string, rows: seq<Row>)
      modifies this`db, this`boundaries
      ensures db == old(db)[table := RowsOf(old(db), table) + rows]
      ensures boundaries == old(boundaries) + [db]
    {
      db := db[table := RowsOf(db, table) + rows];
      boundaries := boundaries + [db];
    }

    /** `copy_table_rows`: chunk by chunk; stops at a row that cannot be coerced. */
    method CopyTableRows(
      source: Database, names: seq<string>, i: nat, chunkSize: nat, dryRun: bool, coerce: Coercion,
      ghost start: Database)
      returns (ok: bool, copied: nat)
      requires chunkSize > 0 && i < |names| && Distinct(names)
      requires !dryRun ==> CopiedUpTo(start, source, names, coerce, i, 0, db)
      modifies this`db, this`boundaries
      ensures dryRun ==> db == old(db) && boundaries == old(boundaries)
      ensures !dryRun && ok ==> CopiedUpTo(start, source, names, coerce, i + 1, 0, db)
      ensures old(boundaries) <= boundaries
      ensures forall b | b in boundaries[|old(boundaries)|..] :: Boundary(start, source, names, coerce, b)
      ensures ok <==> CoerceAll(RowsOf(source, names[i]), coerce).Some?
      ensures ok ==> copied == |RowsOf(source, names[i])|
      ensures ok && !dryRun ==> |boundaries| == |old(boundaries)| + Chunks(|RowsOf(source, names[i])|, chunkSize)
    {
      hide CopiedUpTo, Distinct, CoerceAll;
      var rows := RowsOf(source, names[i]);
      copied := 0;
      NothingCoerced(rows, coerce);
      while copied < |rows|
        invariant copied <= |rows|
        invariant dryRun ==> db == old(db) && boundaries == old(boundaries)
        invariant !dryRun ==> CopiedUpTo(start, source, names, coerce, i, copied, db)
        invariant old(boundaries) <= boundaries
        invariant forall b | b in boundaries[|old(boundaries)|..] :: Boundary(start, source, names, coerce, b)
        invariant CoerceAll(rows[..copied], coerce).Some?
        invariant !dryRun ==>
                  |boundaries| + Chunks(|rows| - copied, chunkSize) == |old(boundaries)| + Chunks(|rows|, chunkSize)
        decreases |rows| - copied
      {
        var upTo := if copied + chunkSize < |rows| then copied + chunkSize else |rows|;
        var prepared := CoerceAll(rows[copied..upTo], coerce);
        NextChunk(rows, copied, upTo, coerce);
        if prepared.None? {
          return false, copied;
        }
        if !dryRun {
          ChunkInserted(start, source, names, coerce, i, copied, upTo, db);
          Insert(names[i], prepared.value);
        }
        copied := upTo;
      }
      assert rows[..copied] == rows;
      if !dryRun {
        TableDone(start, source, names, coerce, i, db);
      }
      ok := true;
    }

    /** The loop over the plan, in one transaction: a failure rolls every insert back. */
    method CopyTables(source: Database, names: seq<string>, chunkSize: nat, coerce: Coercion) returns (ok: bool)
      requires chunkSize > 0 && Distinct(names)
      modifies this`db, this`boundaries
      ensures ok <==> AllCoerce(source, names, coerce)
      ensures ok ==> CopiedUpTo(old(db), source, names, coerce, |names|, 0, db)
      ensures !ok ==> db == old(db)
      ensures old(boundaries) <= boundaries
      ensures forall b | b in boundaries[|old(boundaries)|..] :: Boundary(old(db), source, names, coerce, b)
    {
      hide CopiedUpTo, Distinct, CoerceAll;
      var start := db;
      NothingCopied(start, source, names, coerce);
      for i := 0 to |names|
        invariant CopiedUpTo(start, source, names, coerce, i, 0, db)
        invariant forall k | 0 <= k < i :: CoerceAll(RowsOf(source, names[k]), coerce).Some?
        invariant old(boundaries) <= boundaries
        invariant forall b | b in boundaries[|old(boundaries)|..] :: Boundary(start, source, names, coerce, b)
      {
        var copied;
        ok, copied := CopyTableRows(source, names, i, chunkSize, false, coerce, start);
        if !ok {
          db := start;
          return;
        }
      }
      ok := true;
    }

    /** `reset_sequences` for the planned tables. */
    method ResetSequences(names: seq<string>)
      modifies this`nextIds
      ensures nextIds.Keys == old(nextIds).Keys + (set n | n in names)
      ensures forall table, row | table in names && row in RowsOf(db, table) :: row.key < nextIds[table]
      ensures forall table | table in old(nextIds) && table !in names :: nextIds[table] == old(nextIds)[table]
    {
      for i := 0 to |names|
        invariant nextIds.Keys == old(nextIds).Keys + (set n | n in names[..i])
        invariant forall table, row | table in names[..i] && row in RowsOf(db, table) :: row.key < nextIds[table]
        invariant forall table | table in old(nextIds) && table !in names[..i] :: nextIds[table] == old(nextIds)[table]
      {
        var next := ResetSequence(RowsOf(db, names[i]));
        nextIds := nextIds[names[i] := next];
      }
    }

    /** The whole migration: plan, copy, and reset the sequences, in one transaction. */
    method Migrate(source: Database, sortedTables: seq<string>, selected: set<string>, chunkSize: nat, coerce: Coercion)
      returns (ok: bool)
      requires chunkSize > 0 && Distinct(sortedTables)
      modifies this
      ensures var plan := Ordered(sortedTables, selected);
              && (ok <==> AllCoerce(source, plan, coerce))
              && (ok ==> CopiedUpTo(old(db), source, plan, coerce, |plan|, 0, db))
              && (ok && KeepsKeys(coerce) ==> CopiedIdsAreTaken(source, plan, nextIds))
      ensures !ok ==> db == old(db) && nextIds == old(nextIds)
      ensures old(boundaries) <= boundaries
      ensures Sound(old(db), source, sortedTables, selected, coerce) ==>
                AllResolve(db) && forall b | b in boundaries[|old(boundaries)|..] :: AllResolve(b)
    {
      hide CopiedUpTo, Distinct, CoerceAll, AllCoerce, Sound, CopiedIdsAreTaken, AllResolve;
      var plan := Ordered(sortedTables, selected);
      ghost var start := db;
      OrderedIsDistinct(sortedTables, selected);
      ok := CopyTables(source, plan, chunkSize, coerce);
      if Sound(start, source, sortedTables, selected, coerce) {
        SoundResolves(start, source, sortedTables, selected, coerce, start);
        forall b | Boundary(start, source, plan, coerce, b) ensures AllResolve(b) {
          SoundResolves(start, source, sortedTables, selected, coerce, b);
        }
      }
      if ok {
        ResetSequences(plan);
        if KeepsKeys(coerce) {
          IdsAreTaken(start, source, plan, coerce, db, nextIds);
        }
      }
    }
  }

  /** Both databases resolve, and the plan's tables refer to planned tables that the target lists first. */
  ghost predicate Sound(
    start: Database, source: Database, sortedTables: seq<string>, selected: set<string>, coerce: Coercion)
  {
    && KeepsKeys(coerce) && AllResolve(start) && AllResolve(source)
    && Distinct(sortedTables) && Topological(sortedTables, source)
    && ClosedUnderParents(Ordered(sortedTables, selected), source)
  }

  /** The next id of every planned table exceeds the key of every row its source table holds. */
  ghost predicate CopiedIdsAreTaken(source: Database, plan: seq<string>, nextIds: map<string, int>) {
    forall table, row | table in plan && row in RowsOf(source, table) :: table in nextIds && row.key < nextIds[table]
  }

  lemma SoundResolves(
    start: Database, source: Database, sortedTables: seq<string>, selected: set<string>, coerce: Coercion,
    target: Database)
    requires Sound(start, source, sortedTables, selected, coerce)
    requires target == start || Boundary(start, source, Ordered(sortedTables, selected), coerce, target)
    ensures AllResolve(target)
  {
    hide AllResolve, Boundary, Topological, ClosedUnderParents, KeepsKeys, Distinct;
    if target != start {
      PlanIsTopological(sortedTables, selected, source);
      BoundaryResolves(start, source, Ordered(sortedTables, selected), coerce, target);
    }
  }

  lemma IdsAreTaken(
    start: Database, source: Database, plan: seq<string>, coerce: Coercion, target: Database, nextIds: map<string, int>)
    requires CopiedUpTo(start, source, plan, coerce, |plan|, 0, target) && KeepsKeys(coerce)
    requires forall table | table in plan :: table in nextIds
    requires forall table, row | table in plan && row in RowsOf(target, table) :: row.key < nextIds[table]
    ensures CopiedIdsAreTaken(source, plan, nextIds)
  {
    hide CopiedUpTo, CoerceAll, KeepsKeys;
    forall table, row | table in plan && row in RowsOf(source, table)
      ensures table in nextIds && row.key < nextIds[table]
    {
      FinishedCopy(start, source, plan, coerce, target, table);
      var copy := SourceIsCoerced(RowsOf(source, table), coerce, row);
      assert copy in RowsOf(target, table);
    }
  }

  lemma NothingCoerced(rows: seq<Row>, coerce: Coercion)
    ensures CoerceAll(rows[..0], coerce) == Some([])
  {
  }

  lemma NothingCopied(start: Database, source: Database, names: seq<string>, coerce: Coercion)
    ensures CopiedUpTo(start, source, names, coerce, 0, 0, start)
  {
    forall table ensures Copied(source, names, 0, 0, table) == [] && RowsOf(start, table) == RowsOf(start, table) + [] {
    }
  }

  lemma NextChunk(rows: seq<Row>, copied: nat, upTo: nat, coerce: Coercion)
    requires copied <= upTo <= |rows|
    ensures CoerceAll(rows[..upTo], coerce) ==
            match (CoerceAll(rows[..copied], coerce), CoerceAll(rows[copied..upTo], coerce))
            case (Some(x), Some(y)) => Some(x + y)
            case _ => None
    ensures CoerceAll(rows[..copied], coerce).Some? && CoerceAll(rows[copied..upTo], coerce).None? ==>
            CoerceAll(rows, coerce).None?
  {
    hide CoerceAll;
    assert rows[..upTo] == rows[..copied] + rows[copied..upTo];
    CoerceAppend(rows[..copied], rows[copied..upTo], coerce);
    assert rows == rows[..upTo] + rows[upTo..];
    CoerceAppend(rows[..upTo], rows[upTo..], coerce);
  }

  lemma ChunkInserted(
    start: Database, source: Database, names: seq<string>, coerce: Coercion, i: nat, copied: nat, upTo: nat,
    db: Database)
    requires i < |names| && Distinct(names) && copied <= upTo <= |RowsOf(source, names[i])|
    requires CopiedUpTo(start, source, names, coerce, i, copied, db)
    requires CoerceAll(RowsOf(source, names[i])[copied..upTo], coerce).Some?
    ensures var rows := RowsOf(db, names[i]) + CoerceAll(RowsOf(source, names[i])[copied..upTo], coerce).value;
      CopiedUpTo(start, source, names, coerce, i, upTo, db[names[i] := rows])
      && Boundary(start, source, names, coerce, db[names[i] := rows])
  {
    hide CoerceAll, Copied, CopiedUpTo, Distinct;
    var rows := RowsOf(source, names[i]);
    var chunk := CoerceAll(rows[copied..upTo], coerce).value;
    var after := db[names[i] := RowsOf(db, names[i]) + chunk];
    NextChunk(rows, copied, upTo, coerce);
    forall table
      ensures CoerceAll(Copied(source, names, i, upTo, table), coerce).Some?
      ensures RowsOf(after, table) ==
              RowsOf(start, table) + CoerceAll(Copied(source, names, i, upTo, table), coerce).value
    {
      TableSoFar(start, source, names, coerce, i, copied, db, table);
      if table == names[i] {
        BeingCopied(source, names, i, copied);
        BeingCopied(source, names, i, upTo);
        var before, more := CoerceAll(rows[..copied], coerce).value, CoerceAll(rows[copied..upTo], coerce).value;
        assert RowsOf(start, table) + (before + more) == RowsOf(start, table) + before + more;
      } else {
        NotBeingCopied(source, names, i, copied, upTo, table);
      }
    }
    EveryTable(start, source, names, coerce, i, upTo, after);
  }

  lemma TableSoFar(
    start: Database, source: Database, names: seq<string>, coerce: Coercion, i: nat, n: nat,
    target: Database, table: string)
    requires i <= |names| && CopiedUpTo(start, source, names, coerce, i, n, target)
    ensures CoerceAll(Copied(source, names, i, n, table), coerce).Some?
    ensures RowsOf(target, table) == RowsOf(start, table) + CoerceAll(Copied(source, names, i, n, table), coerce).value
  {
    hide CoerceAll, Copied;
    assert CoerceAll(Copied(source, names, i, n, table), coerce).Some?;
  }

  lemma EveryTable(
    start: Database, source: Database, names: seq<string>, coerce: Coercion, i: nat, n: nat, target: Database)
    requires i <= |names|
    requires forall table ::
      && CoerceAll(Copied(source, names, i, n, table), coerce).Some?
      && RowsOf(target, table) == RowsOf(start, table) + CoerceAll(Copied(source, names, i, n, table), coerce).value
    ensures CopiedUpTo(start, source, names, coerce, i, n, target)
    ensures Boundary(start, source, names, coerce, target)
  {
    hide CoerceAll, Copied;
  }

  lemma BeingCopied(source: Database, names: seq<string>, i: nat, n: nat)
    requires i < |names| && Distinct(names) && n <= |RowsOf(source, names[i])|
    ensures Copied(source, names, i, n, names[i]) == RowsOf(source, names[i])[..n]
  {
  }

  lemma NotBeingCopied(source: Database, names: seq<string>, i: nat, n: nat, m: nat, table: string)
    requires i < |names| && table != names[i]
    ensures Copied(source, names, i, n, table) == Copied(source, names, i, m, table)
  {
  }

  lemma TableDone(start: Database, source: Database, names: seq<string>, coerce: Coercion, i: nat, db: Database)
    requires i < |names| && CopiedUpTo(start, source, names, coerce, i, |RowsOf(source, names[i])|, db)
    ensures CopiedUpTo(start, source, names, coerce, i + 1, 0, db)
  {
    hide CoerceAll, CopiedUpTo, Copied;
    forall table
      ensures Copied(source, names, i + 1, 0, table) == Copied(source, names, i, |RowsOf(source, names[i])|, table)
    {
      WholeTableCopied(source, names, i, table);
    }
    SameCopied(start, source, names, coerce, i, |RowsOf(source, names[i])|, i + 1, 0, db);
  }

  lemma SameCopied(
    start: Database, source: Database, names: seq<string>, coerce: Coercion, i: nat, n: nat, j: nat, m: nat,
    target: Database)
    requires i <= |names| && j <= |names| && CopiedUpTo(start, source, names, coerce, i, n, target)
    requires forall table :: Copied(source, names, j, m, table) == Copied(source, names, i, n, table)
    ensures CopiedUpTo(start, source, names, coerce, j, m, target)
  {
    hide CoerceAll, Copied;
  }

  lemma WholeTableCopied(source: Database, names: seq<string>, i: nat, table: string)
    requires i < |names|
    ensures Copied(source, names, i + 1, 0, table) == Copied(source, names, i, |RowsOf(source, names[i])|, table)
  {
    assert names[..i + 1] == names[..i] + [names[i]];
    assert RowsOf(source, names[i])[..|RowsOf(source, names[i])|] == RowsOf(source, names[i]);
  }

  /**
   The finished copy holds each planned table's rows, coerced and in order, for whatever chunk size; the rest is as it
   was.
   */
  lemma FinishedCopy(
    start: Database, source: Database, names: seq<string>, coerce: Coercion, target: Database, table: string)
    requires CopiedUpTo(start, source, names, coerce, |names|, 0, target)
    ensures table in names ==> CoerceAll(RowsOf(source, table), coerce).Some?
    ensures table in names ==>
            RowsOf(target, table) == RowsOf(start, table) + CoerceAll(RowsOf(source, table), coerce).value
    ensures table !in names ==> RowsOf(target, table) == RowsOf(start, table)
  {
    assert names[..|names|] == names;
    assert CoerceAll(Copied(source, names, |names|, 0, table), coerce).Some?;
  }

  /** Row by row: behind what the table held stand its source rows, coerced, each in its place. */
  lemma FinishedRows(
    start: Database, source: Database, names: seq<string>, coerce: Coercion, target: Database, table: string)
    requires CopiedUpTo(start, source, names, coerce, |names|, 0, target) && table in names
    ensures var old_, rows, after := RowsOf(start, table), RowsOf(source, table), RowsOf(target, table);
            && |after| == |old_| + |rows| && after[..|old_|] == old_
            && forall i | 0 <= i < |rows| :: coerce(rows[i]) == Some(after[|old_| + i])
  {
    hide CopiedUpTo, CoerceAll;
    FinishedCopy(start, source, names, coerce, target, table);
    CoercedRows(RowsOf(source, table), coerce);
  }

  /** The chunks hold all rows, and all but the last are full. */
  lemma {:induction false} ChunksSuffice(n: nat, size: nat)
    requires size > 0
    ensures Chunks(n, size) * size >= n
    ensures n > 0 ==> (Chunks(n, size) - 1) * size < n
  {
    if n > 0 {
      var rest := if n < size then 0 else n - size;
      ChunksSuffice(rest, size);
      assert Chunks(n, size) == 1 + Chunks(rest, size);
      assert Chunks(n, size) * size == size + Chunks(rest, size) * size;
      if rest == 0 {
        assert Chunks(rest, size) == 0;
      }
    }
  }

  // ----- sequences -----

  /** The sequence continues behind the largest key, or behind 1. */
  method ResetSequence(rows: seq<Row>) returns (next: int)
    ensures forall row | row in rows :: row.key < next
    ensures rows == [] ==> next == 2
    ensures forall row | row in rows && (forall other | other in rows :: other.key <= row.key) ::
              next == if row.key == 0 then 2 else row.key + 1
  {
    var maxValue: Option<int> := None;
    for i := 0 to |rows|
      invariant maxValue.None? <==> i == 0
      invariant maxValue.Some? ==>
                && (exists k | 0 <= k < i :: rows[k].key == maxValue.value)
                && (forall k | 0 <= k < i :: rows[k].key <= maxValue.value)
    {
      if maxValue.None? || maxValue.value < rows[i].key {
        maxValue := Some(rows[i].key);
      }
    }
    var value := if maxValue.None? || maxValue.value == 0 then 1 else maxValue.value;
    next := value + 1;
  }
}
