/** Whole runs of statements over one table, and what its fast paths keep of the slow ones. */
module TableRuns {
  import opened Numbers
  import opened Sql
  import opened Seqs
  import opened AccessPaths
  import opened TableSpec
  import opened Stores
  import opened Tables

  datatype Statement =
    | InsertInto(srcs: seq<Row>, replace: bool, names: seq<string>)
    | InsertBound(lits: seq<seq<Literal>>, bound: seq<Value>)
    | UpdateWhere(asgns: seq<Assignment>, selection: Option<Expr>)
    | DeleteWhere(selection: Option<Expr>)
    | DeleteBound(selection: Option<Expr>, bound: seq<Value>)
    | TruncateTable
    | AlterTable(ops: seq<AlterOp>)

  function Step(v: View, st: Statement): View {
    match st
    case InsertInto(srcs, replace, names) => InsertRows(v, names, replace, srcs)
    case InsertBound(lits, bound) => v.(rows := v.rows + BoundRows(lits, bound))
    case UpdateWhere(asgns, selection) => v.(rows := UpdatedRows(v.columns, v.rows, asgns, selection))
    case DeleteWhere(selection) => v.(rows := DeletedRows(v.columns, v.rows, selection))
    case DeleteBound(selection, bound) =>
      v.(rows := if selection.None? then []
                 else Filter(v.rows, (row: Row) => !EvalWhereBound(row, v.columns, selection.value, bound)))
    case TruncateTable => v.(rows := [])
    case AlterTable(ops) => AlterAll(v, ops).view
  }

  /** Statements after which index and stores are exact again. DELETE, TRUNCATE and ALTER always are. */
  ghost predicate Safe(v: View, st: Statement) {
    match st
    case InsertInto(srcs, replace, names) =>
      SourcesFit(v.columns, names, srcs) &&
      (replace || FreshKeys(v.columns, v.rows, Drawn(v.columns, names, srcs, v.nextAuto).rows))
    case InsertBound(lits, bound) =>
      (forall i :: 0 <= i < |lits| ==> |lits[i]| == |v.columns|) && FreshKeys(v.columns, v.rows, BoundRows(lits, bound))
    case UpdateWhere(asgns, selection) => UpdateKeepsFiling(v.columns, v.rows, asgns, selection)
    case _ => true
  }

  function Run(v: View, sts: seq<Statement>): View {
    if sts == [] then v else Step(Run(v, sts[..|sts| - 1]), sts[|sts| - 1])
  }

  ghost predicate SafeRun(v: View, sts: seq<Statement>) {
    forall i :: 0 <= i < |sts| ==> Safe(Run(v, sts[..i]), sts[i])
  }

  /** What a statement may do when the index no longer leads to the right rows: a key may drop, replace or rewrite any
      row, or none. */
  ghost predicate MayBecome(v: View, st: Statement, v': View) {
    match st
    case InsertInto(srcs, _, names) => MayInsert(v, names, srcs, v')
    case UpdateWhere(asgns, _) => MayUpdate(v, asgns, v')
    case InsertBound(_, _) => v' == Step(v, st)
    case AlterTable(_) => v' == Step(v, st)
    case _ => v' == v.(rows := v'.rows) && forall row :: row in v'.rows ==> row in v.rows
  }

  /** One statement. On a valid table it does what it should, and the table stays valid if and only if it is safe (for
      REPLACE, if it is); on any other it stays within what a stale index can do. */
  method ExecuteOne(t: Table, st: Statement)
    requires t.Shaped()
    modifies t
    ensures t.Shaped() && MayBecome(old(t.State()), st, t.State())
    ensures old(t.Valid()) ==> t.State() == Step(old(t.State()), st)
    ensures old(t.Valid()) && Safe(old(t.State()), st) ==> t.Valid()
    ensures old(t.Valid()) && !(st.InsertInto? && st.replace) ==> (t.Valid() <==> Safe(old(t.State()), st))
  {
    ghost var v := t.State();
    match st
    case InsertInto(srcs, replace, names) => var _ := t.Insert(srcs, replace, names);
    case InsertBound(lits, bound) => var _ := t.InsertPrepared(lits, bound);
    case UpdateWhere(asgns, selection) => var _ := t.Update(asgns, selection);
    case DeleteWhere(selection) => var _ := t.Delete(selection);
    case DeleteBound(selection, bound) =>
      if selection.Some? {
        FilterMembers(v.rows, (row: Row) => !EvalWhereBound(row, v.columns, selection.value, bound));
      }
      var _ := t.DeletePrepared(selection, bound);
    case TruncateTable => var _ := t.Truncate();
    case AlterTable(ops) => var _ := t.Alter(ops);
  }

  /** Over any run of safe statements the index stays the inverse of the keys and the stores stay projections; over any
      run whatsoever each step stays within what a stale index can do. */
  method Execute(t: Table, sts: seq<Statement>) returns (ghost vs: seq<View>)
    requires t.Shaped()
    modifies t
    ensures t.Shaped() && |vs| == |sts| + 1 && vs[0] == old(t.State()) && vs[|sts|] == t.State()
    ensures forall i :: 0 <= i < |sts| ==> MayBecome(vs[i], sts[i], vs[i + 1])
    ensures old(t.Valid()) && SafeRun(old(t.State()), sts) ==> t.Valid() && t.State() == Run(old(t.State()), sts)
  {
    ghost var v := t.State();
    vs := [v];
    for n := 0 to |sts|
      invariant t.Shaped() && |vs| == n + 1 && vs[0] == v && vs[n] == t.State()
      invariant forall i :: 0 <= i < n ==> MayBecome(vs[i], sts[i], vs[i + 1])
      invariant old(t.Valid()) && SafeRun(v, sts) ==> t.Valid() && t.State() == Run(v, sts[..n])
    {
      assert sts[..n + 1][..n] == sts[..n];
      ExecuteOne(t, sts[n]);
      vs := vs + [t.State()];
    }
    assert sts[..|sts|] == sts;
  }

  // ----- DELETE and UPDATE through the index, against the evaluator -----

  /** Statements that take the index path on a table whose rows all have a key of their own. */
  ghost predicate Probes(columns: seq<Column>, rows: seq<Row>, e: Expr) {
    var pk := FirstPrimary(columns);
    && pk.Some? && ProbesKey(columns, pk.value, e)
    && KeysPresent(rows, pk.value) && DistinctKeys(rows, pk.value)
  }

  lemma {:induction false} DroppedByKey(rows: seq<Row>, pk: nat, k: string, keep: Row -> bool)
    requires DistinctKeys(rows, pk)
    requires forall i :: 0 <= i < |rows| ==> (keep(rows[i]) <==> Key(rows[i], pk) != k)
    ensures
      var at := FirstWithKey(rows, pk, k);
      Filter(rows, keep) == if at.Some? then Removed(rows, at.value) else rows
  {
    var at := FirstWithKey(rows, pk, k);
    if at.Some? {
      forall i | 0 <= i < |rows| && i != at.value
        ensures keep(rows[i])
      {
        assert i < at.value || Key(rows[i], pk) != Key(rows[at.value], pk);
      }
      FilterDropsOne(rows, at.value, keep);
    } else {
      FilterAll(rows, keep);
    }
  }

  /** The rows as a multiset, less the one at a position. */
  ghost function LessOne(rows: seq<Row>, at: Option<nat>): multiset<Row>
    requires at.Some? ==> at.value < |rows|
  {
    if at.Some? then multiset(rows) - multiset{rows[at.value]} else multiset(rows)
  }

  lemma IndexLeaves(columns: seq<Column>, rows: seq<Row>, k: string)
    requires FirstPrimary(columns).Some?
    ensures multiset(RowsWithoutKey(columns, rows, k))
            == LessOne(rows, FirstWithKey(rows, FirstPrimary(columns).value, k))
  {
    var at := FirstWithKey(rows, FirstPrimary(columns).value, k);
    if at.Some? { SwapRemovedKeepsOthers(rows, at.value); }
  }

  lemma FilterLeaves(columns: seq<Column>, rows: seq<Row>, pk: nat, e: Expr)
    requires ProbesKey(columns, pk, e) && KeysPresent(rows, pk) && DistinctKeys(rows, pk)
    ensures multiset(RowsNotMatching(columns, rows, Some(e))) == LessOne(rows, FirstWithKey(rows, pk, CanonicalText(e)))
  {
    forall i | 0 <= i < |rows|
      ensures EvalWhere(rows[i], columns, e) <==> Key(rows[i], pk) == CanonicalText(e)
    {
      WhereComparesKeyText(rows[i], columns, pk, e);
    }
    DroppedByKey(rows, pk, CanonicalText(e), (row: Row) => !EvalWhere(row, columns, e));
    var at := FirstWithKey(rows, pk, CanonicalText(e));
    if at.Some? { RemovedKeepsOthers(rows, at.value); }
  }

  /** DELETE leaves the same multiset of rows, and reports the same count, exactly when the probe is exact. */
  lemma IndexedDeleteAgrees(columns: seq<Column>, rows: seq<Row>, e: Expr)
    requires Probes(columns, rows, e)
    ensures multiset(DeletedRows(columns, rows, Some(e))) == multiset(RowsNotMatching(columns, rows, Some(e)))
            <==> ProbeIsExact(rows, columns, FirstPrimary(columns).value, e)
  {
    var pk := FirstPrimary(columns).value;
    var text := ExtractPkEq(columns[pk].name, e).value;
    IndexLeaves(columns, rows, text);
    FilterLeaves(columns, rows, pk, e);
  }

  /** With an exact probe, UPDATE through the index writes the same rows and reports the same count. */
  lemma IndexedUpdateAgrees(columns: seq<Column>, rows: seq<Row>, asgns: seq<Assignment>, e: Expr)
    requires Probes(columns, rows, e)
    ensures UpdatedPositions(columns, rows, Some(e)) == WherePositions(rows, columns, e)
            <==> ProbeIsExact(rows, columns, FirstPrimary(columns).value, e)
    ensures ProbeIsExact(rows, columns, FirstPrimary(columns).value, e)
            ==> UpdatedRows(columns, rows, asgns, Some(e)) == UpdateMatching(columns, rows, asgns, Some(e))
  {
    var pk := FirstPrimary(columns).value;
    IndexPathAgrees(rows, columns, pk, e);
    if ProbeIsExact(rows, columns, pk, e) {
      SamePositionsSameUpdate(columns, rows, asgns, e);
    }
  }

  lemma SamePositionsSameUpdate(columns: seq<Column>, rows: seq<Row>, asgns: seq<Assignment>, e: Expr)
    requires UpdatedPositions(columns, rows, Some(e)) == WherePositions(rows, columns, e)
    ensures UpdatedRows(columns, rows, asgns, Some(e)) == UpdateMatching(columns, rows, asgns, Some(e))
  {
    var at := UpdatedPositions(columns, rows, Some(e));
    PositionsMembers(rows, (row: Row) => EvalWhere(row, columns, e));
    forall i | 0 <= i < |rows|
      ensures i in at <==> Selected(rows[i], columns, Some(e))
    {
    }
  }

  /** A scanning UPDATE that changes a stored integer breaks the store, whatever the rest of the table. */
  lemma ScanUpdateLeavesStoreBehind(columns: seq<Column>, rows: seq<Row>, asgns: seq<Assignment>,
                                    selection: Option<Expr>, i: nat, ci: nat)
    requires KeyProbe(columns, selection).None? && i < |rows| && Selected(rows[i], columns, selection)
    requires ci < |columns| && columns[ci].colType.IsInt()
    requires MirrorInt(rows[i], ci) != MirrorInt(AssignAll(rows[i], columns, asgns), ci)
    ensures !UpdateKeepsFiling(columns, rows, asgns, selection)
  {
    ScanUpdateFiling(columns, rows, asgns, selection);
    assert !SameFiling(columns, rows[i], UpdateMatching(columns, rows, asgns, selection)[i]);
  }

  /** REPLACE of one row: every row with another key, in order, then the new one. */
  lemma ReplaceKeepsOthers(v: View, names: seq<string>, src: Row)
    requires FirstPrimary(v.columns).Some? && UniqueKeys(v.columns, v.rows)
    ensures
      var pk := FirstPrimary(v.columns).value;
      var row := SourceRow(v.columns, names, src, v.nextAuto).row;
      InsertRow(v, names, true, src).rows == Filter(v.rows, (r: Row) => Key(r, pk) != Key(row, pk)) + [row]
  {
    var pk := FirstPrimary(v.columns).value;
    var k := Key(SourceRow(v.columns, names, src, v.nextAuto).row, pk);
    DroppedByKey(v.rows, pk, k, (r: Row) => Key(r, pk) != k);
  }

  // ----- The AUTO_INCREMENT counter -----

  /** One key column, integer keys only, and the counter above every one of them. */
  ghost predicate CounterAbove(v: View) {
    var pk := FirstPrimary(v.columns);
    && pk.Some? && (forall i :: 0 <= i < |v.columns| && v.columns[i].primaryKey ==> i == pk.value)
    && RightWidth(v.columns, v.rows)
    && forall i :: 0 <= i < |v.rows| ==> Cell(v.rows[i], pk).Int? && Cell(v.rows[i], pk).n < v.nextAuto
  }

  /** Under a single key column, remapping draws at most one number, and gives it to the key. */
  lemma {:induction false} RemapDraws(columns: seq<Column>, names: seq<string>, src: Row, auto: I64, pk: nat)
    requires pk < |columns| && forall i :: 0 <= i < |columns| && columns[i].primaryKey ==> i == pk
    ensures
      var s := Remap(columns, names, src, auto);
      if columns[pk].primaryKey && NameAt(names, columns[pk].name).None?
      then s.row[pk] == Int(auto) && s.auto == Wrap(auto + 1) else s.auto == auto
  {
    var front := columns[..|columns| - 1];
    if pk < |front| {
      RemapDraws(front, names, src, auto, pk);
    } else {
      RemapDrawsNothing(front, names, src, auto);
    }
  }

  lemma {:induction false} RemapDrawsNothing(columns: seq<Column>, names: seq<string>, src: Row, auto: I64)
    requires forall i :: 0 <= i < |columns| ==> !columns[i].primaryKey
    ensures Remap(columns, names, src, auto).auto == auto
  {
    if columns != [] {
      RemapDrawsNothing(columns[..|columns| - 1], names, src, auto);
    }
  }

  /** The counter after a row is above the row's key and never goes back. */
  lemma CounterPassesKey(v: View, names: seq<string>, src: Row)
    requires CounterAbove(v) && SourcesFit(v.columns, names, [src])
    requires
      var key := Cell(SourceRow(v.columns, names, src, v.nextAuto).row, FirstPrimary(v.columns));
      key.Int? && key.n < I64_MAX
    ensures
      var s := SourceRow(v.columns, names, src, v.nextAuto);
      && |s.row| == |v.columns|
      && Cell(s.row, FirstPrimary(v.columns)).n < AutoAfter(v.columns, s)
      && v.nextAuto <= AutoAfter(v.columns, s)
  {
    var pk := FirstPrimary(v.columns);
    assert [src][0] == src;
    if names != [] && v.columns != [] {
      RemapDraws(v.columns, names, src, v.nextAuto, pk.value);
    }
  }

  lemma InsertRowKeepsCounter(v: View, names: seq<string>, replace: bool, src: Row)
    requires CounterAbove(v) && SourcesFit(v.columns, names, [src])
    requires
      var key := Cell(SourceRow(v.columns, names, src, v.nextAuto).row, FirstPrimary(v.columns));
      key.Int? && key.n < I64_MAX
    ensures CounterAbove(InsertRow(v, names, replace, src))
    ensures InsertRow(v, names, replace, src).nextAuto >= v.nextAuto
  {
    var pk := FirstPrimary(v.columns);
    var s := SourceRow(v.columns, names, src, v.nextAuto);
    CounterPassesKey(v, names, src);
    DeleteKeepsCounter(v, if replace then WithoutKey(v.rows, pk.value, Key(s.row, pk.value)) else v.rows);
  }

  /** Every row of the statement has an integer key below the largest `i64`. */
  ghost predicate KeysBelowMax(columns: seq<Column>, rows: seq<Row>) {
    var pk := FirstPrimary(columns);
    forall i :: 0 <= i < |rows| ==> Cell(rows[i], pk).Int? && Cell(rows[i], pk).n < I64_MAX
  }

  lemma {:induction false} InsertKeepsCounter(v: View, names: seq<string>, replace: bool, srcs: seq<Row>)
    requires CounterAbove(v) && SourcesFit(v.columns, names, srcs)
    requires KeysBelowMax(v.columns, Drawn(v.columns, names, srcs, v.nextAuto).rows)
    ensures CounterAbove(InsertRows(v, names, replace, srcs))
    ensures InsertRows(v, names, replace, srcs).nextAuto >= v.nextAuto
  {
    if srcs != [] {
      var k := |srcs| - 1;
      var front, last := srcs[..k], srcs[k];
      var d, d' := Drawn(v.columns, names, front, v.nextAuto), Drawn(v.columns, names, srcs, v.nextAuto);
      assert d'.rows == d.rows + [SourceRow(v.columns, names, last, d.auto).row];
      assert forall i :: 0 <= i < k ==> d.rows[i] == d'.rows[i];
      InsertKeepsCounter(v, names, replace, front);
      InsertAppendsDrawn(v, names, replace, front);
      assert SourcesFit(v.columns, names, [last]);
      assert d'.rows[k] == SourceRow(v.columns, names, last, d.auto).row;
      InsertRowKeepsCounter(InsertRows(v, names, replace, front), names, replace, last);
    }
  }

  lemma AddColumnKeepsCounter(v: View, op: AlterOp)
    requires CounterAbove(v) && op.AddColumn? && AlterOne(v, op).error.None?
    ensures CounterAbove(AlterOne(v, op).view)
  {
    FirstPrimaryIs(AlterOne(v, op).view.columns, FirstPrimary(v.columns).value);
  }

  lemma DropColumnKeepsCounter(v: View, op: AlterOp)
    requires CounterAbove(v) && op.DropColumn? && AlterOne(v, op).error.None?
    ensures CounterAbove(AlterOne(v, op).view)
  {
    var v' := AlterOne(v, op).view;
    var pk := FirstPrimary(v.columns).value;
    var at := Position(v.columns, op.name).value;
    FirstPrimaryAfterDrop(v.columns, at);
    forall i | 0 <= i < |v.rows|
      ensures |v'.rows[i]| == |v'.columns| && Cell(v'.rows[i], FirstPrimary(v'.columns)) == v.rows[i][pk]
    {
      assert v'.rows[i] == Removed(v.rows[i], at);
    }
  }

  lemma AlterOneKeepsCounter(v: View, op: AlterOp)
    requires CounterAbove(v)
    ensures CounterAbove(AlterOne(v, op).view)
  {
    if AlterOne(v, op).error.None? {
      match op
      case AddColumn(_, _) => AddColumnKeepsCounter(v, op);
      case DropColumn(_) => DropColumnKeepsCounter(v, op);
      case RenameColumn(_, _) => FirstPrimaryIs(AlterOne(v, op).view.columns, FirstPrimary(v.columns).value);
      case OtherAlter =>
    }
  }

  lemma {:induction false} AlterKeepsCounter(v: View, ops: seq<AlterOp>)
    requires CounterAbove(v)
    ensures CounterAbove(AlterAll(v, ops).view)
  {
    if ops != [] {
      AlterKeepsCounter(v, ops[..|ops| - 1]);
      if AlterAll(v, ops[..|ops| - 1]).error.None? {
        AlterOneKeepsCounter(AlterAll(v, ops[..|ops| - 1]).view, ops[|ops| - 1]);
      }
    }
  }

  lemma DeleteKeepsCounter(v: View, rows: seq<Row>)
    requires CounterAbove(v) && forall row :: row in rows ==> row in v.rows
    ensures CounterAbove(v.(rows := rows))
  {
    assert forall i :: 0 <= i < |rows| ==> rows[i] in v.rows;
  }

  lemma DeletedMembers(columns: seq<Column>, rows: seq<Row>, selection: Option<Expr>)
    ensures forall row :: row in DeletedRows(columns, rows, selection) ==> row in rows
  {
    var probe := KeyProbe(columns, selection);
    if probe.Some? {
      var at := FirstWithKey(rows, FirstPrimary(columns).value, probe.value);
    } else if selection.Some? {
      FilterMembers(rows, (row: Row) => !EvalWhere(row, columns, selection.value));
    }
  }

  /** A row of the table's width with an integer key below the counter. */
  predicate IsCounted(v: View, row: Row) {
    |row| == |v.columns| && Cell(row, FirstPrimary(v.columns)).Int? && Cell(row, FirstPrimary(v.columns)).n < v.nextAuto
  }

  /** An UPDATE keeps the counter above every key exactly when each row it writes has such a key again. */
  lemma UpdateKeepsCounter(v: View, asgns: seq<Assignment>, selection: Option<Expr>)
    requires CounterAbove(v)
    ensures
      var at := UpdatedPositions(v.columns, v.rows, selection);
      CounterAbove(v.(rows := UpdatedRows(v.columns, v.rows, asgns, selection)))
      <==> forall j :: 0 <= j < |at| ==> IsCounted(v, AssignAll(v.rows[at[j]], v.columns, asgns))
  {
    var rows' := UpdatedRows(v.columns, v.rows, asgns, selection);
    var at := UpdatedPositions(v.columns, v.rows, selection);
    if CounterAbove(v.(rows := rows')) {
      forall j | 0 <= j < |at|
        ensures IsCounted(v, AssignAll(v.rows[at[j]], v.columns, asgns))
      {
        assert rows'[at[j]] == AssignAll(v.rows[at[j]], v.columns, asgns);
      }
    }
  }

  /** Assignments to other columns leave the key cell alone. */
  lemma {:induction false} OtherColumnsKeepKey(row: Row, columns: seq<Column>, asgns: seq<Assignment>, pk: nat)
    requires forall i :: 0 <= i < |asgns| ==> Position(columns, asgns[i].target) != Some(pk)
    ensures Cell(AssignAll(row, columns, asgns), Some(pk)) == Cell(row, Some(pk))
  {
    if asgns != [] {
      OtherColumnsKeepKey(row, columns, asgns[..|asgns| - 1], pk);
    }
  }

  /** So does every UPDATE of other columns, on either path, whatever it stores there. */
  lemma OtherUpdateKeepsCounter(v: View, asgns: seq<Assignment>, selection: Option<Expr>)
    requires CounterAbove(v)
    requires forall i :: 0 <= i < |asgns| ==> Position(v.columns, asgns[i].target) != FirstPrimary(v.columns)
    ensures CountsSafely(v, UpdateWhere(asgns, selection))
    ensures CounterAbove(v.(rows := UpdatedRows(v.columns, v.rows, asgns, selection)))
  {
    var at := UpdatedPositions(v.columns, v.rows, selection);
    forall j | 0 <= j < |at|
      ensures IsCounted(v, AssignAll(v.rows[at[j]], v.columns, asgns))
    {
      OtherColumnsKeepKey(v.rows[at[j]], v.columns, asgns, FirstPrimary(v.columns).value);
    }
    UpdateKeepsCounter(v, asgns, selection);
  }

  /** A prepared INSERT, which leaves the counter where it is, keeps it above every key exactly when the bound keys
      are below it already. */
  lemma PreparedInsertKeepsCounter(v: View, lits: seq<seq<Literal>>, bound: seq<Value>)
    requires CounterAbove(v)
    ensures CounterAbove(Step(v, InsertBound(lits, bound)))
            <==> forall i :: 0 <= i < |lits| ==> IsCounted(v, BoundRows(lits, bound)[i])
  {
    var rows, added := Step(v, InsertBound(lits, bound)).rows, BoundRows(lits, bound);
    assert forall i :: 0 <= i < |added| ==> rows[|v.rows| + i] == added[i];
  }

  /** What the rows written must be like. Of duplicate keys and of the column stores nothing is asked. */
  ghost predicate CountsSafely(v: View, st: Statement) {
    match st
    case InsertInto(srcs, _, names) =>
      SourcesFit(v.columns, names, srcs) && KeysBelowMax(v.columns, Drawn(v.columns, names, srcs, v.nextAuto).rows)
    case InsertBound(lits, bound) =>
      forall i :: 0 <= i < |lits| ==> IsCounted(v, BoundRows(lits, bound)[i])
    case UpdateWhere(asgns, selection) =>
      var at := UpdatedPositions(v.columns, v.rows, selection);
      forall j :: 0 <= j < |at| ==> IsCounted(v, AssignAll(v.rows[at[j]], v.columns, asgns))
    case _ => true
  }

  lemma StepKeepsCounter(v: View, st: Statement)
    requires CounterAbove(v) && CountsSafely(v, st)
    ensures CounterAbove(Step(v, st))
  {
    match st
    case InsertInto(srcs, replace, names) => InsertKeepsCounter(v, names, replace, srcs);
    case UpdateWhere(asgns, selection) => UpdateKeepsCounter(v, asgns, selection);
    case DeleteWhere(selection) =>
      DeletedMembers(v.columns, v.rows, selection);
      DeleteKeepsCounter(v, Step(v, st).rows);
    case DeleteBound(selection, bound) =>
      if selection.Some? {
        FilterMembers(v.rows, (row: Row) => !EvalWhereBound(row, v.columns, selection.value, bound));
      }
      DeleteKeepsCounter(v, Step(v, st).rows);
    case TruncateTable => DeleteKeepsCounter(v, []);
    case AlterTable(ops) => AlterKeepsCounter(v, ops);
    case InsertBound(lits, bound) => PreparedInsertKeepsCounter(v, lits, bound);
  }

  ghost predicate CountsThroughout(v: View, sts: seq<Statement>) {
    sts != [] ==>
      CountsThroughout(v, sts[..|sts| - 1]) && CountsSafely(Run(v, sts[..|sts| - 1]), sts[|sts| - 1])
  }

  /** Over any run of such statements the counter stays strictly above every key. */
  lemma {:induction false} RunKeepsCounter(v: View, sts: seq<Statement>)
    requires CounterAbove(v) && CountsThroughout(v, sts)
    ensures CounterAbove(Run(v, sts))
  {
    if sts != [] {
      RunKeepsCounter(v, sts[..|sts| - 1]);
      StepKeepsCounter(Run(v, sts[..|sts| - 1]), sts[|sts| - 1]);
    }
  }

  /** As `CountsSafely`, for every row an UPDATE could be led to. */
  ghost predicate CountsAnyway(v: View, st: Statement) {
    if st.UpdateWhere? then forall i :: 0 <= i < |v.rows| ==> IsCounted(v, AssignAll(v.rows[i], v.columns, st.asgns))
    else CountsSafely(v, st)
  }

  lemma {:induction false} DrawnAreCounted(v: View, names: seq<string>, srcs: seq<Row>)
    requires CounterAbove(v) && SourcesFit(v.columns, names, srcs)
    requires KeysBelowMax(v.columns, Drawn(v.columns, names, srcs, v.nextAuto).rows)
    ensures
      var d := Drawn(v.columns, names, srcs, v.nextAuto);
      v.nextAuto <= d.auto && forall row :: row in d.rows ==> IsCounted(v.(nextAuto := d.auto), row)
  {
    InsertAppendsDrawn(v, names, false, srcs);
    InsertKeepsCounter(v, names, false, srcs);
    var v', d := InsertRows(v, names, false, srcs), Drawn(v.columns, names, srcs, v.nextAuto);
    forall row | row in d.rows
      ensures IsCounted(v.(nextAuto := d.auto), row)
    {
      var i :| 0 <= i < |d.rows| && d.rows[i] == row;
      assert v'.rows[|v.rows| + i] == row;
    }
  }

  lemma AnyRowsCounted(v: View, v': View)
    requires CounterAbove(v) && v'.columns == v.columns && forall row :: row in v'.rows ==> IsCounted(v', row)
    ensures CounterAbove(v')
  {
    assert forall i :: 0 <= i < |v'.rows| ==> v'.rows[i] in v'.rows;
  }

  lemma AnyStepKeepsCounter(v: View, st: Statement, v': View)
    requires CounterAbove(v) && CountsAnyway(v, st) && MayBecome(v, st, v')
    ensures CounterAbove(v')
  {
    assert forall row :: row in v.rows ==> IsCounted(v, row);
    match st
    case InsertInto(srcs, _, names) => DrawnAreCounted(v, names, srcs); AnyRowsCounted(v, v');
    case UpdateWhere(asgns, _) => AnyRowsCounted(v, v');
    case InsertBound(_, _) => StepKeepsCounter(v, st);
    case AlterTable(_) => StepKeepsCounter(v, st);
    case _ => AnyRowsCounted(v, v');
  }

  /** Whatever rows the index leads to on the way, the counter stays strictly above every key. */
  lemma {:induction false} AnyRunKeepsCounter(vs: seq<View>, sts: seq<Statement>)
    requires |vs| == |sts| + 1 && CounterAbove(vs[0])
    requires forall i :: 0 <= i < |sts| ==> CountsAnyway(vs[i], sts[i]) && MayBecome(vs[i], sts[i], vs[i + 1])
    ensures CounterAbove(vs[|sts|])
  {
    if sts != [] {
      var k := |sts| - 1;
      AnyRunKeepsCounter(vs[..k + 1], sts[..k]);
      AnyStepKeepsCounter(vs[k], sts[k], vs[k + 1]);
    }
  }

  lemma {:induction false} InsertMay(v: View, names: seq<string>, replace: bool, srcs: seq<Row>)
    ensures
      var d := Drawn(v.columns, names, srcs, v.nextAuto);
      forall row :: row in InsertRows(v, names, replace, srcs).rows ==> row in v.rows || row in d.rows
  {
    if srcs != [] {
      var k := |srcs| - 1;
      var before := InsertRows(v, names, replace, srcs[..k]);
      InsertMay(v, names, replace, srcs[..k]);
      InsertAppendsDrawn(v, names, replace, srcs[..k]);
      var s := SourceRow(v.columns, names, srcs[k], before.nextAuto);
      var pk := FirstPrimary(v.columns);
    }
  }

  /** In particular it may do what it should. */
  lemma StepMay(v: View, st: Statement)
    ensures MayBecome(v, st, Step(v, st))
  {
    match st
    case InsertInto(srcs, replace, names) =>
      InsertAppendsDrawn(v, names, replace, srcs);
      InsertMay(v, names, replace, srcs);
    case DeleteWhere(selection) => DeletedMembers(v.columns, v.rows, selection);
    case DeleteBound(selection, bound) =>
      if selection.Some? {
        FilterMembers(v.rows, (row: Row) => !EvalWhereBound(row, v.columns, selection.value, bound));
      }
    case _ =>
  }

  /** An INSERT that leaves the key out numbers its rows past every key there is, so it never collides. */
  lemma {:induction false} OmittedKeysAreFresh(v: View, names: seq<string>, srcs: seq<Row>)
    requires CounterAbove(v) && UniqueKeys(v.columns, v.rows)
    requires names != [] && NameAt(names, v.columns[FirstPrimary(v.columns).value].name).None?
    requires v.nextAuto + |srcs| <= I64_MAX
    ensures
      var v' := InsertRows(v, names, false, srcs);
      CounterAbove(v') && v'.nextAuto == v.nextAuto + |srcs| && UniqueKeys(v.columns, v'.rows)
  {
    if srcs != [] {
      var front, last := srcs[..|srcs| - 1], srcs[|srcs| - 1];
      OmittedKeysAreFresh(v, names, front);
      var before := InsertRows(v, names, false, front);
      var pk := FirstPrimary(v.columns).value;
      RemapDraws(v.columns, names, last, before.nextAuto, pk);
      InsertRowKeepsCounter(before, names, false, last);
      forall i | 0 <= i < |before.rows|
        ensures Key(before.rows[i], pk) != IntText(before.nextAuto)
      {
        IntTextInjective(before.rows[i][pk].n, before.nextAuto);
      }
    }
  }

  /** A prepared INSERT leaves the counter behind, and the next numbered row collides with it. */
  lemma PreparedInsertLeavesCounterBehind()
    ensures
      var v := View([Column("id", IntType, false, true), Column("x", IntType, true, false)], [], 1);
      var v' := Run(v, [InsertBound([[Placeholder, Placeholder]], [Int(1), Int(5)]),
                        InsertInto([[Int(6)]], false, ["x"])]);
      v'.rows == [[Int(1), Int(5)], [Int(1), Int(6)]] && !UniqueKeys(v'.columns, v'.rows)
  {
    var id, x := Column("id", IntType, false, true), Column("x", IntType, true, false);
    var v := View([id, x], [], 1);
    var first := InsertBound([[Placeholder, Placeholder]], [Int(1), Int(5)]);
    var second := InsertInto([[Int(6)]], false, ["x"]);
    var v1 := Step(v, first);
    assert BoundRow([Placeholder, Placeholder], [Int(1), Int(5)], 0) == [Int(1), Int(5)];
    assert v1.rows == [[Int(1), Int(5)]];
    assert [id, x][..1] == [id] && [id][..0] == [];
    assert Lower("id")[0] != Lower("x")[0] && |Lower("id")| == 2 && |Lower("x")| == 1;
    assert ["x"][..0] == [];
    assert NameAt(["x"], "id") == None && NameAt(["x"], "x") == Some(0);
    assert Remap([id], ["x"], [Int(6)], 1) == Sourced([Int(1)], 2);
    assert Remap([id, x], ["x"], [Int(6)], 1) == Sourced([Int(1), Int(6)], 2);
    var v2 := Step(v1, second);
    assert InsertRows(v1, ["x"], false, second.srcs[..0]) == v1;
    assert v2 == InsertRow(v1, ["x"], false, [Int(6)]);
    assert v2.rows == [[Int(1), Int(5)], [Int(1), Int(6)]];
    assert [first, second][..1] == [first] && [first][..0] == [];
    assert Run(v, []) == v && Run(v, [first]) == v1;
    assert Run(v, [first, second]) == v2;
    FirstPrimaryIs(v.columns, 0);
    assert Key(v2.rows[0], 0) == Key(v2.rows[1], 0);
  }
}
