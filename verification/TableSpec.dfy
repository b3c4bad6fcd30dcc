/** What each statement does to the rows of a table, with no index and no column store in sight. */
module TableSpec {
  import opened Numbers
  import opened Sql
  import opened Seqs
  import opened AccessPaths

  /** The part of a table that its statements are about. */
  datatype View = View(columns: seq<Column>, rows: seq<Row>, nextAuto: I64)

  function FirstPrimary(columns: seq<Column>): (r: Option<nat>)
    ensures r.Some? ==> r.value < |columns| && columns[r.value].primaryKey
    ensures r.Some? ==> forall i :: 0 <= i < r.value ==> !columns[i].primaryKey
    ensures r.None? ==> forall i :: 0 <= i < |columns| ==> !columns[i].primaryKey
  {
    FirstPrimaryFrom(columns, 0)
  }

  function FirstPrimaryFrom(columns: seq<Column>, from: nat): (r: Option<nat>)
    requires from <= |columns|
    ensures r.Some? ==> from <= r.value < |columns| && columns[r.value].primaryKey
    ensures r.Some? ==> forall i :: from <= i < r.value ==> !columns[i].primaryKey
    ensures r.None? ==> forall i :: from <= i < |columns| ==> !columns[i].primaryKey
    decreases |columns| - from
  {
    if from == |columns| then None
    else if columns[from].primaryKey then Some(from)
    else FirstPrimaryFrom(columns, from + 1)
  }

  lemma FirstPrimaryIs(columns: seq<Column>, at: nat)
    requires at < |columns| && columns[at].primaryKey
    requires forall i :: 0 <= i < at ==> !columns[i].primaryKey
    ensures FirstPrimary(columns) == Some(at)
  {
  }

  ghost predicate RightWidth(columns: seq<Column>, rows: seq<Row>) {
    forall i :: 0 <= i < |rows| ==> |rows[i]| == |columns|
  }

  ghost predicate UniqueKeys(columns: seq<Column>, rows: seq<Row>) {
    FirstPrimary(columns).Some? ==> DistinctKeys(rows, FirstPrimary(columns).value)
  }

  // ----- INSERT and REPLACE -----

  function NameAt(names: seq<string>, name: string): (r: Option<nat>)
    ensures r.Some? ==> r.value < |names| && SameName(names[r.value], name)
    ensures r.None? ==> forall i :: 0 <= i < |names| ==> !SameName(names[i], name)
  {
    if names == [] then None
    else
      var before := NameAt(names[..|names| - 1], name);
      if before.Some? then before
      else if SameName(names[|names| - 1], name) then Some(|names| - 1)
      else None
  }

  datatype Sourced = Sourced(row: Row, auto: I64)

  /** A row given by column names: missing keys are numbered, other missing columns are NULL. */
  function Remap(columns: seq<Column>, names: seq<string>, src: Row, auto: I64): (r: Sourced)
    ensures |r.row| == |columns|
  {
    if columns == [] then Sourced([], auto)
    else
      var before := Remap(columns[..|columns| - 1], names, src, auto);
      var column := columns[|columns| - 1];
      match NameAt(names, column.name)
      case Some(si) => Sourced(before.row + [Cell(src, Some(si))], before.auto)
      case None =>
        if column.primaryKey then Sourced(before.row + [Int(before.auto)], Wrap(before.auto + 1))
        else Sourced(before.row + [Null], before.auto)
  }

  function SourceRow(columns: seq<Column>, names: seq<string>, src: Row, auto: I64): Sourced {
    if names == [] || columns == [] then Sourced(src, auto) else Remap(columns, names, src, auto)
  }

  /** The counter after a row is stored: one past its key when that is not below the counter. */
  function AutoAfter(columns: seq<Column>, s: Sourced): I64 {
    var pk := FirstPrimary(columns);
    if pk.Some? && Cell(s.row, pk).Int? && Cell(s.row, pk).n >= s.auto then Wrap(Cell(s.row, pk).n + 1) else s.auto
  }

  function WithoutKey(rows: seq<Row>, pk: nat, k: string): (r: seq<Row>) {
    var at := FirstWithKey(rows, pk, k);
    if at.Some? then Removed(rows, at.value) else rows
  }

  function InsertRow(v: View, names: seq<string>, replace: bool, src: Row): View {
    var s := SourceRow(v.columns, names, src, v.nextAuto);
    var pk := FirstPrimary(v.columns);
    var kept := if replace && pk.Some? then WithoutKey(v.rows, pk.value, Key(s.row, pk.value)) else v.rows;
    View(v.columns, kept + [s.row], AutoAfter(v.columns, s))
  }

  function InsertRows(v: View, names: seq<string>, replace: bool, srcs: seq<Row>): (r: View)
    ensures r.columns == v.columns
  {
    if srcs == [] then v
    else InsertRow(InsertRows(v, names, replace, srcs[..|srcs| - 1]), names, replace, srcs[|srcs| - 1])
  }

  datatype Drawing = Drawing(rows: seq<Row>, auto: I64)

  /** The rows the sources of an INSERT denote, each numbered by the counter it finds, and the counter after them. */
  function Drawn(columns: seq<Column>, names: seq<string>, srcs: seq<Row>, auto: I64): (d: Drawing)
    ensures |d.rows| == |srcs|
  {
    if srcs == [] then Drawing([], auto)
    else
      var before := Drawn(columns, names, srcs[..|srcs| - 1], auto);
      var s := SourceRow(columns, names, srcs[|srcs| - 1], before.auto);
      Drawing(before.rows + [s.row], AutoAfter(columns, s))
  }

  /** INSERT appends the rows its sources denote; REPLACE moves the counter in the same way. */
  lemma {:induction false} InsertAppendsDrawn(v: View, names: seq<string>, replace: bool, srcs: seq<Row>)
    ensures
      var d := Drawn(v.columns, names, srcs, v.nextAuto);
      && InsertRows(v, names, replace, srcs).nextAuto == d.auto
      && (!replace ==> InsertRows(v, names, replace, srcs).rows == v.rows + d.rows)
  {
    if srcs != [] {
      InsertAppendsDrawn(v, names, replace, srcs[..|srcs| - 1]);
    }
  }

  /** What INSERT and REPLACE may leave behind when the index leads to the wrong rows: the counter moves as it should
      and every row is an old one or one of the new. */
  ghost predicate MayInsert(v: View, names: seq<string>, srcs: seq<Row>, v': View) {
    var d := Drawn(v.columns, names, srcs, v.nextAuto);
    v' == View(v.columns, v'.rows, d.auto) && forall row :: row in v'.rows ==> row in v.rows || row in d.rows
  }

  lemma MayInsertOneMore(v: View, names: seq<string>, srcs: seq<Row>, i: nat, mid: View, v': View)
    requires i < |srcs| && MayInsert(v, names, srcs[..i], mid) && v'.columns == v.columns
    requires
      var s := SourceRow(v.columns, names, srcs[i], mid.nextAuto);
      v'.nextAuto == AutoAfter(v.columns, s) && forall row :: row in v'.rows ==> row in mid.rows || row == s.row
    ensures MayInsert(v, names, srcs[..i + 1], v')
  {
    assert srcs[..i + 1][..i] == srcs[..i];
  }

  /** New keys that are pairwise distinct and none of them in the table yet. */
  ghost predicate FreshKeys(columns: seq<Column>, rows: seq<Row>, added: seq<Row>) {
    var pk := FirstPrimary(columns);
    pk.Some? ==>
      DistinctKeys(added, pk.value) &&
      forall i, j :: 0 <= i < |rows| && 0 <= j < |added| ==> Key(rows[i], pk.value) != Key(added[j], pk.value)
  }

  lemma FreshKeysExactly(columns: seq<Column>, rows: seq<Row>, added: seq<Row>)
    requires UniqueKeys(columns, rows)
    ensures UniqueKeys(columns, rows + added) <==> FreshKeys(columns, rows, added)
  {
    if FirstPrimary(columns).Some? {
      var all, pk, n := rows + added, FirstPrimary(columns).value, |rows|;
      if UniqueKeys(columns, all) {
        assert forall j :: 0 <= j < |added| ==> all[n + j] == added[j];
        forall i, j | 0 <= i < j < |added|
          ensures Key(added[i], pk) != Key(added[j], pk)
        {
          assert Key(all[n + i], pk) != Key(all[n + j], pk);
        }
        forall i, j | 0 <= i < n && 0 <= j < |added|
          ensures Key(rows[i], pk) != Key(added[j], pk)
        {
          assert all[i] == rows[i] && Key(all[i], pk) != Key(all[n + j], pk);
        }
      }
    }
  }

  /** VALUES rows without a column list are stored as they are, so they must have the table's width. */
  ghost predicate SourcesFit(columns: seq<Column>, names: seq<string>, srcs: seq<Row>) {
    names == [] || columns == [] ==> RightWidth(columns, srcs)
  }

  lemma WidthOfBoth(columns: seq<Column>, rows: seq<Row>, added: seq<Row>)
    ensures RightWidth(columns, rows + added) <==> RightWidth(columns, rows) && RightWidth(columns, added)
  {
    assert forall i :: 0 <= i < |rows| ==> (rows + added)[i] == rows[i];
    assert forall i :: 0 <= i < |added| ==> (rows + added)[|rows| + i] == added[i];
  }

  lemma {:induction false} DrawnFit(columns: seq<Column>, names: seq<string>, srcs: seq<Row>, auto: I64)
    ensures RightWidth(columns, Drawn(columns, names, srcs, auto).rows) <==> SourcesFit(columns, names, srcs)
  {
    if srcs != [] {
      var front, last := srcs[..|srcs| - 1], srcs[|srcs| - 1];
      DrawnFit(columns, names, front, auto);
      var before := Drawn(columns, names, front, auto);
      var row := SourceRow(columns, names, last, before.auto).row;
      WidthOfBoth(columns, before.rows, [row]);
      WidthOfBoth(columns, front, [last]);
      assert srcs == front + [last];
      assert [row][0] == row && [last][0] == last;
    }
  }

  // ----- Prepared INSERT -----

  function Placeholders(lits: seq<Literal>): nat {
    if lits == [] then 0
    else Placeholders(lits[..|lits| - 1]) + (if lits[|lits| - 1] == Placeholder then 1 else 0)
  }

  function PlaceholdersIn(rows: seq<seq<Literal>>): nat {
    if rows == [] then 0 else PlaceholdersIn(rows[..|rows| - 1]) + Placeholders(rows[|rows| - 1])
  }

  /** The row a VALUES list denotes when its first placeholder reads parameter `param`. */
  function BoundRow(lits: seq<Literal>, bound: seq<Value>, param: nat): (r: Row)
    ensures |r| == |lits|
  {
    seq(|lits|, j requires 0 <= j < |lits| =>
      if lits[j] == Placeholder then BoundAt(bound, param + Placeholders(lits[..j])) else LiteralValue(lits[j]))
  }

  /** Parameters are consumed left to right across all the rows of the statement. */
  function BoundRows(rows: seq<seq<Literal>>, bound: seq<Value>): (r: seq<Row>)
    ensures |r| == |rows|
  {
    seq(|rows|, i requires 0 <= i < |rows| => BoundRow(rows[i], bound, PlaceholdersIn(rows[..i])))
  }

  // ----- DELETE -----

  /** The key text of a statement that takes the index path. */
  function KeyProbe(columns: seq<Column>, selection: Option<Expr>): Option<string> {
    var pk := FirstPrimary(columns);
    if pk.Some? && selection.Some? then ExtractPkEq(columns[pk.value].name, selection.value) else None
  }

  /** The rows left by a filtering DELETE; with no filter, none. */
  function RowsNotMatching(columns: seq<Column>, rows: seq<Row>, selection: Option<Expr>): seq<Row> {
    if selection.None? then [] else Filter(rows, (row: Row) => !EvalWhere(row, columns, selection.value))
  }

  function RowsWithoutKey(columns: seq<Column>, rows: seq<Row>, k: string): seq<Row> {
    var pk := FirstPrimary(columns);
    if pk.None? then rows
    else
      var at := FirstWithKey(rows, pk.value, k);
      if at.Some? then SwapRemoved(rows, at.value) else rows
  }

  function DeletedRows(columns: seq<Column>, rows: seq<Row>, selection: Option<Expr>): seq<Row> {
    var probe := KeyProbe(columns, selection);
    if probe.Some? then RowsWithoutKey(columns, rows, probe.value) else RowsNotMatching(columns, rows, selection)
  }

  // ----- UPDATE -----

  datatype Assignment = Assignment(target: string, value: Expr)

  /** One assignment, evaluated on the row as the assignments before it left it. */
  function Assign(row: Row, columns: seq<Column>, a: Assignment): (r: Row)
    ensures |r| == |row|
  {
    var at := Position(columns, a.target);
    if at.Some? && at.value < |row| then row[at.value := EvalRowExpr(row, columns, a.value)] else row
  }

  function AssignAll(row: Row, columns: seq<Column>, asgns: seq<Assignment>): (r: Row)
    ensures |r| == |row|
  {
    if asgns == [] then row
    else Assign(AssignAll(row, columns, asgns[..|asgns| - 1]), columns, asgns[|asgns| - 1])
  }

  predicate Selected(row: Row, columns: seq<Column>, selection: Option<Expr>) {
    selection.None? || EvalWhere(row, columns, selection.value)
  }

  function UpdateMatching(columns: seq<Column>, rows: seq<Row>, asgns: seq<Assignment>,
                          selection: Option<Expr>): (r: seq<Row>)
    ensures |r| == |rows|
  {
    seq(|rows|, i requires 0 <= i < |rows| =>
      if Selected(rows[i], columns, selection) then AssignAll(rows[i], columns, asgns) else rows[i])
  }

  /** The positions an UPDATE writes to. */
  function UpdatedPositions(columns: seq<Column>, rows: seq<Row>, selection: Option<Expr>): (r: seq<nat>)
    ensures forall i :: 0 <= i < |r| ==> r[i] < |rows|
  {
    var probe := KeyProbe(columns, selection);
    if probe.Some? then KeyPositions(rows, FirstPrimary(columns).value, probe.value)
    else Positions(rows, (row: Row) => Selected(row, columns, selection))
  }

  function UpdatedRows(columns: seq<Column>, rows: seq<Row>, asgns: seq<Assignment>,
                       selection: Option<Expr>): (r: seq<Row>)
    ensures |r| == |rows|
  {
    var at := UpdatedPositions(columns, rows, selection);
    seq(|rows|, i requires 0 <= i < |rows| => if i in at then AssignAll(rows[i], columns, asgns) else rows[i])
  }

  /** What UPDATE may do when the index leads to the wrong row: each row is left alone or rewritten. */
  ghost predicate MayUpdate(v: View, asgns: seq<Assignment>, v': View) {
    && v' == v.(rows := v'.rows) && |v'.rows| == |v.rows|
    && forall i :: 0 <= i < |v.rows| ==> v'.rows[i] in [v.rows[i], AssignAll(v.rows[i], v.columns, asgns)]
  }

  // ----- ALTER TABLE -----

  datatype AlterOp = AddColumn(name: string, colType: ColumnType) | DropColumn(name: string)
      | RenameColumn(from: string, to: string) | OtherAlter

  /** The new view, or the error code with which the statement stops. */
  datatype Altered = Altered(view: View, error: Option<nat>)

  function AlterOne(v: View, op: AlterOp): Altered {
    match op
    case AddColumn(name, colType) =>
      if Position(v.columns, name).Some? then Altered(v, Some(1060))
      else
        Altered(View(v.columns + [Column(name, colType, true, false)],
                     seq(|v.rows|, i requires 0 <= i < |v.rows| => v.rows[i] + [Null]), v.nextAuto), None)
    case DropColumn(name) =>
      var at := Position(v.columns, name);
      if at.None? then Altered(v, Some(1091))
      else if v.columns[at.value].primaryKey then Altered(v, Some(1075))
      else
        Altered(View(Removed(v.columns, at.value),
                     seq(|v.rows|, i requires 0 <= i < |v.rows| =>
                       if at.value < |v.rows[i]| then Removed(v.rows[i], at.value) else v.rows[i]), v.nextAuto), None)
    case RenameColumn(from, to) =>
      var at := Position(v.columns, from);
      if at.None? then Altered(v, Some(1054))
      else Altered(v.(columns := v.columns[at.value := v.columns[at.value].(name := to)]), None)
    case OtherAlter => Altered(v, None)
  }

  /** Operations before a failing one stay in effect. */
  function AlterAll(v: View, ops: seq<AlterOp>): Altered {
    if ops == [] then Altered(v, None)
    else
      var before := AlterAll(v, ops[..|ops| - 1]);
      if before.error.Some? then before else AlterOne(before.view, ops[|ops| - 1])
  }

  /** How many operations of an ALTER TABLE are done before one fails. */
  function DoneOps(v: View, ops: seq<AlterOp>): (k: nat)
    ensures k <= |ops|
  {
    if ops == [] then 0
    else
      var front, last := ops[..|ops| - 1], ops[|ops| - 1];
      var k := DoneOps(v, front);
      if k < |front| || AlterOne(AlterAll(v, front).view, last).error.Some? then k else k + 1
  }

  /** An ALTER fails, having changed the table unseen, exactly when one of its operations fails after others that
      changed it. */
  lemma {:induction false} AlterStopsMidway(v: View, ops: seq<AlterOp>)
    ensures
      var out := AlterAll(v, ops);
      var k := DoneOps(v, ops);
      && (out.error.Some? <==> k < |ops|)
      && out.view == AlterAll(v, ops[..k]).view && AlterAll(v, ops[..k]).error.None?
      && (out.error.Some? && out.view != v <==> k < |ops| && AlterAll(v, ops[..k]).view != v)
  {
    if ops != [] {
      var n := |ops| - 1;
      var k := DoneOps(v, ops);
      AlterStopsMidway(v, ops[..n]);
      if k <= n {
        assert ops[..n][..k] == ops[..k];
      } else {
        assert ops[..k] == ops;
      }
    }
  }
}
