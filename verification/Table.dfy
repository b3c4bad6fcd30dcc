/** A table as the engine keeps it: rows, a key index and a store for each integer or text column. */
module Tables {
  import opened Numbers
  import opened Sql
  import opened Seqs
  import opened AccessPaths
  import opened TableSpec
  import opened Stores

  class Table {
    var columns: seq<Column>
    var rows: seq<Row>
    var pkColIdx: Option<nat>
    var pkIndex: map<string, nat>
    var colInt: seq<Option<seq<I64>>>
    var colText: seq<Option<seq<string>>>
    var nextAuto: I64

    ghost function State(): View
      reads this
    {
      View(columns, rows, nextAuto)
    }

    /** What every statement keeps, in step or not: the key column is known and each stored column has its store. */
    ghost predicate Shaped()
      reads this
    {
      && pkColIdx == FirstPrimary(columns) && HasShape(columns, colInt, colText)
      && (pkColIdx.None? ==> pkIndex == map[])
    }

    /** Stores mirror the rows, and each key text leads to the last row that has it. */
    ghost predicate InStep()
      reads this
    {
      Represents(columns, rows, pkColIdx, pkIndex, colInt, colText)
    }

    /** The index is the exact inverse of "position to key" and every store is a projection of the rows. */
    ghost predicate Valid()
      reads this
      ensures Valid() && pkColIdx.Some? ==> IsInverse(pkIndex, rows, pkColIdx.value)
    {
      assert RepresentsExactly(columns, rows, pkColIdx, pkIndex, colInt, colText) && pkColIdx.Some?
             ==> IsInverse(pkIndex, rows, pkColIdx.value) by {
      }
      RepresentsExactly(columns, rows, pkColIdx, pkIndex, colInt, colText)
    }

    /** CREATE TABLE. */
    constructor (cols: seq<Column>)
      ensures Shaped() && Valid() && State() == View(cols, [], 1)
    {
      columns, rows, nextAuto := cols, [], 1;
      pkColIdx, pkIndex := FirstPrimary(cols), map[];
      colInt := seq(|cols|, ci requires 0 <= ci < |cols| => if cols[ci].colType.IsInt() then Some([]) else None);
      colText := seq(|cols|, ci requires 0 <= ci < |cols| => if cols[ci].colType.IsText() then Some([]) else None);
    }

    /** CREATE TABLE AS SELECT: the rows are there, the index and the stores stay empty. */
    constructor AsSelect(cols: seq<Column>, selected: seq<Row>)
      ensures Shaped() && State() == View(cols, selected, 1)
      ensures Valid() <==> selected == [] || (RightWidth(cols, selected) && forall ci :: 0 <= ci < |cols| ==>
        !cols[ci].primaryKey && !cols[ci].colType.IsInt() && !cols[ci].colType.IsText())
    {
      columns, rows, nextAuto := cols, selected, 1;
      pkColIdx, pkIndex := FirstPrimary(cols), map[];
      colInt := seq(|cols|, ci requires 0 <= ci < |cols| => if cols[ci].colType.IsInt() then Some([]) else None);
      colText := seq(|cols|, ci requires 0 <= ci < |cols| => if cols[ci].colType.IsText() then Some([]) else None);
      new;
      if selected != [] {
        if pkColIdx.Some? {
          assert Key(selected[0], pkColIdx.value) !in pkIndex;
        }
        forall ci | 0 <= ci < |cols| && (cols[ci].colType.IsInt() || cols[ci].colType.IsText())
          ensures !InStep()
        {
          assert colInt[ci].Some? ==> !MirrorsInt(colInt[ci].value, rows, ci);
          assert colText[ci].Some? ==> !MirrorsText(colText[ci].value, rows, ci);
        }
      }
    }

    // ----- INSERT -----

    method AppendRow(row: Row)
      requires Shaped()
      modifies this
      ensures Shaped() && rows == old(rows) + [row] && columns == old(columns) && nextAuto == old(nextAuto)
      ensures old(InStep()) ==> InStep()
    {
      if pkColIdx.Some? {
        if InStep() {
          IndexPush(pkIndex, rows, row, pkColIdx.value);
        }
        pkIndex := pkIndex[Key(row, pkColIdx.value) := |rows|];
      }
      colInt := PushCells(colInt, IntCells(row, |colInt|));
      colText := PushCells(colText, TextCells(row, |colText|));
      rows := rows + [row];
    }

    /** REPLACE: drop the row the key leads to, close the gap and file every row again. */
    method RemoveKeyed(k: string)
      requires Shaped() && pkColIdx.Some?
      modifies this
      ensures Shaped() && columns == old(columns) && nextAuto == old(nextAuto)
      ensures forall row :: row in rows ==> row in old(rows)
      ensures old(InStep() && UniqueKeys(columns, rows)) ==>
        InStep() && rows == WithoutKey(old(rows), pkColIdx.value, k)
    {
      if k in pkIndex && pkIndex[k] < |rows| {
        var at := pkIndex[k];
        ghost var before, index, ints, texts := rows, pkIndex, colInt, colText;
        ghost var exact := InStep() && UniqueKeys(columns, rows);
        rows := rows[..at] + rows[at + 1..];
        colInt := RemoveCells(colInt, at);
        colText := RemoveCells(colText, at);
        pkIndex := BuildIndex(rows, pkColIdx.value);
        if exact {
          RemoveKeepsRepresentation(columns, before, pkColIdx, index, ints, texts, k, pkIndex, colInt, colText);
        }
      }
    }

    /** One source row. Unless an index that is out of step leads REPLACE astray, the rows end up as they should. */
    method InsertOne(src: Row, replace: bool, names: seq<string>)
      requires Shaped()
      modifies this
      ensures Shaped() && columns == old(columns)
      ensures
        var s := SourceRow(columns, names, src, old(nextAuto));
        nextAuto == AutoAfter(columns, s) && forall row :: row in rows ==> row in old(rows) || row == s.row
      ensures old(InStep() && (replace ==> UniqueKeys(columns, rows))) ==>
        && InStep() && State() == InsertRow(old(State()), names, replace, src)
        && (replace ==> UniqueKeys(columns, rows))
        && (SourcesFit(columns, names, [src]) && old(RightWidth(columns, rows)) ==> RightWidth(columns, rows))
    {
      ghost var v := State();
      var s := SourceRow(columns, names, src, nextAuto);
      nextAuto := s.auto;
      if replace && pkColIdx.Some? {
        RemoveKeyed(Key(s.row, pkColIdx.value));
      }
      AppendRow(s.row);
      if pkColIdx.Some? {
        var key := Cell(s.row, pkColIdx);
        if key.Int? && key.n >= nextAuto { nextAuto := Wrap(key.n + 1); }
      }
      InsertKeepsWidthAndKeys(v, names, replace, src);
    }

    /** INSERT and REPLACE. A plain INSERT keeps the table valid exactly when its rows fit and their keys are fresh. */
    method Insert(srcs: seq<Row>, replace: bool, names: seq<string>) returns (count: nat)
      requires Shaped()
      modifies this
      ensures Shaped() && MayInsert(old(State()), names, srcs, State())
      ensures old(Valid()) ==> State() == InsertRows(old(State()), names, replace, srcs)
      ensures old(Valid()) && !replace ==>
        (Valid() <==> SourcesFit(columns, names, srcs)
                      && FreshKeys(columns, old(rows), Drawn(columns, names, srcs, old(nextAuto)).rows))
      ensures old(Valid()) && SourcesFit(columns, names, srcs) && replace ==> Valid()
      ensures count == |srcs|
    {
      count := |srcs|;
      for i := 0 to |srcs|
        invariant Shaped() && MayInsert(old(State()), names, srcs[..i], State())
        invariant old(Valid()) ==>
          && InStep() && State() == InsertRows(old(State()), names, replace, srcs[..i])
          && (SourcesFit(columns, names, srcs) ==> RightWidth(columns, rows))
          && (replace ==> UniqueKeys(columns, rows))
      {
        assert srcs[..i + 1][..i] == srcs[..i];
        ghost var mid := State();
        InsertOne(srcs[i], replace, names);
        MayInsertOneMore(old(State()), names, srcs, i, mid, State());
      }
      assert srcs[..|srcs|] == srcs;
      if old(Valid()) {
        InsertAppendsDrawn(old(State()), names, replace, srcs);
        DrawnFit(columns, names, srcs, old(nextAuto));
        FreshKeysExactly(columns, old(rows), Drawn(columns, names, srcs, old(nextAuto)).rows);
        WidthOfBoth(columns, old(rows), Drawn(columns, names, srcs, old(nextAuto)).rows);
      }
    }

    /** Prepared INSERT: no column list, and the counter stays where it was. */
    method InsertPrepared(lits: seq<seq<Literal>>, bound: seq<Value>) returns (count: nat)
      requires Shaped()
      modifies this
      ensures Shaped() && columns == old(columns) && nextAuto == old(nextAuto)
      ensures rows == old(rows) + BoundRows(lits, bound)
      ensures old(Valid()) ==>
        (Valid() <==> (forall i :: 0 <= i < |lits| ==> |lits[i]| == |columns|)
                      && FreshKeys(columns, old(rows), BoundRows(lits, bound)))
      ensures count == |lits|
    {
      count := |lits|;
      var param := 0;
      for i := 0 to |lits|
        invariant Shaped() && columns == old(columns) && nextAuto == old(nextAuto)
        invariant rows == old(rows) + BoundRows(lits, bound)[..i]
        invariant old(InStep()) ==> InStep()
        invariant param == PlaceholdersIn(lits[..i])
      {
        assert lits[..i + 1][..i] == lits[..i];
        var row, next := BindRow(lits[i], bound, param);
        param := next;
        assert row == BoundRows(lits, bound)[i];
        assert BoundRows(lits, bound)[..i + 1] == BoundRows(lits, bound)[..i] + [row];
        AppendRow(row);
      }
      if old(Valid()) {
        FreshKeysExactly(columns, old(rows), BoundRows(lits, bound));
        WidthOfBoth(columns, old(rows), BoundRows(lits, bound));
        assert forall i :: 0 <= i < |lits| ==> |BoundRows(lits, bound)[i]| == |lits[i]|;
      }
    }

    // ----- DELETE, TRUNCATE -----

    /** DELETE WHERE key = literal: the last row moves into the gap. */
    method DeleteKeyed(k: string)
      requires Shaped() && pkColIdx.Some?
      modifies this
      ensures Shaped() && columns == old(columns) && nextAuto == old(nextAuto)
      ensures |rows| <= |old(rows)| && forall row :: row in rows ==> row in old(rows)
      ensures old(Valid()) ==> Valid() && rows == RowsWithoutKey(columns, old(rows), k)
    {
      if k in pkIndex && pkIndex[k] < |rows| {
        ghost var index, before, ints, texts, exact := pkIndex, rows, colInt, colText, Valid();
        var ri := pkIndex[k];
        pkIndex := SwapIndex(pkIndex, rows, pkColIdx.value, k);
        rows := SwapRemoved(rows, ri);
        colInt := SwapRemoveCells(colInt, ri);
        colText := SwapRemoveCells(colText, ri);
        if exact {
          SwapRemoveKeepsRepresentation(columns, before, pkColIdx, index, ints, texts, k, colInt, colText);
        }
      } else {
        pkIndex := pkIndex - {k};
      }
    }

    /** Retain the rows that pass, then rebuild the index and the stores from them, whatever they were. */
    method Retain(keep: Row -> bool)
      requires Shaped()
      modifies this
      ensures Shaped() && columns == old(columns) && nextAuto == old(nextAuto)
      ensures rows == Filter(old(rows), keep)
      ensures Valid() <==> RightWidth(columns, rows) && UniqueKeys(columns, rows)
      ensures old(Valid()) ==> Valid()
    {
      FilterKeepsShape(columns, rows, keep);
      rows := Filter(rows, keep);
      if pkColIdx.Some? {
        pkIndex := BuildIndex(rows, pkColIdx.value);
      }
      colInt, colText := RebuildStores(colInt, colText, rows);
    }

    method Delete(selection: Option<Expr>) returns (affected: nat)
      requires Shaped()
      modifies this
      ensures Shaped() && columns == old(columns) && nextAuto == old(nextAuto)
      ensures forall row :: row in rows ==> row in old(rows)
      ensures KeyProbe(columns, selection).None? ==> rows == DeletedRows(columns, old(rows), selection)
      ensures old(Valid()) ==> Valid() && rows == DeletedRows(columns, old(rows), selection)
      ensures affected == |old(rows)| - |rows|
    {
      var before := |rows|;
      var probe := KeyProbe(columns, selection);
      if probe.Some? {
        DeleteKeyed(probe.value);
      } else if selection.Some? {
        var cols := columns;
        FilterMembers(rows, (row: Row) => !EvalWhere(row, cols, selection.value));
        Retain((row: Row) => !EvalWhere(row, cols, selection.value));
      } else {
        FilterNone(rows, (row: Row) => false);
        Retain((row: Row) => false);
      }
      affected := before - |rows|;
    }

    method DeletePrepared(selection: Option<Expr>, bound: seq<Value>) returns (affected: nat)
      requires Shaped()
      modifies this
      ensures Shaped() && columns == old(columns) && nextAuto == old(nextAuto)
      ensures rows ==
        if selection.None? then []
        else Filter(old(rows), (row: Row) => !EvalWhereBound(row, old(columns), selection.value, bound))
      ensures old(Valid()) ==> Valid()
      ensures affected == |old(rows)| - |rows|
    {
      var before := |rows|;
      if selection.Some? {
        var cols := columns;
        FilterMembers(rows, (row: Row) => !EvalWhereBound(row, cols, selection.value, bound));
        Retain((row: Row) => !EvalWhereBound(row, cols, selection.value, bound));
      } else {
        FilterNone(rows, (row: Row) => false);
        Retain((row: Row) => false);
      }
      affected := before - |rows|;
    }

    method Truncate() returns (affected: nat)
      requires Shaped()
      modifies this
      ensures Shaped() && columns == old(columns) && nextAuto == old(nextAuto) && rows == []
      ensures Valid()
      ensures affected == |old(rows)|
    {
      affected := |rows|;
      rows, pkIndex := [], map[];
      colInt, colText := RebuildStores(colInt, colText, []);
    }

    // ----- UPDATE -----

    /** Set one cell, copying the value to the column's store only when it has the stored type. */
    method WriteCell(at: nat, ci: nat, v: Value)
      requires at < |rows| && ci < |rows[at]| && ci < |colInt| && ci < |colText|
      modifies this`rows, this`colInt, this`colText
      ensures rows == old(rows)[at := old(rows)[at][ci := v]]
      ensures colInt ==
        if v.Int? && old(colInt)[ci].Some? && at < |old(colInt)[ci].value|
        then old(colInt)[ci := Some(old(colInt)[ci].value[at := v.n])] else old(colInt)
      ensures colText ==
        if v.Text? && old(colText)[ci].Some? && at < |old(colText)[ci].value|
        then old(colText)[ci := Some(old(colText)[ci].value[at := v.s])] else old(colText)
    {
      if v.Int? && colInt[ci].Some? && at < |colInt[ci].value| {
        colInt := colInt[ci := Some(colInt[ci].value[at := v.n])];
      }
      if v.Text? && colText[ci].Some? && at < |colText[ci].value| {
        colText := colText[ci := Some(colText[ci].value[at := v.s])];
      }
      rows := rows[at := rows[at][ci := v]];
    }

    /** One assignment of an indexed UPDATE. */
    method AssignCell(at: nat, a: Assignment)
      requires HasShape(columns, colInt, colText) && at < |rows|
      modifies this`rows, this`colInt, this`colText
      ensures HasShape(columns, colInt, colText) && rows == old(rows)[at := Assign(old(rows)[at], columns, a)]
      ensures Copied(old(colInt), old(colText), columns, old(rows)[at], at, a, colInt, colText)
    {
      var target := Position(columns, a.target);
      if target.Some? && target.value < |rows[at]| {
        WriteCell(at, target.value, EvalRowExpr(rows[at], columns, a.value));
      }
    }

    /** ... given that the ones in `front` are done. */
    method AssignNext(at: nat, a: Assignment, ghost row: Row, ghost front: seq<Assignment>,
                      ghost ints: seq<Option<seq<I64>>>, ghost texts: seq<Option<seq<string>>>)
      requires HasShape(columns, colInt, colText) && at < |rows| && rows[at] == AssignAll(row, columns, front)
      modifies this`rows, this`colInt, this`colText
      ensures HasShape(columns, colInt, colText) && rows == old(rows)[at := AssignAll(row, columns, front + [a])]
      ensures Written(old(colInt), old(colText), at, row, columns, front, ints, texts) ==>
        Written(colInt, colText, at, row, columns, front + [a], ints, texts)
    {
      assert (front + [a])[..|front|] == front;
      AssignCell(at, a);
      if Written(old(colInt), old(colText), at, row, columns, front, ints, texts) {
        WriteStep(old(colInt), old(colText), at, row, columns, front, ints, texts, a, colInt, colText);
      }
    }

    method AssignCells(at: nat, asgns: seq<Assignment>)
      requires HasShape(columns, colInt, colText) && at < |rows|
      modifies this`rows, this`colInt, this`colText
      ensures HasShape(columns, colInt, colText)
      ensures rows == old(rows)[at := AssignAll(old(rows)[at], columns, asgns)]
      ensures old(|rows[at]| == |columns| && AllMirror(colInt, colText, rows)) ==>
        && WrittenInts(colInt, old(colInt), at, old(rows)[at], columns, asgns)
        && WrittenTexts(colText, old(colText), at, old(rows)[at], columns, asgns)
    {
      ghost var row, ints, texts := rows[at], colInt, colText;
      ghost var exact := |row| == |columns| && AllMirror(colInt, colText, rows);
      if exact {
        MirrorsReach(ints, texts, rows);
      }
      for i := 0 to |asgns|
        invariant HasShape(columns, colInt, colText)
        invariant rows == old(rows)[at := AssignAll(row, columns, asgns[..i])]
        invariant exact ==> Written(colInt, colText, at, row, columns, asgns[..i], ints, texts)
      {
        AssignNext(at, asgns[i], row, asgns[..i], ints, texts);
        assert asgns[..i + 1] == asgns[..i] + [asgns[i]];
      }
      assert asgns[..|asgns|] == asgns;
    }

    /** UPDATE WHERE key = literal: the row is rewritten in place and typed values are copied to the stores. */
    method UpdateAt(at: nat, asgns: seq<Assignment>)
      requires Shaped() && at < |rows|
      modifies this
      ensures Shaped() && columns == old(columns) && nextAuto == old(nextAuto)
      ensures rows == old(rows)[at := AssignAll(old(rows)[at], columns, asgns)]
      ensures old(Valid()) ==> (Valid() <==> RowStaysFiled(columns, old(rows)[at], asgns))
    {
      AssignCells(at, asgns);
      if old(Valid()) {
        UpdateAtExactly(columns, old(rows), pkColIdx, pkIndex, old(colInt), old(colText), at, asgns, colInt, colText);
      }
    }

    method RewriteMatching(asgns: seq<Assignment>, selection: Option<Expr>) returns (affected: nat)
      modifies this`rows
      ensures rows == UpdateMatching(columns, old(rows), asgns, selection)
      ensures affected == |Positions(old(rows), (row: Row) => Selected(row, old(columns), selection))|
    {
      ghost var before, cols := rows, columns;
      affected := 0;
      for i := 0 to |rows|
        invariant |rows| == |before|
        invariant forall j :: 0 <= j < |rows| ==>
          rows[j] == if j < i then UpdateMatching(cols, before, asgns, selection)[j] else before[j]
        invariant affected == |Positions(before[..i], (row: Row) => Selected(row, cols, selection))|
      {
        PositionsPush(before, i, (row: Row) => Selected(row, cols, selection));
        if Selected(rows[i], columns, selection) {
          rows := rows[i := AssignAll(rows[i], columns, asgns)];
          affected := affected + 1;
        }
      }
      assert before[..|rows|] == before;
    }

    /** UPDATE by scanning: matching rows are rewritten, the index and the stores are not touched. */
    method UpdateScan(asgns: seq<Assignment>, selection: Option<Expr>) returns (affected: nat)
      requires Shaped()
      modifies this
      ensures Shaped() && columns == old(columns) && nextAuto == old(nextAuto)
      ensures rows == UpdateMatching(columns, old(rows), asgns, selection)
      ensures affected == |Positions(old(rows), (row: Row) => Selected(row, old(columns), selection))|
      ensures colInt == old(colInt) && colText == old(colText)
      ensures old(Valid()) ==>
        (Valid() <==> forall i :: 0 <= i < |old(rows)| ==> SameFiling(columns, old(rows)[i], rows[i]))
    {
      affected := RewriteMatching(asgns, selection);
      if old(Valid()) {
        RewriteExactly(columns, old(rows), pkColIdx, pkIndex, colInt, colText, rows);
      }
    }

    /** UPDATE. Index and stores stay exact exactly when the rows written to stay filed as they are. */
    method Update(asgns: seq<Assignment>, selection: Option<Expr>) returns (affected: nat)
      requires Shaped()
      modifies this
      ensures Shaped() && MayUpdate(old(State()), asgns, State())
      ensures (KeyProbe(columns, selection).None? || old(Valid())) ==>
        && rows == UpdatedRows(columns, old(rows), asgns, selection)
        && affected == |UpdatedPositions(columns, old(rows), selection)|
      ensures old(Valid()) ==> (Valid() <==> UpdateKeepsFiling(columns, old(rows), asgns, selection))
    {
      ghost var before := rows;
      var probe := KeyProbe(columns, selection);
      if probe.Some? {
        affected := 0;
        KeyedUpdateFiling(columns, rows, asgns, selection);
        assert old(Valid()) ==>
          FirstWithKey(rows, pkColIdx.value, probe.value)
          == (if probe.value in pkIndex then Some(pkIndex[probe.value]) else None);
        if probe.value in pkIndex && pkIndex[probe.value] < |rows| {
          UpdateAt(pkIndex[probe.value], asgns);
          affected := 1;
        }
      } else {
        affected := UpdateScan(asgns, selection);
        ScanUpdateFiling(columns, before, asgns, selection);
      }
    }

    // ----- ALTER TABLE -----

    method AppendNulls()
      modifies this`rows
      ensures |rows| == |old(rows)| && forall i :: 0 <= i < |rows| ==> rows[i] == old(rows)[i] + [Null]
    {
      ghost var before := rows;
      for i := 0 to |rows|
        invariant |rows| == |before|
        invariant forall j :: 0 <= j < |rows| ==> rows[j] == if j < i then before[j] + [Null] else before[j]
      {
        rows := rows[i := rows[i] + [Null]];
      }
    }

    method AppendColumn(name: string, colType: ColumnType)
      requires Shaped() && Position(columns, name).None?
      modifies this
      ensures Shaped() && Altered(State(), None) == AlterOne(old(State()), AddColumn(name, colType))
      ensures old(Valid()) ==> Valid()
    {
      ghost var v := State();
      if Valid() {
        AddColumnKeeps(v, AddColumn(name, colType), pkColIdx, pkIndex, colInt, colText);
      }
      FirstPrimaryAfterAdd(columns, Column(name, colType, true, false));
      AppendNulls();
      assert rows == AlterOne(v, AddColumn(name, colType)).view.rows;
      colInt := colInt + [if colType.IsInt() then Some(seq(|rows|, _ => 0)) else None];
      colText := colText + [if colType.IsText() then Some(seq(|rows|, _ => "")) else None];
      columns := columns + [Column(name, colType, true, false)];
    }

    method EraseCells(at: nat)
      modifies this`rows
      ensures |rows| == |old(rows)|
      ensures forall i :: 0 <= i < |rows| ==>
        rows[i] == if at < |old(rows)[i]| then Removed(old(rows)[i], at) else old(rows)[i]
    {
      ghost var before := rows;
      for i := 0 to |rows|
        invariant |rows| == |before|
        invariant forall j :: 0 <= j < |rows| ==>
          rows[j] == if j < i && at < |before[j]| then Removed(before[j], at) else before[j]
      {
        if at < |rows[i]| {
          rows := rows[i := Removed(rows[i], at)];
        }
      }
    }

    method EraseColumn(name: string)
      requires Shaped() && Position(columns, name).Some? && !columns[Position(columns, name).value].primaryKey
      modifies this
      ensures Shaped() && Altered(State(), None) == AlterOne(old(State()), DropColumn(name))
      ensures old(Valid()) ==> Valid()
    {
      ghost var v := State();
      var at := Position(columns, name).value;
      if Valid() {
        DropColumnKeeps(v, DropColumn(name), pkColIdx, pkIndex, colInt, colText);
      }
      DropKeepsShape(columns, colInt, colText, at);
      columns := Removed(columns, at);
      EraseCells(at);
      assert rows == AlterOne(v, DropColumn(name)).view.rows;
      colInt := Removed(colInt, at);
      colText := Removed(colText, at);
      pkColIdx := FirstPrimary(columns);
    }

    method AlterStep(op: AlterOp) returns (error: Option<nat>)
      requires Shaped()
      modifies this
      ensures Shaped() && Altered(State(), error) == AlterOne(old(State()), op)
      ensures old(Valid()) ==> Valid()
    {
      error := None;
      match op
      case AddColumn(name, colType) =>
        if Position(columns, name).Some? { return Some(1060); }
        AppendColumn(name, colType);
      case DropColumn(name) =>
        var at := Position(columns, name);
        if at.None? { return Some(1091); }
        if columns[at.value].primaryKey { return Some(1075); }
        EraseColumn(name);
      case RenameColumn(from, to) =>
        var at := Position(columns, from);
        if at.None? { return Some(1054); }
        if Valid() {
          RenameColumnKeeps(State(), op, pkColIdx, pkIndex, colInt, colText);
        }
        FirstPrimaryAfterRename(columns, at.value, to);
        columns := columns[at.value := columns[at.value].(name := to)];
      case OtherAlter =>
    }

    /** ALTER TABLE stops at the first operation that fails; the ones before it stay done. */
    method Alter(ops: seq<AlterOp>) returns (error: Option<nat>)
      requires Shaped()
      modifies this
      ensures Shaped() && Altered(State(), error) == AlterAll(old(State()), ops)
      ensures old(Valid()) ==> Valid()
    {
      error := None;
      for i := 0 to |ops|
        invariant Shaped() && error.None?
        invariant Altered(State(), None) == AlterAll(old(State()), ops[..i])
        invariant old(Valid()) ==> Valid()
      {
        AlterOneMore(old(State()), ops, i);
        error := AlterStep(ops[i]);
        if error.Some? {
          AlterStops(old(State()), ops, i + 1);
          return;
        }
      }
      assert ops[..|ops|] == ops;
    }
  }

  lemma AlterOneMore(v: View, ops: seq<AlterOp>, i: nat)
    requires i < |ops| && AlterAll(v, ops[..i]).error.None?
    ensures AlterAll(v, ops[..i + 1]) == AlterOne(AlterAll(v, ops[..i]).view, ops[i])
  {
    assert ops[..i + 1][..i] == ops[..i];
  }

  lemma {:induction false} AlterStops(v: View, ops: seq<AlterOp>, i: nat)
    requires i <= |ops| && AlterAll(v, ops[..i]).error.Some?
    ensures AlterAll(v, ops) == AlterAll(v, ops[..i])
    decreases |ops| - i
  {
    if i < |ops| {
      assert ops[..i + 1][..i] == ops[..i];
      AlterStops(v, ops, i + 1);
    } else {
      assert ops[..i] == ops;
    }
  }

  /** With an index probe, UPDATE writes to the row that has the key, if any. */
  lemma KeyedUpdateFiling(columns: seq<Column>, rows: seq<Row>, asgns: seq<Assignment>, selection: Option<Expr>)
    requires KeyProbe(columns, selection).Some?
    ensures
      var at := FirstWithKey(rows, FirstPrimary(columns).value, KeyProbe(columns, selection).value);
      && |UpdatedPositions(columns, rows, selection)| == (if at.Some? then 1 else 0)
      && UpdatedRows(columns, rows, asgns, selection)
         == (if at.Some? then rows[at.value := AssignAll(rows[at.value], columns, asgns)] else rows)
      && (UpdateKeepsFiling(columns, rows, asgns, selection)
          <==> (at.Some? ==> RowStaysFiled(columns, rows[at.value], asgns)))
  {
    var at := FirstWithKey(rows, FirstPrimary(columns).value, KeyProbe(columns, selection).value);
    var positions := UpdatedPositions(columns, rows, selection);
    assert positions == if at.Some? then [at.value] else [];
    assert at.Some? ==> positions[0] == at.value;
  }

  /** Without an index probe, UPDATE writes to the matching rows and the two descriptions coincide. */
  lemma ScanUpdateFiling(columns: seq<Column>, rows: seq<Row>, asgns: seq<Assignment>, selection: Option<Expr>)
    requires KeyProbe(columns, selection).None?
    ensures UpdateMatching(columns, rows, asgns, selection) == UpdatedRows(columns, rows, asgns, selection)
    ensures UpdateKeepsFiling(columns, rows, asgns, selection)
            <==> forall i :: 0 <= i < |rows| ==>
                   SameFiling(columns, rows[i], UpdateMatching(columns, rows, asgns, selection)[i])
  {
    var at := UpdatedPositions(columns, rows, selection);
    PositionsMembers(rows, (row: Row) => Selected(row, columns, selection));
    forall i | 0 <= i < |rows|
      ensures i in at <==> Selected(rows[i], columns, selection)
    {
    }
    var rows' := UpdateMatching(columns, rows, asgns, selection);
    if forall i :: 0 <= i < |rows| ==> SameFiling(columns, rows[i], rows'[i]) {
      forall i | 0 <= i < |at|
        ensures SameFiling(columns, rows[at[i]], AssignAll(rows[at[i]], columns, asgns))
      {
        assert SameFiling(columns, rows[at[i]], rows'[at[i]]);
      }
    }
  }

  /** Evaluate one VALUES list, reading parameters from `param` on. */
  method BindRow(lits: seq<Literal>, bound: seq<Value>, param: nat) returns (row: Row, next: nat)
    ensures row == BoundRow(lits, bound, param)
    ensures next == param + Placeholders(lits)
  {
    row, next := [], param;
    for j := 0 to |lits|
      invariant row == BoundRow(lits, bound, param)[..j]
      invariant next == param + Placeholders(lits[..j])
    {
      assert lits[..j + 1][..j] == lits[..j];
      if lits[j] == Placeholder {
        row := row + [BoundAt(bound, next)];
        next := next + 1;
      } else {
        row := row + [LiteralValue(lits[j])];
      }
    }
    assert lits[..|lits|] == lits;
  }

  lemma WithoutKeyIsFresh(rows: seq<Row>, pk: nat, k: string)
    requires DistinctKeys(rows, pk)
    ensures DistinctKeys(WithoutKey(rows, pk, k), pk)
    ensures forall i :: 0 <= i < |WithoutKey(rows, pk, k)| ==> Key(WithoutKey(rows, pk, k)[i], pk) != k
  {
    var at := FirstWithKey(rows, pk, k);
    if at.Some? {
      var kept := Removed(rows, at.value);
      assert forall i :: 0 <= i < |kept| ==> kept[i] == if i < at.value then rows[i] else rows[i + 1];
    }
  }

  lemma InsertKeepsWidthAndKeys(v: View, names: seq<string>, replace: bool, src: Row)
    ensures
      var v' := InsertRow(v, names, replace, src);
      && (SourcesFit(v.columns, names, [src]) && RightWidth(v.columns, v.rows) ==> RightWidth(v.columns, v'.rows))
      && (replace && UniqueKeys(v.columns, v.rows) ==> UniqueKeys(v.columns, v'.rows))
  {
    var s := SourceRow(v.columns, names, src, v.nextAuto);
    var pk := FirstPrimary(v.columns);
    assert SourcesFit(v.columns, names, [src]) ==> |s.row| == |v.columns| by {
      assert [src][0] == src;
    }
    if replace && pk.Some? && UniqueKeys(v.columns, v.rows) {
      WithoutKeyIsFresh(v.rows, pk.value, Key(s.row, pk.value));
    }
  }

  lemma {:induction false} FilterKeepsShape(columns: seq<Column>, rows: seq<Row>, keep: Row -> bool)
    ensures RightWidth(columns, rows) ==> RightWidth(columns, Filter(rows, keep))
    ensures UniqueKeys(columns, rows) ==> UniqueKeys(columns, Filter(rows, keep))
  {
    var kept := Filter(rows, keep);
    FilterMembers(rows, keep);
    assert forall i :: 0 <= i < |kept| ==> kept[i] in rows;
    if UniqueKeys(columns, rows) && FirstPrimary(columns).Some? {
      FilterKeepsDistinct(rows, FirstPrimary(columns).value, keep);
    }
  }

  lemma {:induction false} FilterKeepsDistinct(rows: seq<Row>, pk: nat, keep: Row -> bool)
    requires DistinctKeys(rows, pk)
    ensures DistinctKeys(Filter(rows, keep), pk)
  {
    if rows != [] {
      var front, last := rows[..|rows| - 1], rows[|rows| - 1];
      FilterKeepsDistinct(front, pk, keep);
      var kept := Filter(front, keep);
      FilterMembers(front, keep);
      forall i | 0 <= i < |kept|
        ensures Key(kept[i], pk) != Key(last, pk)
      {
        assert kept[i] in front;
      }
    }
  }
}
