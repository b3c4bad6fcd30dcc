/** Column stores: for each column either nothing or one cell a row, kept in step by these loops. */
module Stores {
  import opened Numbers
  import opened Sql
  import opened Seqs
  import opened AccessPaths
  import opened TableSpec

  /** One store for each column of the stored type. */
  ghost predicate HasShape(columns: seq<Column>, ints: seq<Option<seq<I64>>>, texts: seq<Option<seq<string>>>) {
    && |ints| == |texts| == |columns|
    && (forall ci :: 0 <= ci < |columns| ==> (ints[ci].Some? <==> columns[ci].colType.IsInt()))
    && (forall ci :: 0 <= ci < |columns| ==> (texts[ci].Some? <==> columns[ci].colType.IsText()))
  }

  /** Every store that exists holds exactly the mirrored cells of the rows. */
  ghost predicate AllMirror(ints: seq<Option<seq<I64>>>, texts: seq<Option<seq<string>>>, rows: seq<Row>) {
    && (forall ci :: 0 <= ci < |ints| && ints[ci].Some? ==> MirrorsInt(ints[ci].value, rows, ci))
    && (forall ci :: 0 <= ci < |texts| && texts[ci].Some? ==> MirrorsText(texts[ci].value, rows, ci))
  }

  ghost predicate Indexed(m: map<string, nat>, rows: seq<Row>, pk: Option<nat>) {
    if pk.Some? then IsIndexOf(m, rows, pk.value) else m == map[]
  }

  ghost predicate SameColumns<T>(a: seq<Option<seq<T>>>, b: seq<Option<seq<T>>>) {
    |a| == |b| && forall ci :: 0 <= ci < |a| ==> (a[ci].Some? <==> b[ci].Some?)
  }

  /** The cells `row` contributes to the integer stores and to the text stores. */
  function IntCells(row: Row, n: nat): (r: seq<I64>)
    ensures |r| == n
  {
    seq(n, ci requires 0 <= ci => MirrorInt(row, ci))
  }

  function TextCells(row: Row, n: nat): (r: seq<string>)
    ensures |r| == n
  {
    seq(n, ci requires 0 <= ci => MirrorText(row, ci))
  }

  ghost predicate Pushed<T>(r: seq<Option<seq<T>>>, stores: seq<Option<seq<T>>>, cells: seq<T>)
    requires |cells| == |stores|
  {
    SameColumns(r, stores) && forall ci :: 0 <= ci < |r| && r[ci].Some? ==>
        r[ci].value == stores[ci].value + [cells[ci]]
  }

  method PushCells<T>(stores: seq<Option<seq<T>>>, cells: seq<T>) returns (r: seq<Option<seq<T>>>)
    requires |cells| == |stores|
    ensures Pushed(r, stores, cells)
  {
    r := stores;
    for ci := 0 to |stores|
      invariant SameColumns(r, stores)
      invariant forall j :: ci <= j < |stores| ==> r[j] == stores[j]
      invariant forall j :: 0 <= j < ci && r[j].Some? ==> r[j].value == stores[j].value + [cells[j]]
    {
      if r[ci].Some? {
        r := r[ci := Some(r[ci].value + [cells[ci]])];
      }
    }
  }

  ghost predicate Cut<T>(r: seq<Option<seq<T>>>, stores: seq<Option<seq<T>>>, at: nat) {
    SameColumns(r, stores)
    && forall ci :: 0 <= ci < |r| && r[ci].Some? && at < |stores[ci].value| ==>
        r[ci].value == Removed(stores[ci].value, at)
  }

  method RemoveCells<T>(stores: seq<Option<seq<T>>>, at: nat) returns (r: seq<Option<seq<T>>>)
    ensures Cut(r, stores, at)
  {
    r := stores;
    for ci := 0 to |stores|
      invariant SameColumns(r, stores)
      invariant forall j :: ci <= j < |stores| ==> r[j] == stores[j]
      invariant forall j :: 0 <= j < ci && r[j].Some? && at < |stores[j].value| ==>
          r[j].value == Removed(stores[j].value, at)
    {
      if r[ci].Some? && at < |r[ci].value| {
        r := r[ci := Some(r[ci].value[..at] + r[ci].value[at + 1..])];
      }
    }
  }

  lemma RemoveKeepsMirror(ints: seq<Option<seq<I64>>>, texts: seq<Option<seq<string>>>, rows: seq<Row>, at: nat,
                          ints': seq<Option<seq<I64>>>, texts': seq<Option<seq<string>>>)
    requires AllMirror(ints, texts, rows) && at < |rows|
    requires Cut(ints', ints, at) && Cut(texts', texts, at)
    ensures AllMirror(ints', texts', Removed(rows, at))
  {
    forall ci | 0 <= ci < |ints'| && ints'[ci].Some?
      ensures MirrorsInt(ints'[ci].value, Removed(rows, at), ci)
    {
      assert MirrorsInt(ints[ci].value, rows, ci);
    }
    forall ci | 0 <= ci < |texts'| && texts'[ci].Some?
      ensures MirrorsText(texts'[ci].value, Removed(rows, at), ci)
    {
      assert MirrorsText(texts[ci].value, rows, ci);
    }
  }

  ghost predicate SwapCut<T>(r: seq<Option<seq<T>>>, stores: seq<Option<seq<T>>>, at: nat) {
    SameColumns(r, stores)
    && forall ci :: 0 <= ci < |r| && r[ci].Some? && at < |stores[ci].value| ==>
        r[ci].value == SwapRemoved(stores[ci].value, at)
  }

  method SwapRemoveCells<T>(stores: seq<Option<seq<T>>>, at: nat) returns (r: seq<Option<seq<T>>>)
    ensures SwapCut(r, stores, at)
  {
    r := stores;
    for ci := 0 to |stores|
      invariant SameColumns(r, stores)
      invariant forall j :: ci <= j < |stores| ==> r[j] == stores[j]
      invariant forall j :: 0 <= j < ci && r[j].Some? && at < |stores[j].value| ==>
          r[j].value == SwapRemoved(stores[j].value, at)
    {
      if r[ci].Some? && at < |r[ci].value| {
        r := r[ci := Some(SwapRemoved(r[ci].value, at))];
      }
    }
  }

  lemma SwapRemoveKeepsMirror(ints: seq<Option<seq<I64>>>, texts: seq<Option<seq<string>>>, rows: seq<Row>, at: nat,
                              ints': seq<Option<seq<I64>>>, texts': seq<Option<seq<string>>>)
    requires AllMirror(ints, texts, rows) && at < |rows|
    requires SwapCut(ints', ints, at) && SwapCut(texts', texts, at)
    ensures AllMirror(ints', texts', SwapRemoved(rows, at))
  {
    forall ci | 0 <= ci < |ints'| && ints'[ci].Some?
      ensures MirrorsInt(ints'[ci].value, SwapRemoved(rows, at), ci)
    {
      assert MirrorsInt(ints[ci].value, rows, ci);
    }
    forall ci | 0 <= ci < |texts'| && texts'[ci].Some?
      ensures MirrorsText(texts'[ci].value, SwapRemoved(rows, at), ci)
    {
      assert MirrorsText(texts[ci].value, rows, ci);
    }
  }

  /** Project every stored column again from the rows. */
  method RebuildStores(ints: seq<Option<seq<I64>>>, texts: seq<Option<seq<string>>>, rows: seq<Row>)
    returns (ints': seq<Option<seq<I64>>>, texts': seq<Option<seq<string>>>)
    ensures SameColumns(ints', ints) && SameColumns(texts', texts)
    ensures AllMirror(ints', texts', rows)
  {
    ints', texts' := ints, texts;
    for ci := 0 to |ints|
      invariant SameColumns(ints', ints)
      invariant forall j :: 0 <= j < ci && ints'[j].Some? ==> MirrorsInt(ints'[j].value, rows, j)
    {
      if ints'[ci].Some? {
        ints' := ints'[ci := Some(seq(|rows|, i requires 0 <= i < |rows| => MirrorInt(rows[i], ci)))];
      }
    }
    for ci := 0 to |texts|
      invariant SameColumns(texts', texts)
      invariant forall j :: 0 <= j < ci && texts'[j].Some? ==> MirrorsText(texts'[j].value, rows, j)
    {
      if texts'[ci].Some? {
        texts' := texts'[ci := Some(seq(|rows|, i requires 0 <= i < |rows| => MirrorText(rows[i], ci)))];
      }
    }
  }

  /** Last row wins: the index that filing the rows in order builds. */
  method BuildIndex(rows: seq<Row>, pk: nat) returns (m: map<string, nat>)
    ensures IsIndexOf(m, rows, pk)
  {
    m := map[];
    for i := 0 to |rows|
      invariant IsIndexOf(m, rows[..i], pk)
    {
      assert rows[..i + 1] == rows[..i] + [rows[i]];
      IndexPush(m, rows[..i], rows[i], pk);
      m := m[Key(rows[i], pk) := i];
    }
    assert rows[..|rows|] == rows;
  }

  lemma IndexPush(m: map<string, nat>, rows: seq<Row>, row: Row, pk: nat)
    requires IsIndexOf(m, rows, pk)
    ensures IsIndexOf(m[Key(row, pk) := |rows|], rows + [row], pk)
  {
  }

  /** Unfile one key and refile the row that moves into its place. */
  function SwapIndex(m: map<string, nat>, rows: seq<Row>, pk: nat, k: string): map<string, nat>
    requires k in m && m[k] < |rows|
  {
    var ri, last := m[k], |rows| - 1;
    if ri != last then (m - {k})[Key(rows[last], pk) := ri] else m - {k}
  }

  lemma IndexSwapRemove(m: map<string, nat>, rows: seq<Row>, pk: nat, k: string)
    requires IsInverse(m, rows, pk) && k in m
    ensures IsInverse(SwapIndex(m, rows, pk, k), SwapRemoved(rows, m[k]), pk)
  {
    var ri, last := m[k], |rows| - 1;
    var m' := SwapIndex(m, rows, pk, k);
    var rows' := SwapRemoved(rows, ri);
    assert forall i :: 0 <= i < |rows'| ==> rows'[i] == if i == ri then rows[last] else rows[i];
    assert Key(rows[last], pk) in m && m[Key(rows[last], pk)] == last;
    assert ri != last ==> Key(rows[last], pk) != k;
    forall i | 0 <= i < |rows'|
      ensures Key(rows'[i], pk) in m' && m'[Key(rows'[i], pk)] == i
    {
      if i != ri {
        assert Key(rows[i], pk) in m && m[Key(rows[i], pk)] == i;
      }
    }
    forall key | key in m'
      ensures m'[key] < |rows'| && Key(rows'[m'[key]], pk) == key
    {
      if !(ri != last && key == Key(rows[last], pk)) {
        assert key in m && key != k && m'[key] == m[key];
      }
    }
  }

  // ----- The whole representation -----

  /** The key column is known, stores exist where they should and mirror the rows, and the index files every row. */
  ghost predicate Represents(columns: seq<Column>, rows: seq<Row>, pk: Option<nat>, m: map<string, nat>,
                             ints: seq<Option<seq<I64>>>, texts: seq<Option<seq<string>>>)
  {
    && pk == FirstPrimary(columns) && HasShape(columns, ints, texts)
    && AllMirror(ints, texts, rows) && Indexed(m, rows, pk)
  }

  /** ... and rows have the table's width and a key each of their own. */
  ghost predicate RepresentsExactly(columns: seq<Column>, rows: seq<Row>, pk: Option<nat>, m: map<string, nat>,
                                    ints: seq<Option<seq<I64>>>, texts: seq<Option<seq<string>>>)
  {
    Represents(columns, rows, pk, m, ints, texts) && RightWidth(columns, rows) && UniqueKeys(columns, rows)
  }

  lemma SwapRemoveKeepsRepresentation(columns: seq<Column>, rows: seq<Row>, pk: Option<nat>, m: map<string, nat>,
                                      ints: seq<Option<seq<I64>>>, texts: seq<Option<seq<string>>>, k: string,
                                      ints': seq<Option<seq<I64>>>, texts': seq<Option<seq<string>>>)
    requires RepresentsExactly(columns, rows, pk, m, ints, texts) && pk.Some? && k in m
    requires SwapCut(ints', ints, m[k]) && SwapCut(texts', texts, m[k])
    ensures RepresentsExactly(columns, SwapRemoved(rows, m[k]), pk, SwapIndex(m, rows, pk.value, k), ints', texts')
    ensures RowsWithoutKey(columns, rows, k) == SwapRemoved(rows, m[k])
  {
    var ri := m[k];
    IndexSwapRemove(m, rows, pk.value, k);
    SwapRemoveKeepsMirror(ints, texts, rows, ri, ints', texts');
    assert FirstWithKey(rows, pk.value, k) == Some(ri);
    InverseMeansDistinct(SwapIndex(m, rows, pk.value, k), SwapRemoved(rows, ri), pk.value);
  }

  lemma RemoveKeepsRepresentation(columns: seq<Column>, rows: seq<Row>, pk: Option<nat>, m: map<string, nat>,
                                  ints: seq<Option<seq<I64>>>, texts: seq<Option<seq<string>>>, k: string,
                                  m': map<string, nat>,
                                  ints': seq<Option<seq<I64>>>, texts': seq<Option<seq<string>>>)
    requires Represents(columns, rows, pk, m, ints, texts) && UniqueKeys(columns, rows) && pk.Some? && k in m
    requires Cut(ints', ints, m[k]) && Cut(texts', texts, m[k]) && IsIndexOf(m', Removed(rows, m[k]), pk.value)
    ensures WithoutKey(rows, pk.value, k) == Removed(rows, m[k])
    ensures Represents(columns, WithoutKey(rows, pk.value, k), pk, m', ints', texts')
  {
    InverseMeansDistinct(m, rows, pk.value);
    assert FirstWithKey(rows, pk.value, k) == Some(m[k]);
    RemoveKeepsMirror(ints, texts, rows, m[k], ints', texts');
  }

  // ----- What UPDATE does to the representation -----

  /** The integer store's cell after the assignments: only an assigned integer is copied to it. */
  function StoredInt(row: Row, columns: seq<Column>, asgns: seq<Assignment>, ci: nat): I64 {
    if asgns == [] then MirrorInt(row, ci)
    else
      var front, last := asgns[..|asgns| - 1], asgns[|asgns| - 1];
      var v := EvalRowExpr(AssignAll(row, columns, front), columns, last.value);
      if Position(columns, last.target) == Some(ci) && v.Int? then v.n else StoredInt(row, columns, front, ci)
  }

  function StoredText(row: Row, columns: seq<Column>, asgns: seq<Assignment>, ci: nat): string {
    if asgns == [] then MirrorText(row, ci)
    else
      var front, last := asgns[..|asgns| - 1], asgns[|asgns| - 1];
      var v := EvalRowExpr(AssignAll(row, columns, front), columns, last.value);
      if Position(columns, last.target) == Some(ci) && v.Text? then v.s else StoredText(row, columns, front, ci)
  }

  /** The last value assigned to the column is an integer, or the store holds 0 by then. */
  predicate IntCellKept(row: Row, columns: seq<Column>, asgns: seq<Assignment>, ci: nat) {
    if asgns == [] then true
    else
      var front, last := asgns[..|asgns| - 1], asgns[|asgns| - 1];
      if Position(columns, last.target) != Some(ci) then IntCellKept(row, columns, front, ci)
      else
        || EvalRowExpr(AssignAll(row, columns, front), columns, last.value).Int?
        || StoredInt(row, columns, front, ci) == 0
  }

  /** The last value assigned to the column is a text, or the store holds "" by then. */
  predicate TextCellKept(row: Row, columns: seq<Column>, asgns: seq<Assignment>, ci: nat) {
    if asgns == [] then true
    else
      var front, last := asgns[..|asgns| - 1], asgns[|asgns| - 1];
      if Position(columns, last.target) != Some(ci) then TextCellKept(row, columns, front, ci)
      else
        || EvalRowExpr(AssignAll(row, columns, front), columns, last.value).Text?
        || StoredText(row, columns, front, ci) == ""
  }

  lemma {:induction false} CellInStepExactly(row: Row, columns: seq<Column>, asgns: seq<Assignment>, ci: nat)
    requires ci < |columns| == |row|
    ensures StoredInt(row, columns, asgns, ci) == MirrorInt(AssignAll(row, columns, asgns), ci)
            <==> IntCellKept(row, columns, asgns, ci)
    ensures StoredText(row, columns, asgns, ci) == MirrorText(AssignAll(row, columns, asgns), ci)
            <==> TextCellKept(row, columns, asgns, ci)
  {
    if asgns != [] {
      CellInStepExactly(row, columns, asgns[..|asgns| - 1], ci);
    }
  }

  ghost predicate SameKey(columns: seq<Column>, a: Row, b: Row) {
    FirstPrimary(columns).Some? ==> Key(a, FirstPrimary(columns).value) == Key(b, FirstPrimary(columns).value)
  }

  /** An indexed UPDATE keeps a row filed: same key, and every stored column ends on a value of its type. */
  ghost predicate RowStaysFiled(columns: seq<Column>, row: Row, asgns: seq<Assignment>) {
    && SameKey(columns, row, AssignAll(row, columns, asgns))
    && (forall ci :: 0 <= ci < |columns| && columns[ci].colType.IsInt() ==> IntCellKept(row, columns, asgns, ci))
    && (forall ci :: 0 <= ci < |columns| && columns[ci].colType.IsText() ==> TextCellKept(row, columns, asgns, ci))
  }

  /** A scanning UPDATE touches no store, so a row stays filed only if nothing stored changes. */
  ghost predicate SameFiling(columns: seq<Column>, a: Row, b: Row) {
    && SameKey(columns, a, b)
    && (forall ci :: 0 <= ci < |columns| && columns[ci].colType.IsInt() ==> MirrorInt(a, ci) == MirrorInt(b, ci))
    && (forall ci :: 0 <= ci < |columns| && columns[ci].colType.IsText() ==> MirrorText(a, ci) == MirrorText(b, ci))
  }

  /** Whether an UPDATE leaves index and stores exact, decided from the rows it is about to write to. */
  ghost predicate UpdateKeepsFiling(columns: seq<Column>, rows: seq<Row>, asgns: seq<Assignment>,
                                    selection: Option<Expr>) {
    var at := UpdatedPositions(columns, rows, selection);
    forall i :: 0 <= i < |at| ==>
      if KeyProbe(columns, selection).Some? then RowStaysFiled(columns, rows[at[i]], asgns)
      else SameFiling(columns, rows[at[i]], AssignAll(rows[at[i]], columns, asgns))
  }

  ghost predicate WrittenInts(ints': seq<Option<seq<I64>>>, ints: seq<Option<seq<I64>>>, at: nat, row: Row,
                              columns: seq<Column>, asgns: seq<Assignment>)
  {
    SameColumns(ints', ints)
    && forall ci :: 0 <= ci < |ints| && ints[ci].Some? && at < |ints[ci].value| ==>
         ints'[ci].value == ints[ci].value[at := StoredInt(row, columns, asgns, ci)]
  }

  ghost predicate WrittenTexts(texts': seq<Option<seq<string>>>, texts: seq<Option<seq<string>>>, at: nat, row: Row,
                               columns: seq<Column>, asgns: seq<Assignment>)
  {
    SameColumns(texts', texts)
    && forall ci :: 0 <= ci < |texts| && texts[ci].Some? && at < |texts[ci].value| ==>
         texts'[ci].value == texts[ci].value[at := StoredText(row, columns, asgns, ci)]
  }

  lemma WriteIntStep(ints': seq<Option<seq<I64>>>, ints: seq<Option<seq<I64>>>, at: nat, row: Row,
                     columns: seq<Column>, front: seq<Assignment>, a: Assignment, next: seq<Option<seq<I64>>>)
    requires |ints| == |columns| && WrittenInts(ints', ints, at, row, columns, front)
    requires
      var target, v := Position(columns, a.target), EvalRowExpr(AssignAll(row, columns, front), columns, a.value);
      next == if target.Some? && v.Int? && ints'[target.value].Some? && at < |ints'[target.value].value|
              then ints'[target.value := Some(ints'[target.value].value[at := v.n])] else ints'
    requires forall ci :: 0 <= ci < |ints| && ints[ci].Some? ==> at < |ints[ci].value|
    ensures WrittenInts(next, ints, at, row, columns, front + [a])
  {
    forall ci | 0 <= ci < |ints| && ints[ci].Some? && at < |ints[ci].value|
      ensures next[ci].value == ints[ci].value[at := StoredInt(row, columns, front + [a], ci)]
    {
      StoredIntPush(row, columns, front, a, ci);
    }
  }

  lemma StoredIntPush(row: Row, columns: seq<Column>, front: seq<Assignment>, a: Assignment, ci: nat)
    ensures
      var target, v := Position(columns, a.target), EvalRowExpr(AssignAll(row, columns, front), columns, a.value);
      StoredInt(row, columns, front + [a], ci)
      == if target == Some(ci) && v.Int? then v.n else StoredInt(row, columns, front, ci)
  {
    assert (front + [a])[..|front|] == front;
  }

  lemma WriteTextStep(texts': seq<Option<seq<string>>>, texts: seq<Option<seq<string>>>, at: nat, row: Row,
                      columns: seq<Column>, front: seq<Assignment>, a: Assignment, target: Option<nat>, v: Value,
                      next: seq<Option<seq<string>>>)
    requires |texts| == |columns| && WrittenTexts(texts', texts, at, row, columns, front)
    requires target == Position(columns, a.target) && v == EvalRowExpr(AssignAll(row, columns, front), columns, a.value)
    requires next == if target.Some? && v.Text? && texts'[target.value].Some? && at < |texts'[target.value].value|
                     then texts'[target.value := Some(texts'[target.value].value[at := v.s])] else texts'
    requires forall ci :: 0 <= ci < |texts| && texts[ci].Some? ==> at < |texts[ci].value|
    ensures WrittenTexts(next, texts, at, row, columns, front + [a])
  {
    forall ci | 0 <= ci < |texts| && texts[ci].Some? && at < |texts[ci].value|
      ensures next[ci].value == texts[ci].value[at := StoredText(row, columns, front + [a], ci)]
    {
      StoredTextPush(row, columns, front, a, ci, target, v);
    }
  }

  lemma StoredTextPush(row: Row, columns: seq<Column>, front: seq<Assignment>, a: Assignment, ci: nat,
                       target: Option<nat>, v: Value)
    requires target == Position(columns, a.target) && v == EvalRowExpr(AssignAll(row, columns, front), columns, a.value)
    ensures StoredText(row, columns, front + [a], ci)
         == if target == Some(ci) && v.Text? then v.s else StoredText(row, columns, front, ci)
  {
    assert (front + [a])[..|front|] == front;
  }

  /** A value of the stored type was copied to the store of the column assigned to. */
  ghost predicate Copied(ints: seq<Option<seq<I64>>>, texts: seq<Option<seq<string>>>, columns: seq<Column>, row: Row,
                         at: nat, a: Assignment, ints': seq<Option<seq<I64>>>, texts': seq<Option<seq<string>>>)
    requires |ints| == |texts| == |columns|
  {
    var target, v := Position(columns, a.target), EvalRowExpr(row, columns, a.value);
    var reached := target.Some? && target.value < |row|;
    && ints' == (if reached && v.Int? && ints[target.value].Some? && at < |ints[target.value].value|
                 then ints[target.value := Some(ints[target.value].value[at := v.n])] else ints)
    && texts' == (if reached && v.Text? && texts[target.value].Some? && at < |texts[target.value].value|
                  then texts[target.value := Some(texts[target.value].value[at := v.s])] else texts)
  }

  /** Every store reaches the position and holds there what the assignments leave. */
  ghost predicate Written(ints': seq<Option<seq<I64>>>, texts': seq<Option<seq<string>>>, at: nat, row: Row,
                          columns: seq<Column>, asgns: seq<Assignment>,
                          ints: seq<Option<seq<I64>>>, texts: seq<Option<seq<string>>>)
  {
    && |ints| == |texts| == |columns| == |row|
    && (forall ci :: 0 <= ci < |ints| && ints[ci].Some? ==> at < |ints[ci].value|)
    && (forall ci :: 0 <= ci < |texts| && texts[ci].Some? ==> at < |texts[ci].value|)
    && WrittenInts(ints', ints, at, row, columns, asgns) && WrittenTexts(texts', texts, at, row, columns, asgns)
  }

  lemma WriteStep(ints': seq<Option<seq<I64>>>, texts': seq<Option<seq<string>>>, at: nat, row: Row,
                  columns: seq<Column>, front: seq<Assignment>, ints: seq<Option<seq<I64>>>,
                  texts: seq<Option<seq<string>>>, a: Assignment,
                  ints'': seq<Option<seq<I64>>>, texts'': seq<Option<seq<string>>>)
    requires Written(ints', texts', at, row, columns, front, ints, texts)
    requires Copied(ints', texts', columns, AssignAll(row, columns, front), at, a, ints'', texts'')
    ensures Written(ints'', texts'', at, row, columns, front + [a], ints, texts)
  {
    var target, v := Position(columns, a.target), EvalRowExpr(AssignAll(row, columns, front), columns, a.value);
    WriteIntStep(ints', ints, at, row, columns, front, a, ints'');
    WriteTextStep(texts', texts, at, row, columns, front, a, target, v, texts'');
  }

  lemma MirrorsReach(ints: seq<Option<seq<I64>>>, texts: seq<Option<seq<string>>>, rows: seq<Row>)
    requires AllMirror(ints, texts, rows)
    ensures forall ci :: 0 <= ci < |ints| && ints[ci].Some? ==> |ints[ci].value| == |rows|
    ensures forall ci :: 0 <= ci < |texts| && texts[ci].Some? ==> |texts[ci].value| == |rows|
  {
  }

  lemma RewrittenIndex(columns: seq<Column>, rows: seq<Row>, rows': seq<Row>, m: map<string, nat>, pk: Option<nat>)
    requires pk == FirstPrimary(columns) && Indexed(m, rows, pk) && UniqueKeys(columns, rows) && |rows'| == |rows|
    ensures (Indexed(m, rows', pk) && UniqueKeys(columns, rows'))
            <==> forall i :: 0 <= i < |rows| ==> SameKey(columns, rows[i], rows'[i])
  {
    if pk.Some? {
      InverseMeansDistinct(m, rows, pk.value);
      InverseMeansDistinct(m, rows', pk.value);
    }
  }

  lemma WrittenCellExactly(columns: seq<Column>, rows: seq<Row>, ints: seq<Option<seq<I64>>>,
                           texts: seq<Option<seq<string>>>, at: nat, asgns: seq<Assignment>,
                           ints': seq<Option<seq<I64>>>, texts': seq<Option<seq<string>>>, ci: nat)
    requires HasShape(columns, ints, texts) && AllMirror(ints, texts, rows)
    requires at < |rows| && |rows[at]| == |columns| && ci < |columns|
    requires WrittenInts(ints', ints, at, rows[at], columns, asgns) &&
        WrittenTexts(texts', texts, at, rows[at], columns, asgns)
    ensures
      var rows' := rows[at := AssignAll(rows[at], columns, asgns)];
      && (ints[ci].Some? ==> (MirrorsInt(ints'[ci].value, rows', ci) <==> IntCellKept(rows[at], columns, asgns, ci)))
      && (texts[ci].Some? ==> (MirrorsText(texts'[ci].value, rows', ci) <==>
          TextCellKept(rows[at], columns, asgns, ci)))
  {
    CellInStepExactly(rows[at], columns, asgns, ci);
    if ints[ci].Some? {
      assert MirrorsInt(ints[ci].value, rows, ci);
      assert ints'[ci].value[at] == StoredInt(rows[at], columns, asgns, ci);
    }
    if texts[ci].Some? {
      assert MirrorsText(texts[ci].value, rows, ci);
      assert texts'[ci].value[at] == StoredText(rows[at], columns, asgns, ci);
    }
  }

  lemma UpdateAtExactly(columns: seq<Column>, rows: seq<Row>, pk: Option<nat>, m: map<string, nat>,
                        ints: seq<Option<seq<I64>>>, texts: seq<Option<seq<string>>>, at: nat, asgns: seq<Assignment>,
                        ints': seq<Option<seq<I64>>>, texts': seq<Option<seq<string>>>)
    requires RepresentsExactly(columns, rows, pk, m, ints, texts) && at < |rows|
    requires WrittenInts(ints', ints, at, rows[at], columns, asgns) &&
        WrittenTexts(texts', texts, at, rows[at], columns, asgns)
    ensures RepresentsExactly(columns, rows[at := AssignAll(rows[at], columns, asgns)], pk, m, ints', texts')
            <==> RowStaysFiled(columns, rows[at], asgns)
  {
    var row' := AssignAll(rows[at], columns, asgns);
    var rows' := rows[at := row'];
    RewrittenIndex(columns, rows, rows', m, pk);
    assert rows'[at] == row' && RightWidth(columns, rows') && HasShape(columns, ints', texts');
    forall ci | 0 <= ci < |columns| {
      WrittenCellExactly(columns, rows, ints, texts, at, asgns, ints', texts', ci);
    }
    assert (forall i :: 0 <= i < |rows| ==> SameKey(columns, rows[i], rows'[i])) <==> SameKey(columns, rows[at], row');
  }

  lemma RewriteExactly(columns: seq<Column>, rows: seq<Row>, pk: Option<nat>, m: map<string, nat>,
                       ints: seq<Option<seq<I64>>>, texts: seq<Option<seq<string>>>, rows': seq<Row>)
    requires RepresentsExactly(columns, rows, pk, m, ints, texts)
    requires |rows'| == |rows| && RightWidth(columns, rows')
    ensures RepresentsExactly(columns, rows', pk, m, ints, texts)
            <==> forall i :: 0 <= i < |rows| ==> SameFiling(columns, rows[i], rows'[i])
  {
    RewrittenIndex(columns, rows, rows', m, pk);
    forall ci | 0 <= ci < |columns| && columns[ci].colType.IsInt()
      ensures MirrorsInt(ints[ci].value, rows', ci)
              <==> forall i :: 0 <= i < |rows| ==> MirrorInt(rows[i], ci) == MirrorInt(rows'[i], ci)
    {
      assert MirrorsInt(ints[ci].value, rows, ci);
    }
    forall ci | 0 <= ci < |columns| && columns[ci].colType.IsText()
      ensures MirrorsText(texts[ci].value, rows', ci)
              <==> forall i :: 0 <= i < |rows| ==> MirrorText(rows[i], ci) == MirrorText(rows'[i], ci)
    {
      assert MirrorsText(texts[ci].value, rows, ci);
    }
  }

  // ----- What ALTER TABLE does to the representation -----

  /** Rows that each got a NULL appended are mirrored by the old stores and a new one of zeros or empty texts. */
  lemma NewStoresMirror(rows: seq<Row>, wider: seq<Row>, ints: seq<Option<seq<I64>>>,
                        texts: seq<Option<seq<string>>>, zeros: Option<seq<I64>>, empties: Option<seq<string>>)
    requires AllMirror(ints, texts, rows) && |wider| == |rows|
    requires forall i :: 0 <= i < |rows| ==> wider[i] == rows[i] + [Null]
    requires zeros.Some? ==> MirrorsInt(zeros.value, wider, |ints|)
    requires empties.Some? ==> MirrorsText(empties.value, wider, |texts|)
    ensures AllMirror(ints + [zeros], texts + [empties], wider)
  {
    forall ci | 0 <= ci < |ints| && ints[ci].Some?
      ensures MirrorsInt(ints[ci].value, wider, ci)
    {
    }
    forall ci | 0 <= ci < |texts| && texts[ci].Some?
      ensures MirrorsText(texts[ci].value, wider, ci)
    {
    }
  }

  lemma AddColumnKeeps(v: View, op: AlterOp, pk: Option<nat>, m: map<string, nat>,
                       ints: seq<Option<seq<I64>>>, texts: seq<Option<seq<string>>>)
    requires RepresentsExactly(v.columns, v.rows, pk, m, ints, texts)
    requires op.AddColumn? && AlterOne(v, op).error.None?
    ensures
      var v' := AlterOne(v, op).view;
      RepresentsExactly(v'.columns, v'.rows, pk, m,
        ints + [if op.colType.IsInt() then Some(seq(|v.rows|, _ => 0)) else None],
        texts + [if op.colType.IsText() then Some(seq(|v.rows|, _ => "")) else None])
  {
    var v' := AlterOne(v, op).view;
    var ints' := ints + [if op.colType.IsInt() then Some(seq(|v.rows|, _ => 0)) else None];
    var texts' := texts + [if op.colType.IsText() then Some(seq(|v.rows|, _ => "")) else None];
    FirstPrimaryAfterAdd(v.columns, v'.columns[|v.columns|]);
    assert forall i :: 0 <= i < |v.rows| && pk.Some? ==> Key(v'.rows[i], pk.value) == Key(v.rows[i], pk.value);
    NewStoresMirror(v.rows, v'.rows, ints, texts, ints'[|ints|], texts'[|texts|]);
  }

  lemma FirstPrimaryAfterAdd(columns: seq<Column>, added: Column)
    requires !added.primaryKey
    ensures FirstPrimary(columns + [added]) == FirstPrimary(columns)
  {
    var pk := FirstPrimary(columns);
    if pk.Some? {
      FirstPrimaryIs(columns + [added], pk.value);
    }
  }

  lemma FirstPrimaryAfterRename(columns: seq<Column>, at: nat, name: string)
    requires at < |columns|
    ensures FirstPrimary(columns[at := columns[at].(name := name)]) == FirstPrimary(columns)
  {
    var pk := FirstPrimary(columns);
    if pk.Some? {
      FirstPrimaryIs(columns[at := columns[at].(name := name)], pk.value);
    }
  }

  lemma FirstPrimaryAfterDrop(columns: seq<Column>, at: nat)
    requires at < |columns| && !columns[at].primaryKey
    ensures
      var pk := FirstPrimary(columns);
      FirstPrimary(Removed(columns, at))
      == if pk.None? then None else if pk.value < at then pk else Some(pk.value - 1)
  {
    var pk := FirstPrimary(columns);
    var rest := Removed(columns, at);
    if pk.None? {
    } else if pk.value < at {
      FirstPrimaryIs(rest, pk.value);
    } else {
      FirstPrimaryIs(rest, pk.value - 1);
    }
  }

  lemma DropKeepsShape(columns: seq<Column>, ints: seq<Option<seq<I64>>>, texts: seq<Option<seq<string>>>, at: nat)
    requires HasShape(columns, ints, texts) && at < |columns| && !columns[at].primaryKey
    ensures HasShape(Removed(columns, at), Removed(ints, at), Removed(texts, at))
    ensures FirstPrimary(Removed(columns, at)).None? <==> FirstPrimary(columns).None?
  {
    FirstPrimaryAfterDrop(columns, at);
  }

  lemma DropKeepsMirror(columns: seq<Column>, rows: seq<Row>, ints: seq<Option<seq<I64>>>,
                        texts: seq<Option<seq<string>>>, at: nat, rows': seq<Row>)
    requires HasShape(columns, ints, texts) && AllMirror(ints, texts, rows) && at < |columns|
    requires RightWidth(columns, rows) && |rows'| == |rows|
    requires forall i :: 0 <= i < |rows| ==> rows'[i] == Removed(rows[i], at)
    ensures AllMirror(Removed(ints, at), Removed(texts, at), rows')
  {
    var ints', texts' := Removed(ints, at), Removed(texts, at);
    forall ci | 0 <= ci < |ints'| && ints'[ci].Some?
      ensures MirrorsInt(ints'[ci].value, rows', ci)
    {
      var was := if ci < at then ci else ci + 1;
      assert ints'[ci] == ints[was] && MirrorsInt(ints[was].value, rows, was);
    }
    forall ci | 0 <= ci < |texts'| && texts'[ci].Some?
      ensures MirrorsText(texts'[ci].value, rows', ci)
    {
      var was := if ci < at then ci else ci + 1;
      assert texts'[ci] == texts[was] && MirrorsText(texts[was].value, rows, was);
    }
  }

  lemma DropKeepsIndex(columns: seq<Column>, rows: seq<Row>, m: map<string, nat>, at: nat, rows': seq<Row>)
    requires at < |columns| && !columns[at].primaryKey
    requires RightWidth(columns, rows) && |rows'| == |rows|
    requires forall i :: 0 <= i < |rows| ==> rows'[i] == Removed(rows[i], at)
    requires Indexed(m, rows, FirstPrimary(columns)) && UniqueKeys(columns, rows)
    ensures Indexed(m, rows', FirstPrimary(Removed(columns, at))) && UniqueKeys(Removed(columns, at), rows')
  {
    FirstPrimaryAfterDrop(columns, at);
    if FirstPrimary(columns).Some? {
      var pk, pk' := FirstPrimary(columns).value, FirstPrimary(Removed(columns, at)).value;
      forall i | 0 <= i < |rows|
        ensures Key(rows'[i], pk') == Key(rows[i], pk)
      {
      }
    }
  }

  lemma DropColumnKeeps(v: View, op: AlterOp, pk: Option<nat>, m: map<string, nat>,
                        ints: seq<Option<seq<I64>>>, texts: seq<Option<seq<string>>>)
    requires RepresentsExactly(v.columns, v.rows, pk, m, ints, texts)
    requires op.DropColumn? && AlterOne(v, op).error.None?
    ensures
      var at := Position(v.columns, op.name).value;
      var v' := AlterOne(v, op).view;
      RepresentsExactly(v'.columns, v'.rows, FirstPrimary(v'.columns), m, Removed(ints, at), Removed(texts, at))
  {
    var at := Position(v.columns, op.name).value;
    var v' := AlterOne(v, op).view;
    assert forall i :: 0 <= i < |v.rows| ==> v'.rows[i] == Removed(v.rows[i], at);
    DropKeepsMirror(v.columns, v.rows, ints, texts, at, v'.rows);
    DropKeepsIndex(v.columns, v.rows, m, at, v'.rows);
  }

  lemma RenameColumnKeeps(v: View, op: AlterOp, pk: Option<nat>, m: map<string, nat>,
                          ints: seq<Option<seq<I64>>>, texts: seq<Option<seq<string>>>)
    requires RepresentsExactly(v.columns, v.rows, pk, m, ints, texts)
    requires op.RenameColumn? && AlterOne(v, op).error.None?
    ensures
      var v' := AlterOne(v, op).view;
      v'.rows == v.rows && RepresentsExactly(v'.columns, v'.rows, pk, m, ints, texts)
  {
    FirstPrimaryAfterRename(v.columns, Position(v.columns, op.from).value, op.to);
  }
}
