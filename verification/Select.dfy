/** SELECT over one table: the index, a column scan or the row evaluator, then ORDER BY, OFFSET and LIMIT. */
module Selects {
  import opened Numbers
  import opened Sql
  import opened Seqs
  import opened AccessPaths
  import opened SimdScan
  import opened TableSpec
  import opened Stores
  import opened Tables
  import opened TableRuns
  import opened OrderBy

  /** Rows already turned into texts, or rows of values that the wire encoder turns into texts. */
  datatype Answer = TextRows(texts: seq<seq<Option<string>>>) | ValueRows(values: seq<Row>) {
    function Shown(): seq<seq<Option<string>>> {
      match this
      case TextRows(texts) => texts
      case ValueRows(values) => seq(|values|, i requires 0 <= i < |values| => Display(values[i]))
    }
  }

  function Display(row: Row): (r: seq<Option<string>>)
    ensures |r| == |row|
  {
    seq(|row|, i requires 0 <= i < |row| => row[i].ToDisplay())
  }

  function Project(row: Row, proj: seq<nat>): (r: Row)
    ensures |r| == |proj|
  {
    seq(|proj|, i requires 0 <= i < |proj| => Cell(row, Some(proj[i])))
  }

  function ProjectAt(rows: seq<Row>, proj: seq<nat>, at: seq<nat>): (r: seq<Row>)
    requires InRows(rows, at)
    ensures |r| == |at|
  {
    seq(|at|, i requires 0 <= i < |at| => Project(rows[at[i]], proj))
  }

  function MatchingPositions(columns: seq<Column>, rows: seq<Row>, selection: Option<Expr>): (r: seq<nat>)
    ensures InRows(rows, r)
    ensures forall a, b :: 0 <= a < b < |r| ==> r[a] < r[b]
  {
    Positions(rows, (row: Row) => Selected(row, columns, selection))
  }

  datatype Query = Query(proj: seq<nat>, selection: Option<Expr>, order: Option<seq<OrderTerm>>, offset: Option<nat>,
                         limit: Option<nat>)
  {
    predicate IsPlain() { order.None? && offset.None? && limit.None? }
  }

  function Cut(rows: seq<Row>, s: seq<nat>, offset: Option<nat>, limit: Option<nat>): (r: seq<nat>)
    requires InRows(rows, s)
    ensures InRows(rows, r)
  {
    Slice(s, offset, limit)
  }

  /** The rows the query asks for, in order: those that pass, sorted, cut to the slice. */
  function AskedFor(columns: seq<Column>, rows: seq<Row>, q: Query, at: seq<nat>): (r: seq<nat>)
    requires InRows(rows, at)
    ensures InRows(rows, r)
  {
    Cut(rows, if q.order.Some? then SortByAll(rows, SortKeys(columns, q.order.value), at) else at, q.offset, q.limit)
  }

  function ShowAt(rows: seq<Row>, proj: seq<nat>, at: seq<nat>): (r: seq<seq<Option<string>>>)
    requires InRows(rows, at)
    ensures |r| == |at|
  {
    seq(|at|, i requires 0 <= i < |at| => Display(Project(rows[at[i]], proj)))
  }

  /** What the query asks for, read off the rows alone. */
  function Expected(columns: seq<Column>, rows: seq<Row>, q: Query): seq<seq<Option<string>>> {
    ShowAt(rows, q.proj, AskedFor(columns, rows, q, MatchingPositions(columns, rows, q.selection)))
  }

  /** Cells of another type than the column's do not mislead the scan. */
  ghost predicate ScanIsExact(scan: Scan, columns: seq<Column>, rows: seq<Row>, ints: seq<Option<seq<I64>>>,
                              texts: seq<Option<seq<string>>>, e: Expr)
  {
    match scan
    case IntScan(col, op, target) =>
      && IsIntScan(scan, columns, ints, texts, e)
      && (forall i :: 0 <= i < |rows| ==> HarmlessInInts(op, target, Cell(rows[i], Some(col))))
    case TextScan(col, text) =>
      && IsTextScan(scan, columns, ints, texts, e)
      && (forall i :: 0 <= i < |rows| ==> HarmlessInTexts(text, Cell(rows[i], Some(col))))
  }

  /** OFFSET and LIMIT leave a single row alone. */
  predicate SliceKeepsOne(q: Query) {
    (q.offset.None? || q.offset.value == 0) && (q.limit.None? || q.limit.value >= 1)
  }

  /** The access path a query takes finds what is asked for. The index path ignores ORDER BY, OFFSET and LIMIT. */
  ghost predicate AccessIsExact(columns: seq<Column>, rows: seq<Row>, ints: seq<Option<seq<I64>>>,
                                texts: seq<Option<seq<string>>>, q: Query)
  {
    q.selection.Some? ==>
      var e := q.selection.value;
      if KeyProbe(columns, q.selection).Some? then
        var pk := FirstPrimary(columns).value;
        && Probes(columns, rows, e) && ProbeIsExact(rows, columns, pk, e)
        && (HasKey(rows, pk, KeyProbe(columns, q.selection).value) ==> SliceKeepsOne(q))
      else
        var scan := PlanScan(columns, ints, texts, e);
        scan.Some? ==> ScanIsExact(scan.value, columns, rows, ints, texts, e)
  }

  lemma ScanFindsMatches(scan: Scan, columns: seq<Column>, rows: seq<Row>, ints: seq<Option<seq<I64>>>,
                         texts: seq<Option<seq<string>>>, e: Expr)
    requires AllMirror(ints, texts, rows) && PlanScan(columns, ints, texts, e) == Some(scan)
    requires ScanIsExact(scan, columns, rows, ints, texts, e)
    ensures scan.IntScan? ==>
      Positions(ints[scan.col].value, (v: I64) => ScanHit(scan.op, v, scan.target))
      == MatchingPositions(columns, rows, Some(e))
    ensures scan.TextScan? ==>
      Positions(texts[scan.col].value, (v: string) => v == scan.text) == MatchingPositions(columns, rows, Some(e))
  {
    WhereIsSelected(columns, rows, e);
    if scan.IntScan? {
      IntScanAgrees(ints[scan.col].value, rows, scan, columns, ints, texts, e);
    } else {
      TextScanAgrees(texts[scan.col].value, rows, scan, columns, ints, texts, e);
    }
  }

  lemma WhereIsSelected(columns: seq<Column>, rows: seq<Row>, e: Expr)
    ensures WherePositions(rows, columns, e) == MatchingPositions(columns, rows, Some(e))
  {
    PositionsAgree(rows, (row: Row) => EvalWhere(row, columns, e), rows, (row: Row) => Selected(row, columns, Some(e)));
  }

  /** The filter takes each row as it took the one that was there before. */
  predicate SameSelection(columns: seq<Column>, before: seq<Row>, rows: seq<Row>, e: Expr)
    requires |before| == |rows|
  {
    forall i :: 0 <= i < |rows| ==> EvalWhere(before[i], columns, e) == EvalWhere(rows[i], columns, e)
  }

  /** What a scan answers that would be exact on the rows its store was made from, when the rows have changed since. */
  lemma StaleScanExactly(columns: seq<Column>, before: seq<Row>, rows: seq<Row>, e: Expr)
    requires |before| == |rows|
    ensures MatchingPositions(columns, before, Some(e)) == MatchingPositions(columns, rows, Some(e))
            <==> SameSelection(columns, before, rows, e)
  {
    WhereIsSelected(columns, before, e);
    WhereIsSelected(columns, rows, e);
    PositionsAgree(before, (row: Row) => EvalWhere(row, columns, e), rows, (row: Row) => EvalWhere(row, columns, e));
  }

  /** So after a scanning UPDATE, which leaves the stores behind, a filter is answered rightly exactly when it takes
      each row written to as it took the one before. */
  lemma StaleAfterUpdate(columns: seq<Column>, before: seq<Row>, asgns: seq<Assignment>, selection: Option<Expr>,
                         e: Expr)
    ensures SameSelection(columns, before, UpdateMatching(columns, before, asgns, selection), e)
            <==> forall i :: 0 <= i < |before| && Selected(before[i], columns, selection) ==>
                   EvalWhere(before[i], columns, e) == EvalWhere(AssignAll(before[i], columns, asgns), columns, e)
  {
    var rows := UpdateMatching(columns, before, asgns, selection);
    assert forall i :: 0 <= i < |rows| ==>
      rows[i] == if Selected(before[i], columns, selection) then AssignAll(before[i], columns, asgns) else before[i];
  }

  /** The positions an integer or text scan, or failing that the evaluator, comes up with. The stores may have been made
      from other rows than those of the table now. */
  method FindRows(t: Table, selection: Option<Expr>, avx2: bool, ghost before: seq<Row>) returns (at: seq<nat>)
    requires |before| == |t.rows| && AllMirror(t.colInt, t.colText, before)
    ensures InRows(t.rows, at)
    ensures
      var scan := if selection.Some? then PlanScan(t.columns, t.colInt, t.colText, selection.value) else None;
      && (scan.None? ==> at == MatchingPositions(t.columns, t.rows, selection))
      && (scan.Some? && ScanIsExact(scan.value, t.columns, before, t.colInt, t.colText, selection.value) ==>
            (at == MatchingPositions(t.columns, t.rows, selection)
             <==> SameSelection(t.columns, before, t.rows, selection.value)))
  {
    var cols := t.columns;
    var scan := if selection.Some? then PlanScan(cols, t.colInt, t.colText, selection.value) else None;
    if scan.Some? {
      StaleScanExactly(cols, before, t.rows, selection.value);
      MirrorsReach(t.colInt, t.colText, before);
      if ScanIsExact(scan.value, cols, before, t.colInt, t.colText, selection.value) {
        ScanFindsMatches(scan.value, cols, before, t.colInt, t.colText, selection.value);
      }
      match scan.value
      case IntScan(col, op, target) => at := ScanI64(t.colInt[col].value, op, target, avx2);
      case TextScan(col, text) => at := ScanText(t.colText[col].value, text, avx2);
    } else {
      at := Positions(t.rows, (row: Row) => Selected(row, cols, selection));
    }
  }

  lemma ProbeFindsMatches(columns: seq<Column>, rows: seq<Row>, m: map<string, nat>, e: Expr)
    requires Probes(columns, rows, e) && ProbeIsExact(rows, columns, FirstPrimary(columns).value, e)
    requires IsInverse(m, rows, FirstPrimary(columns).value) && KeyProbe(columns, Some(e)).Some?
    ensures
      var k := KeyProbe(columns, Some(e)).value;
      MatchingPositions(columns, rows, Some(e)) == if k in m then [m[k]] else []
  {
    var pk := FirstPrimary(columns).value;
    var k := KeyProbe(columns, Some(e)).value;
    IndexPathAgrees(rows, columns, pk, e);
    WhereIsSelected(columns, rows, e);
    assert FirstWithKey(rows, pk, k) == if k in m then Some(m[k]) else None;
  }

  lemma AskedForOne(columns: seq<Column>, rows: seq<Row>, q: Query, x: nat)
    requires x < |rows|
    ensures InRows(rows, [x])
    ensures ShowAt(rows, q.proj, [x]) == ShowAt(rows, q.proj, AskedFor(columns, rows, q, [x])) <==> SliceKeepsOne(q)
  {
  }

  lemma AskedForNone(columns: seq<Column>, rows: seq<Row>, q: Query)
    ensures AskedFor(columns, rows, q, []) == []
  {
  }

  /** When the probe is exact, the index path shows what is asked for, whatever the ORDER BY, if and only if nothing is
      found or OFFSET and LIMIT leave the row. `LIMIT 0` and `OFFSET 1` return it all the same. */
  lemma IndexedSelectExactly(columns: seq<Column>, rows: seq<Row>, m: map<string, nat>, q: Query, k: string)
    requires q.selection.Some? && KeyProbe(columns, q.selection) == Some(k)
    requires Probes(columns, rows, q.selection.value)
    requires ProbeIsExact(rows, columns, FirstPrimary(columns).value, q.selection.value)
    requires IsInverse(m, rows, FirstPrimary(columns).value)
    ensures
      var found := if k in m then [m[k]] else [];
      InRows(rows, found) &&
      (ShowAt(rows, q.proj, found) == Expected(columns, rows, q) <==> k !in m || SliceKeepsOne(q))
  {
    ProbeFindsMatches(columns, rows, m, q.selection.value);
    if k in m {
      AskedForOne(columns, rows, q, m[k]);
    } else {
      AskedForNone(columns, rows, q);
    }
  }

  lemma PartShown(rows: seq<Row>, proj: seq<nat>, s: seq<nat>, from: nat, to: nat)
    requires InRows(rows, s) && from <= to <= |s|
    ensures ShowAt(rows, proj, s)[from..to] == ShowAt(rows, proj, s[from..to])
  {
    var part := ShowAt(rows, proj, s[from..to]);
    forall i | 0 <= i < |part|
      ensures part[i] == ShowAt(rows, proj, s)[from + i]
    {
      assert s[from..to][i] == s[from + i];
    }
  }

  lemma CutShown(rows: seq<Row>, proj: seq<nat>, s: seq<nat>, offset: Option<nat>, limit: Option<nat>)
    requires InRows(rows, s)
    ensures Slice(ShowAt(rows, proj, s), offset, limit) == ShowAt(rows, proj, Cut(rows, s, offset, limit))
  {
    var from := if offset.None? then 0 else if offset.value < |s| then offset.value else |s|;
    var to := if limit.None? || from + limit.value > |s| then |s| else from + limit.value;
    SliceIsExact(s, offset, limit);
    SliceIsExact(ShowAt(rows, proj, s), offset, limit);
    PartShown(rows, proj, s, from, to);
  }

  /** Values as they are when nothing is left to do, else texts, sorted and then cut. */
  method Assemble(columns: seq<Column>, rows: seq<Row>, q: Query, at: seq<nat>) returns (answer: Answer)
    requires InRows(rows, at)
    ensures at == MatchingPositions(columns, rows, q.selection) ==> answer.Shown() == Expected(columns, rows, q)
  {
    if q.IsPlain() {
      answer := ValueRows(ProjectAt(rows, q.proj, at));
    } else {
      var sorted := at;
      if q.order.Some? {
        sorted := SortRows(rows, columns, q.order.value, at);
      }
      answer := TextRows(Slice(ShowAt(rows, q.proj, sorted), q.offset, q.limit));
      CutShown(rows, q.proj, sorted, q.offset, q.limit);
    }
  }

  /** Whenever the access path is exact, SELECT returns what the rows say, by whichever path it got there. */
  method Select(t: Table, q: Query, avx2: bool) returns (answer: Answer)
    requires t.Valid()
    ensures AccessIsExact(t.columns, t.rows, t.colInt, t.colText, q) ==>
        answer.Shown() == Expected(t.columns, t.rows, q)
  {
    var probe := KeyProbe(t.columns, q.selection);
    if probe.Some? {
      var found := if probe.value in t.pkIndex then [t.pkIndex[probe.value]] else [];
      answer := TextRows(ShowAt(t.rows, q.proj, found));
      if AccessIsExact(t.columns, t.rows, t.colInt, t.colText, q) {
        IndexedSelectExactly(t.columns, t.rows, t.pkIndex, q, probe.value);
      }
    } else {
      var at := FindRows(t, q.selection, avx2, t.rows);
      answer := Assemble(t.columns, t.rows, q, at);
    }
  }

  /** The rows asked for are those that pass, in key order with ties in table order, and of these the exact slice. */
  lemma ExpectedIsOrderedSlice(columns: seq<Column>, rows: seq<Row>, q: Query) returns (sorted: seq<nat>)
    requires q.order.Some?
    requires AreConsistent(rows, SortKeys(columns, q.order.value), MatchingPositions(columns, rows, q.selection))
    ensures InRows(rows, sorted) && multiset(sorted) == multiset(MatchingPositions(columns, rows, q.selection))
    ensures IsOrdered(rows, SortKeys(columns, q.order.value), sorted)
    ensures Expected(columns, rows, q) == ShowAt(rows, q.proj, Cut(rows, sorted, q.offset, q.limit))
  {
    var at := MatchingPositions(columns, rows, q.selection);
    sorted := SortByAll(rows, SortKeys(columns, q.order.value), at);
    SortByAllOrders(rows, SortKeys(columns, q.order.value), at);
  }

  /** So whenever each column of the ORDER BY holds integers and NULLs, or NULLs and texts that are no whole numbers. */
  lemma UniformOrderIsShown(columns: seq<Column>, rows: seq<Row>, q: Query) returns (sorted: seq<nat>)
    requires q.order.Some?
    requires AreUniform(rows, SortKeys(columns, q.order.value), MatchingPositions(columns, rows, q.selection))
    ensures InRows(rows, sorted) && multiset(sorted) == multiset(MatchingPositions(columns, rows, q.selection))
    ensures IsOrdered(rows, SortKeys(columns, q.order.value), sorted)
    ensures Expected(columns, rows, q) == ShowAt(rows, q.proj, Cut(rows, sorted, q.offset, q.limit))
  {
    var keys, at := SortKeys(columns, q.order.value), MatchingPositions(columns, rows, q.selection);
    UniformColumnsSort(rows, keys, at);
    sorted := ExpectedIsOrderedSlice(columns, rows, q);
  }
}
