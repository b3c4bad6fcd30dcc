/** The key index and the column scans, against the row evaluator they stand in for. */
module AccessPaths {
  import opened Numbers
  import opened Comparison
  import opened Sql
  import opened Seqs

  // ----- The primary-key index -----

  /** The text under which a row is filed in the index. */
  function Key(row: Row, pk: nat): string {
    if pk < |row| then row[pk].DisplayOrEmpty() else ""
  }

  ghost predicate DistinctKeys(rows: seq<Row>, pk: nat) {
    forall i, j :: 0 <= i < j < |rows| ==> Key(rows[i], pk) != Key(rows[j], pk)
  }

  /** Every key text leads to the last row that has it. */
  ghost predicate IsIndexOf(m: map<string, nat>, rows: seq<Row>, pk: nat) {
    && (forall i :: 0 <= i < |rows| ==> Key(rows[i], pk) in m && i <= m[Key(rows[i], pk)])
    && (forall k :: k in m ==> m[k] < |rows| && Key(rows[m[k]], pk) == k)
  }

  /** The index is the exact inverse of "position to key". */
  ghost predicate IsInverse(m: map<string, nat>, rows: seq<Row>, pk: nat) {
    && (forall i :: 0 <= i < |rows| ==> Key(rows[i], pk) in m && m[Key(rows[i], pk)] == i)
    && (forall k :: k in m ==> m[k] < |rows| && Key(rows[m[k]], pk) == k)
  }

  lemma InverseMeansDistinct(m: map<string, nat>, rows: seq<Row>, pk: nat)
    ensures IsInverse(m, rows, pk) <==> IsIndexOf(m, rows, pk) && DistinctKeys(rows, pk)
  {
    if IsIndexOf(m, rows, pk) && DistinctKeys(rows, pk) {
      forall i | 0 <= i < |rows|
        ensures m[Key(rows[i], pk)] == i
      {
        var j := m[Key(rows[i], pk)];
        assert Key(rows[j], pk) == Key(rows[i], pk);
      }
    }
  }

  function FirstWithKey(rows: seq<Row>, pk: nat, k: string): (r: Option<nat>)
    ensures r.Some? ==> r.value < |rows| && Key(rows[r.value], pk) == k
    ensures r.Some? ==> forall i :: 0 <= i < r.value ==> Key(rows[i], pk) != k
    ensures r.None? ==> forall i :: 0 <= i < |rows| ==> Key(rows[i], pk) != k
  {
    if rows == [] then None
    else
      var before := FirstWithKey(rows[..|rows| - 1], pk, k);
      if before.Some? then before
      else if Key(rows[|rows| - 1], pk) == k then Some(|rows| - 1)
      else None
  }

  /** The column side of a comparison: the left one when it is a name, else the right one. */
  function ColumnSide(e: Expr): Expr
    requires e.Binary?
  {
    if e.left.Ident? || e.left.Compound? then e.left else e.right
  }

  function LiteralSide(e: Expr): Expr
    requires e.Binary?
  {
    if e.left.Ident? || e.left.Compound? then e.right else e.left
  }

  /** The name a column expression ends in. */
  function LastName(e: Expr): Option<string> {
    match e
    case Ident(name) => Some(name)
    case Compound(parts) => if parts == [] then None else Some(parts[|parts| - 1])
    case _ => None
  }

  /** The literal text of a filter `key = literal`, in either order. */
  function ExtractPkEq(pkName: string, e: Expr): Option<string> {
    if !e.Binary? || e.op != Eq then None
    else
      var name := LastName(ColumnSide(e));
      if name.None? || !SameName(name.value, pkName) then None
      else
        match LiteralSide(e)
        case Lit(Number(text)) => Some(text)
        case Lit(SingleQuoted(s)) => Some(s)
        case _ => None
  }

  /** A filter that takes the index path, and whose name does denote the key column. */
  predicate ProbesKey(cols: seq<Column>, pk: nat, e: Expr) {
    pk < |cols| && ExtractPkEq(cols[pk].name, e).Some? && Resolve(cols, ColumnSide(e)) == Some(pk)
  }

  /** How the literal of such a filter would itself be printed: `7` for `007`. */
  function CanonicalText(e: Expr): string {
    if e.Binary? && LiteralSide(e).Lit? then LiteralValue(LiteralSide(e).lit).DisplayOrEmpty() else ""
  }

  predicate KeysPresent(rows: seq<Row>, pk: nat) {
    forall i :: 0 <= i < |rows| ==> pk < |rows[i]| && rows[i][pk] != Null
  }

  /** On rows with a key, the evaluator compares the key text with the canonical literal text. */
  lemma WhereComparesKeyText(row: Row, cols: seq<Column>, pk: nat, e: Expr)
    requires ProbesKey(cols, pk, e) && pk < |row| && row[pk] != Null
    ensures EvalWhere(row, cols, e) <==> Key(row, pk) == CanonicalText(e)
  {
    var lit := LiteralValue(LiteralSide(e).lit);
    assert EvalRowExpr(row, cols, ColumnSide(e)) == row[pk];
    assert EvalRowExpr(row, cols, LiteralSide(e)) == lit;
    ValuesEqIsSameText(row[pk], lit);
    ValuesEqIsSameText(lit, row[pk]);
  }

  predicate HasKey(rows: seq<Row>, pk: nat, k: string) {
    exists i :: 0 <= i < |rows| && Key(rows[i], pk) == k
  }

  /**
   When the index lookup agrees with the evaluator: the literal is written the way
   its value prints, or neither text is the key of any row.
   */
  predicate ProbeIsExact(rows: seq<Row>, cols: seq<Column>, pk: nat, e: Expr)
    requires ProbesKey(cols, pk, e)
  {
    var text := ExtractPkEq(cols[pk].name, e).value;
    text == CanonicalText(e) || (!HasKey(rows, pk, text) && !HasKey(rows, pk, CanonicalText(e)))
  }

  function WherePositions(rows: seq<Row>, cols: seq<Column>, e: Expr): (r: seq<nat>)
    ensures forall i :: 0 <= i < |r| ==> r[i] < |rows|
  {
    Positions(rows, (row: Row) => EvalWhere(row, cols, e))
  }

  function KeyPositions(rows: seq<Row>, pk: nat, k: string): (r: seq<nat>)
    ensures forall i :: 0 <= i < |r| ==> r[i] < |rows|
  {
    var at := FirstWithKey(rows, pk, k);
    if at.Some? then [at.value] else []
  }

  lemma KeyPositionsAreAll(rows: seq<Row>, pk: nat, k: string)
    requires DistinctKeys(rows, pk)
    ensures KeyPositions(rows, pk, k) == Positions(rows, (row: Row) => Key(row, pk) == k)
  {
    var at := FirstWithKey(rows, pk, k);
    if at.Some? {
      forall i | 0 <= i < |rows| && i != at.value
        ensures Key(rows[i], pk) != k
      {
        assert i < at.value || DistinctKeys(rows, pk);
      }
      PositionsOfOne(rows, at.value, (row: Row) => Key(row, pk) == k);
    } else {
      PositionsOfNone(rows, (row: Row) => Key(row, pk) == k);
    }
  }

  /** The index path and the evaluator select the same rows exactly when the probe is exact. */
  lemma IndexPathAgrees(rows: seq<Row>, cols: seq<Column>, pk: nat, e: Expr)
    requires ProbesKey(cols, pk, e) && KeysPresent(rows, pk) && DistinctKeys(rows, pk)
    ensures KeyPositions(rows, pk, ExtractPkEq(cols[pk].name, e).value) == WherePositions(rows, cols, e)
            <==> ProbeIsExact(rows, cols, pk, e)
  {
    var text := ExtractPkEq(cols[pk].name, e).value;
    KeyPositionsAreAll(rows, pk, text);
    PositionsAgree(rows, (row: Row) => Key(row, pk) == text, rows, (row: Row) => EvalWhere(row, cols, e));
    forall i | 0 <= i < |rows|
      ensures EvalWhere(rows[i], cols, e) <==> Key(rows[i], pk) == CanonicalText(e)
    {
      WhereComparesKeyText(rows[i], cols, pk, e);
    }
  }

  // ----- The index after a plain INSERT of an existing key -----

  /** What an index finds that leads each key to the last row that has it. */
  function Found(m: map<string, nat>, k: string): seq<nat> {
    if k in m then [m[k]] else []
  }

  predicate AtMostOne(rows: seq<Row>, pk: nat, k: string) {
    forall i, j :: 0 <= i < j < |rows| ==> Key(rows[i], pk) != k || Key(rows[j], pk) != k
  }

  function AllWithKey(rows: seq<Row>, pk: nat, k: string): seq<nat> {
    Positions(rows, (row: Row) => Key(row, pk) == k)
  }

  lemma AllWithKeyMembers(rows: seq<Row>, pk: nat, k: string)
    ensures forall i :: i in AllWithKey(rows, pk, k) <==> 0 <= i < |rows| && Key(rows[i], pk) == k
  {
    PositionsMembers(rows, (row: Row) => Key(row, pk) == k);
  }

  /** It finds exactly the rows with a key if and only if no two rows have it. */
  lemma LastRowExactly(m: map<string, nat>, rows: seq<Row>, pk: nat, k: string)
    requires IsIndexOf(m, rows, pk)
    ensures Found(m, k) == AllWithKey(rows, pk, k) <==> AtMostOne(rows, pk, k)
  {
    AllWithKeyMembers(rows, pk, k);
    if Found(m, k) == AllWithKey(rows, pk, k) {
      forall i | 0 <= i < |rows| && Key(rows[i], pk) == k
        ensures k in m && i == m[k]
      {
        assert i in AllWithKey(rows, pk, k);
      }
    }
    if AtMostOne(rows, pk, k) {
      OneIsFound(m, rows, pk, k);
    }
  }

  lemma OneIsFound(m: map<string, nat>, rows: seq<Row>, pk: nat, k: string)
    requires IsIndexOf(m, rows, pk) && AtMostOne(rows, pk, k)
    ensures Found(m, k) == AllWithKey(rows, pk, k)
  {
    if k in m {
      forall i | 0 <= i < |rows| && i != m[k]
        ensures Key(rows[i], pk) != k
      {
        assert i < m[k] || m[k] < i;
      }
      PositionsOfOne(rows, m[k], (row: Row) => Key(row, pk) == k);
    } else {
      PositionsOfNone(rows, (row: Row) => Key(row, pk) == k);
    }
  }

  lemma WhereIsAllWithKey(rows: seq<Row>, cols: seq<Column>, pk: nat, e: Expr)
    requires ProbesKey(cols, pk, e) && KeysPresent(rows, pk)
    ensures WherePositions(rows, cols, e) == AllWithKey(rows, pk, CanonicalText(e))
  {
    var shown := CanonicalText(e);
    forall i | 0 <= i < |rows|
      ensures EvalWhere(rows[i], cols, e) <==> Key(rows[i], pk) == shown
    {
      WhereComparesKeyText(rows[i], cols, pk, e);
    }
    PositionsAgree(rows, (row: Row) => Key(row, pk) == shown, rows, (row: Row) => EvalWhere(row, cols, e));
  }

  /** It agrees with the evaluator if and only if the literal is written canonically and at most one row has the key, or
      neither spelling is a key. */
  lemma LastRowPathAgrees(m: map<string, nat>, rows: seq<Row>, cols: seq<Column>, pk: nat, e: Expr)
    requires ProbesKey(cols, pk, e) && KeysPresent(rows, pk) && IsIndexOf(m, rows, pk)
    ensures
      var text := ExtractPkEq(cols[pk].name, e).value;
      Found(m, text) == WherePositions(rows, cols, e)
      <==> (text == CanonicalText(e) && AtMostOne(rows, pk, text))
           || (!HasKey(rows, pk, text) && !HasKey(rows, pk, CanonicalText(e)))
  {
    var text, shown := ExtractPkEq(cols[pk].name, e).value, CanonicalText(e);
    WhereIsAllWithKey(rows, cols, pk, e);
    if text == shown {
      LastRowExactly(m, rows, pk, text);
    } else {
      OtherKeyIsFound(m, rows, pk, text, shown);
    }
  }

  lemma OtherKeyIsFound(m: map<string, nat>, rows: seq<Row>, pk: nat, k: string, other: string)
    requires IsIndexOf(m, rows, pk) && k != other
    ensures Found(m, k) == AllWithKey(rows, pk, other) <==> !HasKey(rows, pk, k) && !HasKey(rows, pk, other)
  {
    AllWithKeyMembers(rows, pk, other);
    var all := AllWithKey(rows, pk, other);
    if k in m {
      assert Found(m, k)[0] == m[k] && m[k] !in all;
      assert HasKey(rows, pk, k);
    } else if HasKey(rows, pk, other) {
      var i :| 0 <= i < |rows| && Key(rows[i], pk) == other;
      assert i in all;
    } else {
      PositionsOfNone(rows, (row: Row) => Key(row, pk) == other);
    }
  }

  /** `WHERE id = 007` misses the row with key 7 that the evaluator finds. */
  lemma PaddedLiteralMissesRow()
    ensures ParseI64("007") == Some(7)
    ensures
      var cols := [Column("id", IntType, false, true)];
      var e := Binary(Ident("id"), Eq, Lit(Number("007")));
      && KeyPositions([[Int(7)]], 0, ExtractPkEq("id", e).value) == []
      && WherePositions([[Int(7)]], cols, e) == [0]
  {
    assert "007"[..2] == "00" && "00"[..1] == "0" && "0"[..0] == "";
    assert DigitsValue("007") == Some(7);
    var cols := [Column("id", IntType, false, true)];
    var e := Binary(Ident("id"), Eq, Lit(Number("007")));
    assert Digits(7) == "7";
    assert Position(cols, "id") == Some(0);
    var rows: seq<Row> := [[Int(7)]];
    assert EvalWhere(rows[0], cols, e);
    assert Positions(rows[..0], (row: Row) => EvalWhere(row, cols, e)) == [];
    assert rows[..0] == [];
  }

  // ----- Column scans -----

  datatype ScanOp = ScanEq | ScanGt | ScanLt

  datatype Scan =
    | IntScan(col: nat, op: ScanOp, target: I64)
    | TextScan(col: nat, text: string)

  predicate ScanHit(op: ScanOp, v: int, target: int) {
    match op
    case ScanEq => v == target
    case ScanGt => v > target
    case ScanLt => v < target
  }

  /** The scan, if any, that a filter `column op literal` is answered with. */
  function PlanScan(cols: seq<Column>, ints: seq<Option<seq<I64>>>, texts: seq<Option<seq<string>>>,
                    e: Expr): (r: Option<Scan>)
    ensures r.Some? && r.value.IntScan? ==> r.value.col < |ints| && r.value.col < |cols| && ints[r.value.col].Some?
    ensures r.Some? && r.value.TextScan? ==> r.value.col < |texts| && r.value.col < |cols| && texts[r.value.col].Some?
  {
    if !e.Binary? then None
    else
      var name := LastName(e.left);
      if name.None? then None
      else
        var at := Position(cols, name.value);
        if at.None? then None
        else if at.value < |ints| && ints[at.value].Some? then
          if !(e.right.Lit? && e.right.lit.Number?) then None
          else
            var target := ParseI64(e.right.lit.text).value;
            if e.op == Eq then Some(IntScan(at.value, ScanEq, target))
            else if e.op == Gt then Some(IntScan(at.value, ScanGt, target))
            else if e.op == Lt then Some(IntScan(at.value, ScanLt, target))
            else None
        else if e.op == Eq && at.value < |texts| && texts[at.value].Some?
             && e.right.Lit? && e.right.lit.SingleQuoted? then
          Some(TextScan(at.value, e.right.lit.s))
        else None
  }

  /** What an integer column stores for a row; anything but an integer is stored as 0. */
  function MirrorInt(row: Row, col: nat): I64 {
    if col < |row| && row[col].Int? then row[col].n else 0
  }

  /** What a text column stores for a row; anything but a text is stored as "". */
  function MirrorText(row: Row, col: nat): string {
    if col < |row| && row[col].Text? then row[col].s else ""
  }

  ghost predicate MirrorsInt(store: seq<I64>, rows: seq<Row>, col: nat) {
    |store| == |rows| && forall i :: 0 <= i < |rows| ==> store[i] == MirrorInt(rows[i], col)
  }

  ghost predicate MirrorsText(store: seq<string>, rows: seq<Row>, col: nat) {
    |store| == |rows| && forall i :: 0 <= i < |rows| ==> store[i] == MirrorText(rows[i], col)
  }

  /** Targets for which a NULL, stored as 0, is scanned the way the evaluator compares it. */
  predicate NullIsHarmless(op: ScanOp, target: I64) {
    match op
    case ScanEq => target != 0
    case ScanGt => target >= 0
    case ScanLt => target > 0
  }

  /** The evaluator compares a text with a number as texts. */
  predicate TextHit(op: ScanOp, s: string, target: I64) {
    match op
    case ScanEq => s == IntText(target)
    case ScanGt => StrCmp(s, IntText(target)) == Greater
    case ScanLt => StrCmp(s, IntText(target)) == Less
  }

  /** Cells that an integer scan, to which anything but an integer is 0, takes the way the evaluator does. */
  predicate HarmlessInInts(op: ScanOp, target: I64, v: Value) {
    match v
    case Int(_) => true
    case Null => NullIsHarmless(op, target)
    case Text(s) => TextHit(op, s, target) == ScanHit(op, 0, target)
  }

  /** Cells that a text scan, to which anything but a text is "", takes the way the evaluator does. */
  predicate HarmlessInTexts(text: string, v: Value) {
    match v
    case Text(_) => true
    case Null => text != ""
    case Int(n) => text != "" && text != IntText(n)
  }

  ghost predicate IsIntScan(scan: Scan, cols: seq<Column>, ints: seq<Option<seq<I64>>>,
                            texts: seq<Option<seq<string>>>, e: Expr) {
    scan.IntScan? && PlanScan(cols, ints, texts, e) == Some(scan) && Resolve(cols, e.left) == Some(scan.col)
  }

  ghost predicate IsTextScan(scan: Scan, cols: seq<Column>, ints: seq<Option<seq<I64>>>,
                             texts: seq<Option<seq<string>>>, e: Expr) {
    scan.TextScan? && PlanScan(cols, ints, texts, e) == Some(scan) && Resolve(cols, e.left) == Some(scan.col)
  }

  function Operator(op: ScanOp): (r: BinaryOp)
    ensures r.IsComparison()
  {
    match op
    case ScanEq => Eq
    case ScanGt => Gt
    case ScanLt => Lt
  }

  lemma IntCell(op: ScanOp, v: Value, target: I64)
    ensures (ScanHit(op, if v.Int? then v.n else 0, target) == Compare(Operator(op), v, Int(target)))
            <==> HarmlessInInts(op, target, v)
  {
    if v.Text? {
      ValuesEqIsSameText(v, Int(target));
    }
  }

  lemma IntScanRow(row: Row, scan: Scan, cols: seq<Column>, ints: seq<Option<seq<I64>>>,
                   texts: seq<Option<seq<string>>>, e: Expr)
    requires IsIntScan(scan, cols, ints, texts, e)
    ensures (ScanHit(scan.op, MirrorInt(row, scan.col), scan.target) == EvalWhere(row, cols, e))
            <==> HarmlessInInts(scan.op, scan.target, Cell(row, Some(scan.col)))
  {
    var v := Cell(row, Some(scan.col));
    assert EvalRowExpr(row, cols, e.left) == v;
    assert EvalRowExpr(row, cols, e.right) == Int(scan.target) && e.op == Operator(scan.op);
    IntCell(scan.op, v, scan.target);
  }

  /** An integer scan picks what the evaluator picks exactly when every cell that is no integer is harmless. */
  lemma IntScanAgrees(store: seq<I64>, rows: seq<Row>, scan: Scan, cols: seq<Column>, ints: seq<Option<seq<I64>>>,
                      texts: seq<Option<seq<string>>>, e: Expr)
    requires IsIntScan(scan, cols, ints, texts, e) && MirrorsInt(store, rows, scan.col)
    ensures Positions(store, (v: I64) => ScanHit(scan.op, v, scan.target)) == WherePositions(rows, cols, e)
            <==> forall i :: 0 <= i < |rows| ==> HarmlessInInts(scan.op, scan.target, Cell(rows[i], Some(scan.col)))
  {
    PositionsAgree(store, (v: I64) => ScanHit(scan.op, v, scan.target), rows, (row: Row) => EvalWhere(row, cols, e));
    forall i | 0 <= i < |rows| {
      IntScanRow(rows[i], scan, cols, ints, texts, e);
    }
  }

  lemma TextScanRow(row: Row, scan: Scan, cols: seq<Column>, ints: seq<Option<seq<I64>>>,
                    texts: seq<Option<seq<string>>>, e: Expr)
    requires IsTextScan(scan, cols, ints, texts, e)
    ensures ((MirrorText(row, scan.col) == scan.text) == EvalWhere(row, cols, e))
            <==> HarmlessInTexts(scan.text, Cell(row, Some(scan.col)))
  {
    var v := Cell(row, Some(scan.col));
    assert EvalRowExpr(row, cols, e.left) == v;
    assert EvalRowExpr(row, cols, e.right) == Text(scan.text);
    ValuesEqIsSameText(v, Text(scan.text));
  }

  /** A text scan picks what the evaluator picks exactly when every cell that is no text is harmless. */
  lemma TextScanAgrees(store: seq<string>, rows: seq<Row>, scan: Scan, cols: seq<Column>, ints: seq<Option<seq<I64>>>,
                       texts: seq<Option<seq<string>>>, e: Expr)
    requires IsTextScan(scan, cols, ints, texts, e) && MirrorsText(store, rows, scan.col)
    ensures Positions(store, (v: string) => v == scan.text) == WherePositions(rows, cols, e)
            <==> forall i :: 0 <= i < |rows| ==> HarmlessInTexts(scan.text, Cell(rows[i], Some(scan.col)))
  {
    PositionsAgree(store, (v: string) => v == scan.text, rows, (row: Row) => EvalWhere(row, cols, e));
    forall i | 0 <= i < |rows| {
      TextScanRow(rows[i], scan, cols, ints, texts, e);
    }
  }

  /** A negated literal is stored as a text, and its row is found by `= 0`. */
  lemma NegatedLiteralIsFound()
    ensures
      var cols := [Column("x", IntType, true, false)];
      var e := Binary(Ident("x"), Eq, Lit(Number("0")));
      var store: seq<I64> := [0];
      && MirrorsInt(store, [[Text("-5")]], 0) && PlanScan(cols, [Some(store)], [None], e) == Some(IntScan(0, ScanEq, 0))
      && Positions(store, (v: I64) => ScanHit(ScanEq, v, 0)) == [0]
      && WherePositions([[Text("-5")]], cols, e) == []
  {
    assert IntText(0) == "0" && DigitsValue("0") == Some(0);
    var cols := [Column("x", IntType, true, false)];
    var e := Binary(Ident("x"), Eq, Lit(Number("0")));
    var store: seq<I64>, rows: seq<Row> := [0], [[Text("-5")]];
    assert Position(cols, "x") == Some(0);
    assert EvalRowExpr(rows[0], cols, e.left) == Text("-5");
    IntCell(ScanEq, Text("-5"), 0);
    PositionsOfNone(rows, (row: Row) => EvalWhere(row, cols, e));
    PositionsOfOne(store, 0, (v: I64) => ScanHit(ScanEq, v, 0));
  }

  /** A number in a text column is missed by its own text. */
  lemma NumberIsMissed()
    ensures
      var cols := [Column("x", TextType, true, false)];
      var e := Binary(Ident("x"), Eq, Lit(SingleQuoted("5")));
      && MirrorsText([""], [[Int(5)]], 0) && PlanScan(cols, [None], [Some([""])], e) == Some(TextScan(0, "5"))
      && Positions([""], (v: string) => v == "5") == []
      && WherePositions([[Int(5)]], cols, e) == [0]
  {
    assert IntText(5) == "5";
    var cols := [Column("x", TextType, true, false)];
    var e := Binary(Ident("x"), Eq, Lit(SingleQuoted("5")));
    var rows: seq<Row> := [[Int(5)]];
    assert Position(cols, "x") == Some(0);
    assert EvalRowExpr(rows[0], cols, e.left) == Int(5);
    ValuesEqIsSameText(Int(5), Text("5"));
    PositionsOfOne(rows, 0, (row: Row) => EvalWhere(row, cols, e));
    PositionsOfNone([""], (v: string) => v == "5");
  }
}
