/** Values, columns, filter expressions and the three expression evaluators. */
module Sql {
  import opened Numbers
  import opened Texts
  import opened Comparison

  datatype Value = Null | Int(n: I64) | Text(s: string) {
    /** The text sent to the client; `None` is SQL NULL. */
    function ToDisplay(): Option<string> {
      match this
      case Null => None
      case Int(n) => Some(IntText(n))
      case Text(s) => Some(s)
    }

    function DisplayOrEmpty(): string {
      match this
      case Null => ""
      case Int(n) => IntText(n)
      case Text(s) => s
    }
  }

  type Row = seq<Value>

  datatype ColumnType = IntType | BigIntType | FloatType | VarCharType(length: nat) | TextType | BlobType
      | TimestampType {
    predicate IsInt() { IntType? || BigIntType? }
    predicate IsText() { VarCharType? || TextType? }
  }

  datatype Column = Column(name: string, colType: ColumnType, nullable: bool, primaryKey: bool)

  // ----- Expressions -----

  /** The text of a number token that fits an `i64`; `007` and `+7` are such texts too. */
  type WholeNumber = s: string | ParseI64(s).Some? witness "0"

  /** `shown` is how the parser prints the token back. */
  datatype Literal =
    | Number(text: WholeNumber)
    | SingleQuoted(s: string)
    | DoubleQuoted(s: string, shown: string)
    | NullLiteral
    | Placeholder
    | OtherLiteral(shown: string)

  datatype UnaryOp = Not | Minus | Plus | OtherUnary

  datatype BinaryOp = Eq | NotEq | Lt | LtEq | Gt | GtEq | And | Or | Xor | Add | Subtract | Multiply {
    predicate IsComparison() { Eq? || NotEq? || Lt? || LtEq? || Gt? || GtEq? }
  }

  datatype Expr =
    | Lit(lit: Literal)
    | Ident(name: string)
    | Compound(parts: seq<string>)
    | Nested(inner: Expr)
    | Unary(uop: UnaryOp, arg: Expr)
    | Binary(left: Expr, op: BinaryOp, right: Expr)
    | IsNull(arg: Expr)
    | IsNotNull(arg: Expr)
    | Between(arg: Expr, low: Expr, high: Expr, negated: bool)
    | InList(arg: Expr, list: seq<Expr>, negated: bool)
    | Like(arg: Expr, pattern: Expr, negated: bool)

  function LowerChar(c: char): char {
    if 'A' <= c <= 'Z' then 'a' + (c - 'A') else c
  }

  function Lower(s: string): (r: string)
    ensures |r| == |s|
  {
    seq(|s|, i requires 0 <= i < |s| => LowerChar(s[i]))
  }

  predicate SameName(a: string, b: string) {
    Lower(a) == Lower(b)
  }

  /** Position of the first column of that name, ASCII case ignored. */
  function Position(cols: seq<Column>, name: string): (r: Option<nat>)
    ensures r.Some? ==> r.value < |cols| && SameName(cols[r.value].name, name)
    ensures r.Some? ==> forall i :: 0 <= i < r.value ==> !SameName(cols[i].name, name)
    ensures r.None? ==> forall i :: 0 <= i < |cols| ==> !SameName(cols[i].name, name)
  {
    PositionFrom(cols, name, 0)
  }

  function PositionFrom(cols: seq<Column>, name: string, from: nat): (r: Option<nat>)
    requires from <= |cols|
    ensures r.Some? ==> from <= r.value < |cols| && SameName(cols[r.value].name, name)
    ensures r.Some? ==> forall i :: from <= i < r.value ==> !SameName(cols[i].name, name)
    ensures r.None? ==> forall i :: from <= i < |cols| ==> !SameName(cols[i].name, name)
    decreases |cols| - from
  {
    if from == |cols| then None
    else if SameName(cols[from].name, name) then Some(from)
    else PositionFrom(cols, name, from + 1)
  }

  /** The column a name expression denotes; a qualified name is first tried as a whole. */
  function Resolve(cols: seq<Column>, e: Expr): (r: Option<nat>)
    ensures r.Some? ==> r.value < |cols|
  {
    match e
    case Ident(name) => Position(cols, name)
    case Compound(parts) =>
      if parts == [] then None
      else
        var whole := Position(cols, Joined(parts, "."));
        if whole.Some? then whole else Position(cols, parts[|parts| - 1])
    case _ => None
  }

  function Cell(row: Row, at: Option<nat>): Value {
    if at.Some? && at.value < |row| then row[at.value] else Null
  }

  // ----- Value comparison -----

  function ValuesCmp(a: Value, b: Value): Ordering {
    match (a, b)
    case (Int(x), Int(y)) => IntCmp(x, y)
    case (Text(x), Text(y)) => StrCmp(x, y)
    case (Null, Null) => Equal
    case (Null, _) => Less
    case (_, Null) => Greater
    case _ => StrCmp(a.DisplayOrEmpty(), b.DisplayOrEmpty())
  }

  predicate ValuesEq(a: Value, b: Value) {
    a != Null && b != Null && ValuesCmp(a, b) == Equal
  }

  predicate Compare(op: BinaryOp, l: Value, r: Value)
    requires op.IsComparison()
  {
    match op
    case Eq => ValuesEq(l, r)
    case NotEq => !ValuesEq(l, r)
    case Lt => ValuesCmp(l, r) == Less
    case LtEq => ValuesCmp(l, r) != Greater
    case Gt => ValuesCmp(l, r) == Greater
    case GtEq => ValuesCmp(l, r) != Less
  }

  /** Two present values are equal exactly when they are shown the same. */
  lemma ValuesEqIsSameText(a: Value, b: Value)
    ensures ValuesEq(a, b) <==> a != Null && b != Null && a.DisplayOrEmpty() == b.DisplayOrEmpty()
  {
    StrCmpEqual(a.DisplayOrEmpty(), b.DisplayOrEmpty());
    if a.Int? && b.Int? {
      IntTextInjective(a.n, b.n);
    }
  }

  // ----- LIKE -----

  /** `%` stands for any run of characters, `_` for one, anything else for itself, case ignored. */
  predicate LikeMatch(v: string, p: string)
    decreases |p|
  {
    if p == "" then v == ""
    else if p[0] == '%' then exists i :: 0 <= i <= |v| && LikeMatch(v[i..], p[1..])
    else if p[0] == '_' then v != "" && LikeMatch(v[1..], p[1..])
    else v != "" && LowerChar(p[0]) == LowerChar(v[0]) && LikeMatch(v[1..], p[1..])
  }

  // ----- Evaluators -----

  function LiteralValue(lit: Literal): Value {
    match lit
    case Number(text) => Int(ParseI64(text).value)
    case SingleQuoted(s) => Text(s)
    case NullLiteral => Null
    case DoubleQuoted(_, shown) => Text(shown)
    case Placeholder => Text("?")
    case OtherLiteral(shown) => Text(shown)
  }

  function Flag(b: bool): Value {
    Int(if b then 1 else 0)
  }

  predicate Truthy(v: Value) {
    match v
    case Int(n) => n != 0
    case Text(s) => s != "" && s != "0"
    case Null => false
  }

  function LikeText(v: Value, p: Value): bool {
    v != Null && p != Null && LikeMatch(v.DisplayOrEmpty(), p.DisplayOrEmpty())
  }

  function InRange(v: Value, low: Value, high: Value): bool {
    ValuesCmp(v, low) != Less && ValuesCmp(v, high) != Greater
  }

  function Arithmetic(op: BinaryOp, l: Value, r: Value): Value {
    match (l, r)
    case (Int(a), Int(b)) =>
      (match op
       case Add => Int(Wrap(a + b))
       case Subtract => Int(Wrap(a - b))
       case Multiply => Int(Wrap(a * b))
       case _ => Null)
    case (Text(a), Text(b)) => if op == Add then Text(a + b) else Null
    case _ => Null
  }

  /** The value of an expression on one row. */
  function EvalRowExpr(row: Row, cols: seq<Column>, e: Expr): Value {
    match e
    case Lit(lit) => LiteralValue(lit)
    case Ident(_) => Cell(row, Resolve(cols, e))
    case Compound(_) => Cell(row, Resolve(cols, e))
    case Nested(inner) => EvalRowExpr(row, cols, inner)
    case Unary(uop, arg) =>
      var v := EvalRowExpr(row, cols, arg);
      if uop == Minus then (if v.Int? then Int(Wrap(0 - v.n)) else Null)
      else if uop == Plus then v else Null
    case Binary(left, op, right) =>
      var l := EvalRowExpr(row, cols, left);
      var r := EvalRowExpr(row, cols, right);
      if op.IsComparison() then Flag(Compare(op, l, r))
      else if op == And then Flag(Truthy(l) && Truthy(r))
      else if op == Or then Flag(Truthy(l) || Truthy(r))
      else if op == Xor then Flag((l.Int? && l.n != 0) != (r.Int? && r.n != 0))
      else Arithmetic(op, l, r)
    case IsNull(arg) => Flag(EvalRowExpr(row, cols, arg) == Null)
    case IsNotNull(arg) => Flag(EvalRowExpr(row, cols, arg) != Null)
    case Between(arg, low, high, negated) =>
      Flag(negated != InRange(EvalRowExpr(row, cols, arg), EvalRowExpr(row, cols, low), EvalRowExpr(row, cols, high)))
    case InList(arg, list, negated) =>
      var v := EvalRowExpr(row, cols, arg);
      Flag(negated != exists i :: 0 <= i < |list| && ValuesEq(v, EvalRowExpr(row, cols, list[i])))
    case Like(arg, pattern, negated) =>
      Flag(negated != LikeText(EvalRowExpr(row, cols, arg), EvalRowExpr(row, cols, pattern)))
  }

  /** Whether a row passes a filter. An expression that is no condition passes every row. */
  predicate EvalWhere(row: Row, cols: seq<Column>, e: Expr) {
    match e
    case Binary(left, op, right) =>
      if op == And then EvalWhere(row, cols, left) && EvalWhere(row, cols, right)
      else if op == Or then EvalWhere(row, cols, left) || EvalWhere(row, cols, right)
      else if op.IsComparison() then Compare(op, EvalRowExpr(row, cols, left), EvalRowExpr(row, cols, right))
      else true
    case IsNull(arg) => EvalRowExpr(row, cols, arg) == Null
    case IsNotNull(arg) => EvalRowExpr(row, cols, arg) != Null
    case Like(arg, pattern, negated) =>
      var v := EvalRowExpr(row, cols, arg);
      var p := EvalRowExpr(row, cols, pattern);
      v.Text? && p.Text? && negated != LikeMatch(v.s, p.s)
    case Nested(inner) => EvalWhere(row, cols, inner)
    case Unary(uop, arg) => if uop == Not then !EvalWhere(row, cols, arg) else true
    case Between(arg, low, high, negated) =>
      negated != InRange(EvalRowExpr(row, cols, arg), EvalRowExpr(row, cols, low), EvalRowExpr(row, cols, high))
    case InList(arg, list, negated) =>
      var v := EvalRowExpr(row, cols, arg);
      negated != exists i :: 0 <= i < |list| && ValuesEq(v, EvalRowExpr(row, cols, list[i]))
    case _ => true
  }

  /** Parameter `i` of a prepared statement; a missing one is NULL. */
  function BoundAt(bound: seq<Value>, i: nat): Value {
    if i < |bound| then bound[i] else Null
  }

  /** A scalar of a prepared filter: every placeholder reads the first bound parameter. */
  function ResolveBound(row: Row, cols: seq<Column>, e: Expr, bound: seq<Value>): Value {
    match e
    case Lit(Placeholder) => if bound == [] then Null else bound[0]
    case Lit(Number(text)) => Int(ParseI64(text).value)
    case Lit(SingleQuoted(s)) => Text(s)
    case Lit(DoubleQuoted(s, _)) => Text(s)
    case Ident(name) => Cell(row, Position(cols, name))
    case _ => Null
  }

  /** Whether a row passes a prepared filter. */
  predicate EvalWhereBound(row: Row, cols: seq<Column>, e: Expr, bound: seq<Value>) {
    match e
    case Binary(left, op, right) =>
      if op == And then EvalWhereBound(row, cols, left, bound) && EvalWhereBound(row, cols, right, bound)
      else if op == Or then EvalWhereBound(row, cols, left, bound) || EvalWhereBound(row, cols, right, bound)
      else if op.IsComparison() then
        Compare(op, ResolveBound(row, cols, left, bound), ResolveBound(row, cols, right, bound))
      else true
    case Unary(Not, arg) => !EvalWhereBound(row, cols, arg, bound)
    case IsNull(arg) => ResolveBound(row, cols, arg, bound) == Null
    case IsNotNull(arg) => ResolveBound(row, cols, arg, bound) != Null
    case Nested(inner) => EvalWhereBound(row, cols, inner, bound)
    case other => EvalWhere(row, cols, other)
  }
}
