/** How the three expression evaluators agree, and what LIKE means. */
module Evaluators {
  import opened Numbers
  import opened Sql

  // ----- The scalar evaluator against the filter evaluator -----

  /** Conditions both evaluators read the same way: no NOT, no LIKE, no bare scalar. */
  predicate IsCondition(e: Expr) {
    match e
    case Binary(left, op, right) =>
      op.IsComparison() || ((op == And || op == Or) && IsCondition(left) && IsCondition(right))
    case IsNull(_) => true
    case IsNotNull(_) => true
    case Between(_, _, _, _) => true
    case InList(_, _, _) => true
    case Nested(inner) => IsCondition(inner)
    case _ => false
  }

  lemma {:induction false} RowExprAgreesWithWhere(row: Row, cols: seq<Column>, e: Expr)
    requires IsCondition(e)
    ensures EvalRowExpr(row, cols, e) == Flag(EvalWhere(row, cols, e))
  {
    match e
    case Binary(left, op, right) =>
      if op == And || op == Or {
        RowExprAgreesWithWhere(row, cols, left);
        RowExprAgreesWithWhere(row, cols, right);
      }
    case Nested(inner) => RowExprAgreesWithWhere(row, cols, inner);
    case _ =>
  }

  /** LIKE is read the same way exactly when both sides are texts or the scalar form says 0. */
  lemma LikeAgreesExactly(row: Row, cols: seq<Column>, arg: Expr, pattern: Expr, negated: bool)
    ensures
      var v, p := EvalRowExpr(row, cols, arg), EvalRowExpr(row, cols, pattern);
      EvalRowExpr(row, cols, Like(arg, pattern, negated)) == Flag(EvalWhere(row, cols, Like(arg, pattern, negated)))
      <==> (v.Text? && p.Text?) || negated == LikeText(v, p)
  {
    var v, p := EvalRowExpr(row, cols, arg), EvalRowExpr(row, cols, pattern);
    assert EvalRowExpr(row, cols, Like(arg, pattern, negated)) == Flag(negated != LikeText(v, p));
  }

  /** Conditions that may also use NOT. */
  predicate IsLogical(e: Expr) {
    match e
    case Binary(left, op, right) =>
      op.IsComparison() || ((op == And || op == Or) && IsLogical(left) && IsLogical(right))
    case Unary(uop, arg) => uop == Not && IsLogical(arg)
    case Nested(inner) => IsLogical(inner)
    case _ => IsCondition(e)
  }

  /** A condition no row meets. */
  const FALSE: Expr := InList(Lit(NullLiteral), [], false)

  /** The condition with `FALSE` written for every NOT that is not below another one. */
  function NotAsFalse(e: Expr): Expr {
    match e
    case Binary(left, op, right) => if op == And || op == Or then Binary(NotAsFalse(left), op, NotAsFalse(right)) else e
    case Unary(_, _) => FALSE
    case Nested(inner) => Nested(NotAsFalse(inner))
    case _ => e
  }

  /** The scalar evaluator takes every NOT for false, so the two agree exactly where that makes no difference. */
  lemma {:induction false} NotIsReadAsFalse(row: Row, cols: seq<Column>, e: Expr)
    requires IsLogical(e)
    ensures Truthy(EvalRowExpr(row, cols, e)) <==> EvalWhere(row, cols, NotAsFalse(e))
    ensures Truthy(EvalRowExpr(row, cols, e)) == EvalWhere(row, cols, e)
            <==> EvalWhere(row, cols, NotAsFalse(e)) == EvalWhere(row, cols, e)
  {
    match e
    case Binary(left, op, right) =>
      if op == And || op == Or {
        NotIsReadAsFalse(row, cols, left);
        NotIsReadAsFalse(row, cols, right);
      }
    case Nested(inner) => NotIsReadAsFalse(row, cols, inner);
    case _ =>
  }

  // ----- Prepared filters -----

  function FirstBound(bound: seq<Value>): Value {
    BoundAt(bound, 0)
  }

  /** The literal that denotes a bound parameter. */
  function LiteralOf(v: Value): (lit: Literal)
    ensures LiteralValue(lit) == v
  {
    match v
    case Null => NullLiteral
    case Int(n) => ParseIntText(n); Number(IntText(n))
    case Text(s) => SingleQuoted(s)
  }

  function Substitute(e: Expr, v: Value): Expr {
    match e
    case Lit(lit) => if lit == Placeholder then Lit(LiteralOf(v)) else e
    case Ident(_) => e
    case Compound(_) => e
    case Nested(inner) => Nested(Substitute(inner, v))
    case Unary(uop, arg) => Unary(uop, Substitute(arg, v))
    case Binary(left, op, right) => Binary(Substitute(left, v), op, Substitute(right, v))
    case IsNull(arg) => IsNull(Substitute(arg, v))
    case IsNotNull(arg) => IsNotNull(Substitute(arg, v))
    case Between(arg, low, high, negated) =>
      Between(Substitute(arg, v), Substitute(low, v), Substitute(high, v), negated)
    case InList(arg, list, negated) => InList(Substitute(arg, v), SubstituteAll(list, v), negated)
    case Like(arg, pattern, negated) => Like(Substitute(arg, v), Substitute(pattern, v), negated)
  }

  function SubstituteAll(list: seq<Expr>, v: Value): (r: seq<Expr>)
    ensures |r| == |list|
  {
    if list == [] then [] else [Substitute(list[0], v)] + SubstituteAll(list[1..], v)
  }

  /** Scalars a prepared filter can read: plain columns, literals and placeholders. */
  predicate IsPlain(e: Expr) {
    e.Ident? || (e.Lit? && (e.lit.Number? || e.lit.SingleQuoted? || e.lit == NullLiteral || e.lit == Placeholder))
  }

  predicate HasPlaceholder(e: Expr) {
    match e
    case Lit(lit) => lit == Placeholder
    case Ident(_) => false
    case Compound(_) => false
    case Nested(inner) => HasPlaceholder(inner)
    case Unary(_, arg) => HasPlaceholder(arg)
    case Binary(left, _, right) => HasPlaceholder(left) || HasPlaceholder(right)
    case IsNull(arg) => HasPlaceholder(arg)
    case IsNotNull(arg) => HasPlaceholder(arg)
    case Between(arg, low, high, _) => HasPlaceholder(arg) || HasPlaceholder(low) || HasPlaceholder(high)
    case InList(arg, list, _) => HasPlaceholder(arg) || exists x :: x in list && HasPlaceholder(x)
    case Like(arg, pattern, _) => HasPlaceholder(arg) || HasPlaceholder(pattern)
  }

  /**
   Filters whose placeholders are all within reach of binding. BETWEEN, IN and LIKE
   are handed to the plain evaluator, so they must hold no placeholder.
   */
  predicate IsBindable(e: Expr) {
    match e
    case Binary(left, op, right) =>
      if op == And || op == Or then IsBindable(left) && IsBindable(right)
      else IsPlain(left) && IsPlain(right)
    case Unary(uop, arg) => if uop == Not then IsBindable(arg) else true
    case IsNull(arg) => IsPlain(arg)
    case IsNotNull(arg) => IsPlain(arg)
    case Nested(inner) => IsBindable(inner)
    case _ => !HasPlaceholder(e)
  }

  lemma {:induction false} SubstituteNothing(e: Expr, v: Value)
    requires !HasPlaceholder(e)
    ensures Substitute(e, v) == e
    decreases e, 1
  {
    match e
    case Lit(_) =>
    case Ident(_) =>
    case Compound(_) =>
    case Nested(inner) => SubstituteNothing(inner, v);
    case Unary(_, arg) => SubstituteNothing(arg, v);
    case Binary(left, _, right) => SubstituteNothing(left, v); SubstituteNothing(right, v);
    case IsNull(arg) => SubstituteNothing(arg, v);
    case IsNotNull(arg) => SubstituteNothing(arg, v);
    case Between(arg, low, high, _) =>
      SubstituteNothing(arg, v); SubstituteNothing(low, v); SubstituteNothing(high, v);
    case InList(arg, list, _) => SubstituteNothing(arg, v); SubstituteNothingInAll(list, v);
    case Like(arg, pattern, _) => SubstituteNothing(arg, v); SubstituteNothing(pattern, v);
  }

  lemma {:induction false} SubstituteNothingInAll(list: seq<Expr>, v: Value)
    requires forall x :: x in list ==> !HasPlaceholder(x)
    ensures SubstituteAll(list, v) == list
    decreases list, 0
  {
    if list != [] {
      SubstituteNothing(list[0], v);
      SubstituteNothingInAll(list[1..], v);
    }
  }

  lemma ResolveBoundIsSubstitution(row: Row, cols: seq<Column>, e: Expr, bound: seq<Value>)
    requires IsPlain(e)
    ensures ResolveBound(row, cols, e, bound) == EvalRowExpr(row, cols, Substitute(e, FirstBound(bound)))
  {
  }

  /** A prepared filter means the filter with the first parameter written in for every `?`. */
  lemma {:induction false} BoundFilterIsSubstitution(row: Row, cols: seq<Column>, e: Expr, bound: seq<Value>)
    requires IsBindable(e)
    ensures EvalWhereBound(row, cols, e, bound) == EvalWhere(row, cols, Substitute(e, FirstBound(bound)))
  {
    match e
    case Binary(left, op, right) =>
      if op == And || op == Or {
        BoundFilterIsSubstitution(row, cols, left, bound);
        BoundFilterIsSubstitution(row, cols, right, bound);
      } else {
        ResolveBoundIsSubstitution(row, cols, left, bound);
        ResolveBoundIsSubstitution(row, cols, right, bound);
      }
    case Unary(uop, arg) => if uop == Not { BoundFilterIsSubstitution(row, cols, arg, bound); }
    case IsNull(arg) => ResolveBoundIsSubstitution(row, cols, arg, bound);
    case IsNotNull(arg) => ResolveBoundIsSubstitution(row, cols, arg, bound);
    case Nested(inner) => BoundFilterIsSubstitution(row, cols, inner, bound);
    case _ => SubstituteNothing(e, FirstBound(bound));
  }

  /** Parameters after the first are never read, whatever the filter. */
  lemma {:induction false} OnlyFirstParameterIsRead(row: Row, cols: seq<Column>, e: Expr, a: seq<Value>, b: seq<Value>)
    requires FirstBound(a) == FirstBound(b)
    ensures EvalWhereBound(row, cols, e, a) == EvalWhereBound(row, cols, e, b)
  {
    match e
    case Binary(left, op, right) =>
      if op == And || op == Or {
        OnlyFirstParameterIsRead(row, cols, left, a, b);
        OnlyFirstParameterIsRead(row, cols, right, a, b);
      }
    case Unary(uop, arg) => if uop == Not { OnlyFirstParameterIsRead(row, cols, arg, a, b); }
    case Nested(inner) => OnlyFirstParameterIsRead(row, cols, inner, a, b);
    case _ =>
  }

  /** Bindable filters, and the scalars in them. */
  predicate IsPositional(e: Expr) {
    match e
    case Binary(left, _, right) => IsPositional(left) && IsPositional(right)
    case Unary(uop, arg) => uop == Not && IsPositional(arg)
    case IsNull(arg) => IsPositional(arg)
    case IsNotNull(arg) => IsPositional(arg)
    case Nested(inner) => IsPositional(inner)
    case Lit(_) => true
    case _ => !HasPlaceholder(e)
  }

  /** How many placeholders such an expression holds. */
  function PlaceholderCount(e: Expr): nat {
    match e
    case Lit(lit) => if lit == Placeholder then 1 else 0
    case Nested(inner) => PlaceholderCount(inner)
    case Unary(_, arg) => PlaceholderCount(arg)
    case Binary(left, _, right) => PlaceholderCount(left) + PlaceholderCount(right)
    case IsNull(arg) => PlaceholderCount(arg)
    case IsNotNull(arg) => PlaceholderCount(arg)
    case _ => 0
  }

  /** The placeholders replaced as a prepared statement promises: each one by the next parameter, from `from` on. */
  function Positional(e: Expr, bound: seq<Value>, from: nat): Expr {
    match e
    case Lit(lit) => if lit == Placeholder then Lit(LiteralOf(BoundAt(bound, from))) else e
    case Nested(inner) => Nested(Positional(inner, bound, from))
    case Unary(uop, arg) => Unary(uop, Positional(arg, bound, from))
    case Binary(left, op, right) =>
      Binary(Positional(left, bound, from), op, Positional(right, bound, from + PlaceholderCount(left)))
    case IsNull(arg) => IsNull(Positional(arg, bound, from))
    case IsNotNull(arg) => IsNotNull(Positional(arg, bound, from))
    case _ => e
  }

  /** Parameters `from` up to `to` all equal the first one. */
  predicate AllLikeFirst(bound: seq<Value>, from: nat, to: nat) {
    forall i :: from <= i < to ==> BoundAt(bound, i) == FirstBound(bound)
  }

  lemma OneLikeFirst(bound: seq<Value>, i: nat)
    ensures LiteralOf(BoundAt(bound, i)) == LiteralOf(FirstBound(bound)) <==> AllLikeFirst(bound, i, i + 1)
  {
    assert LiteralValue(LiteralOf(BoundAt(bound, i))) == BoundAt(bound, i);
    assert LiteralValue(LiteralOf(FirstBound(bound))) == FirstBound(bound);
  }

  lemma LikeFirstInParts(bound: seq<Value>, from: nat, mid: nat, to: nat)
    requires from <= mid <= to
    ensures AllLikeFirst(bound, from, to) <==> AllLikeFirst(bound, from, mid) && AllLikeFirst(bound, mid, to)
  {
  }

  /** Writing the first parameter for every placeholder is right if and only if all those it stands for equal it. */
  lemma {:induction false} PositionalExactly(e: Expr, bound: seq<Value>, from: nat)
    requires IsPositional(e)
    ensures Positional(e, bound, from) == Substitute(e, FirstBound(bound))
            <==> AllLikeFirst(bound, from, from + PlaceholderCount(e))
  {
    match e
    case Lit(_) => OneLikeFirst(bound, from);
    case Binary(left, _, right) =>
      PositionalExactly(left, bound, from);
      PositionalExactly(right, bound, from + PlaceholderCount(left));
      LikeFirstInParts(bound, from, from + PlaceholderCount(left), from + PlaceholderCount(e));
    case Unary(_, arg) => PositionalExactly(arg, bound, from);
    case IsNull(arg) => PositionalExactly(arg, bound, from);
    case IsNotNull(arg) => PositionalExactly(arg, bound, from);
    case Nested(inner) => PositionalExactly(inner, bound, from);
    case _ => SubstituteNothing(e, FirstBound(bound));
  }

  /** So a prepared filter means what its parameters say by position whenever those it uses are all the same. */
  lemma PositionalFilter(row: Row, cols: seq<Column>, e: Expr, bound: seq<Value>)
    requires IsBindable(e) && IsPositional(e) && AllLikeFirst(bound, 0, PlaceholderCount(e))
    ensures EvalWhereBound(row, cols, e, bound) == EvalWhere(row, cols, Positional(e, bound, 0))
  {
    PositionalExactly(e, bound, 0);
    BoundFilterIsSubstitution(row, cols, e, bound);
  }

  /** `a = ? AND b = ?` bound to 1 and 2 rejects the row (1, 2) and accepts (1, 1). */
  lemma SecondPlaceholderReadsFirstParameter()
    ensures
      var cols := [Column("a", IntType, true, false), Column("b", IntType, true, false)];
      var e := Binary(Binary(Ident("a"), Eq, Lit(Placeholder)), And, Binary(Ident("b"), Eq, Lit(Placeholder)));
      && !EvalWhereBound([Int(1), Int(2)], cols, e, [Int(1), Int(2)])
      && EvalWhereBound([Int(1), Int(1)], cols, e, [Int(1), Int(2)])
  {
    var cols := [Column("a", IntType, true, false), Column("b", IntType, true, false)];
    assert Lower("a")[0] != Lower("b")[0];
    assert Position(cols, "a") == Some(0) && Position(cols, "b") == Some(1);
  }

  // ----- LIKE -----

  predicate PieceFits(symbol: char, piece: string) {
    symbol == '%' || (|piece| == 1 && (symbol == '_' || LowerChar(symbol) == LowerChar(piece[0])))
  }

  predicate FitsBetween(symbol: char, v: string, lo: nat, hi: nat) {
    lo <= hi <= |v| && PieceFits(symbol, v[lo..hi])
  }

  /** `cuts` divides `v` into one consecutive piece for each symbol of `p`. */
  ghost predicate IsCut(v: string, p: string, cuts: seq<nat>) {
    && |cuts| == |p| + 1
    && cuts[0] == 0 && cuts[|p|] == |v|
    && forall k :: 0 <= k < |p| ==> FitsBetween(p[k], v, cuts[k], cuts[k + 1])
  }

  lemma PieceAt(v: string, p: string, cuts: seq<nat>, k: nat)
    requires IsCut(v, p, cuts) && k < |p|
    ensures FitsBetween(p[k], v, cuts[k], cuts[k + 1])
  {
  }

  /** A cut of the rest, moved past a first piece that fits, is a cut of the whole. */
  lemma CutShift(v: string, p: string, i: nat, rest: seq<nat>) returns (cuts: seq<nat>)
    requires p != "" && FitsBetween(p[0], v, 0, i) && IsCut(v[i..], p[1..], rest)
    ensures IsCut(v, p, cuts)
  {
    var shifted: seq<nat> := seq(|rest|, k requires 0 <= k < |rest| => rest[k] + i);
    cuts := [0] + shifted;
    forall k | 0 <= k < |p|
      ensures FitsBetween(p[k], v, cuts[k], cuts[k + 1])
    {
      if k > 0 {
        PieceAt(v[i..], p[1..], rest, k - 1);
        assert v[rest[k - 1] + i..rest[k] + i] == v[i..][rest[k - 1]..rest[k]];
      }
    }
  }

  lemma {:induction false} LikeMatchFindsCut(v: string, p: string) returns (cuts: seq<nat>)
    requires LikeMatch(v, p)
    ensures IsCut(v, p, cuts)
    decreases |p|
  {
    if p == "" {
      cuts := [0];
    } else {
      var i: nat := 1;
      if p[0] == '%' {
        i :| 0 <= i <= |v| && LikeMatch(v[i..], p[1..]);
      }
      var rest := LikeMatchFindsCut(v[i..], p[1..]);
      cuts := CutShift(v, p, i, rest);
    }
  }

  lemma {:induction false} CutMakesLikeMatch(v: string, p: string, cuts: seq<nat>)
    requires IsCut(v, p, cuts)
    ensures LikeMatch(v, p)
    decreases |p|
  {
    if p != "" {
      var i := cuts[1];
      assert FitsBetween(p[0], v, cuts[0], cuts[1]);
      var rest := seq(|p|, k requires 0 <= k < |p| => if cuts[k + 1] >= i then cuts[k + 1] - i else 0);
      CutsIncrease(v, p, cuts, 1);
      forall k | 0 <= k < |p| - 1
        ensures FitsBetween(p[1..][k], v[i..], rest[k], rest[k + 1])
      {
        assert FitsBetween(p[k + 1], v, cuts[k + 1], cuts[k + 2]);
        assert v[i..][rest[k]..rest[k + 1]] == v[cuts[k + 1]..cuts[k + 2]];
      }
      CutMakesLikeMatch(v[i..], p[1..], rest);
    }
  }

  lemma {:induction false} CutsIncrease(v: string, p: string, cuts: seq<nat>, from: nat)
    requires IsCut(v, p, cuts) && from <= |p|
    ensures forall k :: from <= k <= |p| ==> cuts[from] <= cuts[k]
    decreases |p| - from
  {
    if from < |p| {
      CutsIncrease(v, p, cuts, from + 1);
    }
  }

  /** A text matches exactly when it can be cut into pieces that fit the symbols one by one. */
  lemma LikeMatchIsCutting(v: string, p: string)
    ensures LikeMatch(v, p) <==> exists cuts :: IsCut(v, p, cuts)
  {
    if LikeMatch(v, p) {
      var cuts := LikeMatchFindsCut(v, p);
    }
    if cuts :| IsCut(v, p, cuts) {
      CutMakesLikeMatch(v, p, cuts);
    }
  }

  /** Matching a concatenated pattern means splitting the text so that each half matches. */
  lemma {:induction false} LikeMatchConcat(v: string, p: string, q: string)
    ensures LikeMatch(v, p + q) <==> exists i :: 0 <= i <= |v| && LikeMatch(v[..i], p) && LikeMatch(v[i..], q)
    decreases |p|
  {
    if p == "" {
      assert p + q == q && v[..0] == "" && v[0..] == v;
    } else {
      assert (p + q)[1..] == p[1..] + q;
      forall j | 0 <= j <= |v|
        ensures LikeMatch(v[j..], p[1..] + q) <==>
                exists i :: j <= i <= |v| && LikeMatch(v[..i][j..], p[1..]) && LikeMatch(v[i..], q)
      {
        LikeMatchConcat(v[j..], p[1..], q);
        SplitShift(v, j, p[1..], q);
      }
      if p[0] == '%' {
        PercentConcat(v, p, q);
      } else if v != "" {
        assert LikeMatch(v[1..], p[1..] + q) <==>
               exists i :: 1 <= i <= |v| && LikeMatch(v[..i][1..], p[1..]) && LikeMatch(v[i..], q);
        forall i | 0 <= i <= |v| && LikeMatch(v[..i], p)
          ensures 1 <= i && LikeMatch(v[..i][1..], p[1..])
        {
        }
      }
    }
  }

  lemma PercentConcat(v: string, p: string, q: string)
    requires p != "" && p[0] == '%'
    requires forall j :: 0 <= j <= |v| ==>
      (LikeMatch(v[j..], p[1..] + q)
       <==> exists i :: j <= i <= |v| && LikeMatch(v[..i][j..], p[1..]) && LikeMatch(v[i..], q))
    ensures LikeMatch(v, p + q) <==> exists i :: 0 <= i <= |v| && LikeMatch(v[..i], p) && LikeMatch(v[i..], q)
  {
    assert (p + q)[1..] == p[1..] + q;
    if LikeMatch(v, p + q) {
      var j :| 0 <= j <= |v| && LikeMatch(v[j..], p[1..] + q);
      var i :| j <= i <= |v| && LikeMatch(v[..i][j..], p[1..]) && LikeMatch(v[i..], q);
      assert LikeMatch(v[..i], p);
    }
    if i :| 0 <= i <= |v| && LikeMatch(v[..i], p) && LikeMatch(v[i..], q) {
      var j :| 0 <= j <= i && LikeMatch(v[..i][j..], p[1..]);
      assert LikeMatch(v[j..], p[1..] + q);
    }
  }

  lemma SplitShift(v: string, j: nat, p: string, q: string)
    requires j <= |v|
    ensures (exists i :: 0 <= i <= |v[j..]| && LikeMatch(v[j..][..i], p) && LikeMatch(v[j..][i..], q))
            <==> (exists i :: j <= i <= |v| && LikeMatch(v[..i][j..], p) && LikeMatch(v[i..], q))
  {
    if i :| 0 <= i <= |v[j..]| && LikeMatch(v[j..][..i], p) && LikeMatch(v[j..][i..], q) {
      assert v[j..][..i] == v[..i + j][j..] && v[j..][i..] == v[i + j..];
      assert LikeMatch(v[..i + j][j..], p) && LikeMatch(v[i + j..], q);
    }
    if i :| j <= i <= |v| && LikeMatch(v[..i][j..], p) && LikeMatch(v[i..], q) {
      assert v[j..][..i - j] == v[..i][j..] && v[j..][i - j..] == v[i..];
      assert LikeMatch(v[j..][..i - j], p) && LikeMatch(v[j..][i - j..], q);
    }
  }

  lemma PercentMatchesAll(v: string)
    ensures LikeMatch(v, "%") && LikeMatch(v, "%%")
  {
    assert v[|v|..] == "";
    assert LikeMatch(v[|v|..], "");
    assert "%"[1..] == "" && "%%"[1..] == "%";
    assert LikeMatch(v[0..], "%") by { assert v[0..] == v; }
  }

  /** Doubling a `%` changes nothing. */
  lemma DoubledPercent(v: string, p: string, q: string)
    ensures LikeMatch(v, p + ("%%" + q)) == LikeMatch(v, p + ("%" + q))
  {
    LikeMatchConcat(v, p, "%%" + q);
    LikeMatchConcat(v, p, "%" + q);
    forall i | 0 <= i <= |v|
      ensures LikeMatch(v[i..], "%%" + q) == LikeMatch(v[i..], "%" + q)
    {
      LikeMatchConcat(v[i..], "%%", q);
      LikeMatchConcat(v[i..], "%", q);
      forall j | 0 <= j <= |v[i..]| { PercentMatchesAll(v[i..][..j]); }
    }
  }
}
