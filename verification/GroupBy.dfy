/** GROUP BY through an ordered map, and its aggregates against the ungrouped ones. */
module GroupBy {
  import opened Numbers
  import opened Comparison
  import opened Sql
  import opened Seqs

  type Key = seq<Option<string>>

  datatype Group = Group(key: Key, rows: seq<Row>)

  function KeyOf(row: Row, keyCols: seq<nat>): Key {
    seq(|keyCols|, i requires 0 <= i < |keyCols| => Cell(row, Some(keyCols[i])).ToDisplay())
  }

  // ----- The order of the keys -----

  function OptionCmp(a: Option<string>, b: Option<string>): Ordering {
    match (a, b)
    case (None, None) => Equal
    case (None, _) => Less
    case (_, None) => Greater
    case (Some(x), Some(y)) => StrCmp(x, y)
  }

  function KeyCmp(a: Key, b: Key): Ordering {
    if a == [] && b == [] then Equal
    else if a == [] then Less
    else if b == [] then Greater
    else
      var c := OptionCmp(a[0], b[0]);
      if c != Equal then c else KeyCmp(a[1..], b[1..])
  }

  lemma {:induction false} KeyCmpEqual(a: Key, b: Key)
    ensures KeyCmp(a, b) == Equal <==> a == b
  {
    if a != [] && b != [] {
      if a[0].Some? && b[0].Some? { StrCmpEqual(a[0].value, b[0].value); }
      KeyCmpEqual(a[1..], b[1..]);
      assert a == [a[0]] + a[1..] && b == [b[0]] + b[1..];
    }
  }

  lemma {:induction false} KeyCmpReverse(a: Key, b: Key)
    ensures KeyCmp(b, a) == KeyCmp(a, b).Reverse()
  {
    if a != [] && b != [] {
      if a[0].Some? && b[0].Some? { StrCmpReverse(a[0].value, b[0].value); }
      KeyCmpReverse(a[1..], b[1..]);
    }
  }

  lemma OptionCmpTransitive(a: Option<string>, b: Option<string>, c: Option<string>)
    requires OptionCmp(a, b) != Greater && OptionCmp(b, c) != Greater
    ensures OptionCmp(a, c) != Greater
    ensures OptionCmp(a, c) == Equal ==> OptionCmp(a, b) == OptionCmp(b, c) == Equal
  {
    if a.Some? && b.Some? && c.Some? {
      StrCmpTransitive(a.value, b.value, c.value);
    }
  }

  lemma {:induction false} KeyCmpTransitive(a: Key, b: Key, c: Key)
    requires KeyCmp(a, b) == Less && KeyCmp(b, c) == Less
    ensures KeyCmp(a, c) == Less
  {
    if a != [] && b != [] && c != [] {
      OptionCmpTransitive(a[0], b[0], c[0]);
      if OptionCmp(a[0], b[0]) == Equal && OptionCmp(b[0], c[0]) == Equal {
        OptionEqual(a[0], b[0]);
        OptionEqual(b[0], c[0]);
        KeyCmpTransitive(a[1..], b[1..], c[1..]);
      }
    }
  }

  lemma OptionEqual(a: Option<string>, b: Option<string>)
    ensures OptionCmp(a, b) == Equal <==> a == b
    ensures OptionCmp(a, a) == Equal
  {
    if a.Some? { StrCmpEqual(a.value, a.value); }
    if a.Some? && b.Some? { StrCmpEqual(a.value, b.value); }
  }

  // ----- Filing rows into groups -----

  /** entry(key).or_default().push(row) in a map kept in key order. */
  function File(groups: seq<Group>, key: Key, row: Row): (r: seq<Group>)
    ensures r != []
  {
    if groups == [] then [Group(key, [row])]
    else
      match KeyCmp(key, groups[0].key)
      case Less => [Group(key, [row])] + groups
      case Equal => [Group(groups[0].key, groups[0].rows + [row])] + groups[1..]
      case Greater => [groups[0]] + File(groups[1..], key, row)
  }

  ghost predicate Ascending(groups: seq<Group>) {
    forall i, j :: 0 <= i < j < |groups| ==> KeyCmp(groups[i].key, groups[j].key) == Less
  }

  /** Each group holds exactly the rows with its key, in their order, and every row's key has a group. */
  ghost predicate IsGrouping(groups: seq<Group>, rows: seq<Row>, keyCols: seq<nat>) {
    && Ascending(groups)
    && (forall g :: g in groups ==> g.rows != [] && g.rows == Filter(rows, (row: Row) => KeyOf(row, keyCols) == g.key))
    && (forall row :: row in rows ==> exists g :: g in groups && g.key == KeyOf(row, keyCols))
  }

  method GroupRows(rows: seq<Row>, keyCols: seq<nat>) returns (groups: seq<Group>)
    ensures IsGrouping(groups, rows, keyCols)
    ensures groups == Grouped(rows, keyCols)
  {
    groups := [];
    for i := 0 to |rows|
      invariant groups == Grouped(rows[..i], keyCols)
    {
      assert rows[..i + 1][..i] == rows[..i];
      groups := File(groups, KeyOf(rows[i], keyCols), rows[i]);
    }
    assert rows[..|rows|] == rows;
    GroupedIsGrouping(rows, keyCols);
  }

  function Grouped(rows: seq<Row>, keyCols: seq<nat>): seq<Group> {
    if rows == [] then []
    else File(Grouped(rows[..|rows| - 1], keyCols), KeyOf(rows[|rows| - 1], keyCols), rows[|rows| - 1])
  }

  lemma {:induction false} FileKeepsOrder(groups: seq<Group>, key: Key, row: Row)
    requires Ascending(groups)
    ensures Ascending(File(groups, key, row))
    ensures forall g :: g in File(groups, key, row) ==> g.key == key || exists f :: f in groups && f.key == g.key
  {
    var r := File(groups, key, row);
    if groups != [] {
      var head := groups[0];
      assert forall i :: 1 <= i < |groups| ==> KeyCmp(head.key, groups[i].key) == Less;
      KeyCmpReverse(key, head.key);
      match KeyCmp(key, head.key)
      case Less =>
        forall i | 1 <= i < |groups| { KeyCmpTransitive(key, head.key, groups[i].key); }
      case Equal =>
      case Greater =>
        FileKeepsOrder(groups[1..], key, row);
        var tail := File(groups[1..], key, row);
        forall j | 0 <= j < |tail|
          ensures KeyCmp(head.key, tail[j].key) == Less
        {
          assert tail[j] in tail;
          if tail[j].key != key {
            var f :| f in groups[1..] && f.key == tail[j].key;
          }
        }
    }
  }

  /** What filing does to the group of each key. */
  lemma {:induction false} FileExactly(groups: seq<Group>, key: Key, row: Row)
    requires Ascending(groups)
    ensures exists g :: g in File(groups, key, row) && g.key == key
    ensures forall g :: g in groups && g.key != key ==> g in File(groups, key, row)
    ensures forall g :: g in File(groups, key, row) ==>
      if g.key != key then g in groups
      else (g.rows == [row] && forall f :: f in groups ==> f.key != key)
           || exists f :: f in groups && f.key == key && g.rows == f.rows + [row]
  {
    var r := File(groups, key, row);
    if groups == [] {
      assert r[0] in r;
    } else {
      var head := groups[0];
      KeyCmpEqual(key, head.key);
      KeyCmpReverse(key, head.key);
      assert head in groups && groups == [head] + groups[1..];
      match KeyCmp(key, head.key)
      case Less =>
        assert r[0] in r;
        forall i | 0 <= i < |groups|
          ensures groups[i].key != key
        {
          if i > 0 { KeyCmpTransitive(key, head.key, groups[i].key); }
          KeyCmpEqual(key, groups[i].key);
        }
      case Equal =>
        assert r[0] in r;
        forall i | 1 <= i < |groups|
          ensures groups[i].key != key
        {
          KeyCmpEqual(head.key, groups[i].key);
        }
      case Greater =>
        FileExactly(groups[1..], key, row);
    }
  }

  lemma {:induction false} GroupedIsGrouping(rows: seq<Row>, keyCols: seq<nat>)
    ensures IsGrouping(Grouped(rows, keyCols), rows, keyCols)
  {
    if rows != [] {
      var front, last := rows[..|rows| - 1], rows[|rows| - 1];
      GroupedIsGrouping(front, keyCols);
      FilingExtends(Grouped(front, keyCols), front, last, keyCols);
      assert rows == front + [last];
    }
  }

  lemma FilingExtends(groups: seq<Group>, rows: seq<Row>, row: Row, keyCols: seq<nat>)
    requires IsGrouping(groups, rows, keyCols)
    ensures IsGrouping(File(groups, KeyOf(row, keyCols), row), rows + [row], keyCols)
  {
    var key := KeyOf(row, keyCols);
    var r := File(groups, key, row);
    FileKeepsOrder(groups, key, row);
    FileExactly(groups, key, row);
    forall g | g in r
      ensures g.rows != [] && g.rows == Filter(rows + [row], (x: Row) => KeyOf(x, keyCols) == g.key)
    {
      if g.key == key && (forall f :: f in groups ==> f.key != key) {
        forall i | 0 <= i < |rows|
          ensures KeyOf(rows[i], keyCols) != key
        {
          assert rows[i] in rows;
        }
        FilterNone(rows, (x: Row) => KeyOf(x, keyCols) == g.key);
      }
    }
    forall x | x in rows + [row]
      ensures exists g :: g in r && g.key == KeyOf(x, keyCols)
    {
      if x in rows && KeyOf(x, keyCols) != key {
        var g :| g in groups && g.key == KeyOf(x, keyCols);
        assert g in r;
      }
    }
  }

  // ----- Aggregates -----

  function IntAt(row: Row, ci: nat): Option<I64> {
    var v := Cell(row, Some(ci));
    if v.Int? then Some(v.n) else None
  }

  /** Sum of the integers in a column, without overflow. */
  function Total(rows: seq<Row>, ci: nat): int {
    if rows == [] then 0
    else Total(rows[..|rows| - 1], ci) + (var n := IntAt(rows[|rows| - 1], ci); if n.Some? then n.value else 0)
  }

  /** SUM as the release build computes it: 64-bit addition wraps around. */
  function Sum(rows: seq<Row>, ci: nat): I64 {
    Wrap(Total(rows, ci))
  }

  /** The larger or the smaller of two, absent values giving way. */
  function Pick(a: Option<I64>, b: Option<I64>, largest: bool): Option<I64> {
    if a.None? then b else if b.None? then a
    else if (a.value >= b.value) == largest then a else b
  }

  /** MAX or MIN of the integers in a column; `None` when there are none. */
  function Extreme(rows: seq<Row>, ci: nat, largest: bool): Option<I64> {
    if rows == [] then None else Pick(Extreme(rows[..|rows| - 1], ci, largest), IntAt(rows[|rows| - 1], ci), largest)
  }

  /** `Extreme` is a bound of the column's integers and one of them. */
  lemma {:induction false} ExtremeIsExtreme(rows: seq<Row>, ci: nat, largest: bool)
    ensures
      var m := Extreme(rows, ci, largest);
      && (m.None? <==> forall row :: row in rows ==> IntAt(row, ci).None?)
      && (m.Some? ==> exists row :: row in rows && IntAt(row, ci) == m)
      && (forall row :: row in rows && IntAt(row, ci).Some? ==>
           (if largest then IntAt(row, ci).value <= m.value else m.value <= IntAt(row, ci).value))
  {
    if rows != [] {
      var front, last := rows[..|rows| - 1], rows[|rows| - 1];
      ExtremeIsExtreme(front, ci, largest);
      assert rows == front + [last];
      assert forall row :: row in rows <==> row in front || row == last;
    }
  }

  function CountAll(groups: seq<Group>): nat {
    if groups == [] then 0 else |groups[0].rows| + CountAll(groups[1..])
  }

  /** The group sums, each one wrapped, added up. */
  function SumAll(groups: seq<Group>, ci: nat): int {
    if groups == [] then 0 else Sum(groups[0].rows, ci) + SumAll(groups[1..], ci)
  }

  function ExtremeAll(groups: seq<Group>, ci: nat, largest: bool): Option<I64> {
    if groups == [] then None
    else Pick(Extreme(groups[0].rows, ci, largest), ExtremeAll(groups[1..], ci, largest), largest)
  }

  function Flatten(groups: seq<Group>): seq<Row> {
    if groups == [] then [] else groups[0].rows + Flatten(groups[1..])
  }

  lemma PushRow(rows: seq<Row>, row: Row, ci: nat, largest: bool)
    ensures Total(rows + [row], ci) == Total(rows, ci) + Total([row], ci)
    ensures Extreme(rows + [row], ci, largest) == Pick(Extreme(rows, ci, largest), Extreme([row], ci, largest), largest)
  {
    assert (rows + [row])[..|rows|] == rows;
    assert [row][..0] == [];
  }

  // ----- Congruence modulo 2^64 -----

  function Times(q: int): int {
    q * TWO_64
  }

  ghost predicate Congruent(a: int, b: int) {
    exists q :: a == b + Times(q)
  }

  lemma WrapCongruent(a: int)
    ensures Congruent(Wrap(a), a)
  {
    assert Wrap(a) == a + Times((Wrap(a) - a) / TWO_64);
  }

  lemma AddCongruent(a: int, b: int, c: int)
    requires Congruent(a, b)
    ensures Congruent(a + c, b + c)
  {
    var q :| a == b + Times(q);
    assert a + c == b + c + Times(q);
  }

  lemma JoinCongruent(a: int, b: int, c: int)
    requires Congruent(a, b) && Congruent(b, c)
    ensures Congruent(a, c)
  {
    var p :| a == b + Times(p);
    var q :| b == c + Times(q);
    assert a == c + Times(p + q);
  }

  lemma FlipCongruent(a: int, b: int)
    requires Congruent(a, b)
    ensures Congruent(b, a)
  {
    var q :| a == b + Times(q);
    assert b == a + Times(-q);
  }

  /** Adding a row to one wrapped sum adds its integer, up to wrapping. */
  lemma SumPush(rows: seq<Row>, row: Row, ci: nat)
    ensures Congruent(Sum(rows + [row], ci), Sum(rows, ci) + Total([row], ci))
  {
    var t, c := Total(rows, ci), Total([row], ci);
    PushRow(rows, row, ci, true);
    WrapCongruent(t + c);
    WrapCongruent(t);
    FlipCongruent(Wrap(t), t);
    AddCongruent(t, Wrap(t), c);
    JoinCongruent(Wrap(t + c), t + c, Wrap(t) + c);
  }

  lemma {:induction false} FileAddsToSum(groups: seq<Group>, key: Key, row: Row, ci: nat)
    ensures Congruent(SumAll(File(groups, key, row), ci), SumAll(groups, ci) + Total([row], ci))
  {
    var r, c := File(groups, key, row), Total([row], ci);
    if groups == [] || KeyCmp(key, groups[0].key) == Less {
      assert r[1..] == groups;
      WrapCongruent(c);
      AddCongruent(Wrap(c), c, SumAll(groups, ci));
    } else if KeyCmp(key, groups[0].key) == Equal {
      assert r[1..] == groups[1..];
      SumPush(groups[0].rows, row, ci);
      AddCongruent(Sum(r[0].rows, ci), Sum(groups[0].rows, ci) + c, SumAll(groups[1..], ci));
    } else {
      assert r[1..] == File(groups[1..], key, row);
      FileAddsToSum(groups[1..], key, row, ci);
      AddCongruent(SumAll(r[1..], ci), SumAll(groups[1..], ci) + c, Sum(groups[0].rows, ci));
    }
  }

  // ----- Conservation -----

  /** Filing a row adds it once to the count and to the rows of all groups together. */
  lemma {:induction false} FileAddsOnce(groups: seq<Group>, key: Key, row: Row)
    ensures CountAll(File(groups, key, row)) == CountAll(groups) + 1
    ensures multiset(Flatten(File(groups, key, row))) == multiset(Flatten(groups)) + multiset{row}
  {
    var r := File(groups, key, row);
    if groups == [] || KeyCmp(key, groups[0].key) == Less {
      assert r[1..] == groups;
    } else if KeyCmp(key, groups[0].key) == Equal {
      assert r[1..] == groups[1..];
    } else {
      assert r[1..] == File(groups[1..], key, row);
      FileAddsOnce(groups[1..], key, row);
    }
  }

  lemma {:induction false} FileAddsToExtreme(groups: seq<Group>, key: Key, row: Row, ci: nat, largest: bool)
    ensures ExtremeAll(File(groups, key, row), ci, largest)
            == Pick(ExtremeAll(groups, ci, largest), Extreme([row], ci, largest), largest)
  {
    var r := File(groups, key, row);
    if groups == [] || KeyCmp(key, groups[0].key) == Less {
      assert r[1..] == groups;
    } else if KeyCmp(key, groups[0].key) == Equal {
      assert r[1..] == groups[1..];
      PushRow(groups[0].rows, row, ci, largest);
    } else {
      assert r[1..] == File(groups[1..], key, row);
      FileAddsToExtreme(groups[1..], key, row, ci, largest);
    }
  }

  /** No row is lost or counted twice. */
  lemma {:induction false} GroupsPartition(rows: seq<Row>, keyCols: seq<nat>)
    ensures CountAll(Grouped(rows, keyCols)) == |rows|
    ensures multiset(Flatten(Grouped(rows, keyCols))) == multiset(rows)
  {
    if rows != [] {
      var front, last := rows[..|rows| - 1], rows[|rows| - 1];
      GroupsPartition(front, keyCols);
      FileAddsOnce(Grouped(front, keyCols), KeyOf(last, keyCols), last);
      assert rows == front + [last];
    }
  }

  lemma {:induction false} GroupTotals(rows: seq<Row>, keyCols: seq<nat>, ci: nat)
    ensures Congruent(SumAll(Grouped(rows, keyCols), ci), Total(rows, ci))
  {
    if rows == [] {
      assert 0 == 0 + Times(0);
    } else {
      var front, last := rows[..|rows| - 1], rows[|rows| - 1];
      var before, c := Grouped(front, keyCols), Total([last], ci);
      GroupTotals(front, keyCols, ci);
      FileAddsToSum(before, KeyOf(last, keyCols), last, ci);
      AddCongruent(SumAll(before, ci), Total(front, ci), c);
      JoinCongruent(SumAll(Grouped(rows, keyCols), ci), SumAll(before, ci) + c, Total(front, ci) + c);
      PushRow(front, last, ci, true);
      assert rows == front + [last];
    }
  }

  /** The group SUMs, each wrapped to 64 bits, add up with wrapping to the ungrouped SUM. */
  lemma GroupSumsAddUp(rows: seq<Row>, keyCols: seq<nat>, ci: nat)
    ensures Wrap(SumAll(Grouped(rows, keyCols), ci)) == Sum(rows, ci)
  {
    GroupTotals(rows, keyCols, ci);
  }

  /** The largest group MAX is the ungrouped MAX, and the smallest group MIN the ungrouped MIN. */
  lemma {:induction false} GroupExtremesCombine(rows: seq<Row>, keyCols: seq<nat>, ci: nat, largest: bool)
    ensures ExtremeAll(Grouped(rows, keyCols), ci, largest) == Extreme(rows, ci, largest)
  {
    if rows != [] {
      var front, last := rows[..|rows| - 1], rows[|rows| - 1];
      GroupExtremesCombine(front, keyCols, ci, largest);
      FileAddsToExtreme(Grouped(front, keyCols), KeyOf(last, keyCols), last, ci, largest);
      PushRow(front, last, ci, largest);
      assert rows == front + [last];
    }
  }
}
