/** ORDER BY as one stable sort for each key, from the last key to the first. */
module OrderBy {
  import opened Numbers
  import opened Comparison
  import opened Sql

  datatype SortKey = SortKey(col: nat, asc: bool)

  function SortText(row: Row, col: nat): string {
    Cell(row, Some(col)).DisplayOrEmpty()
  }

  /** Two whole numbers compare by value, anything else as texts. */
  function TextCmp(a: string, b: string): Ordering {
    if ParseI64(a).Some? && ParseI64(b).Some? then IntCmp(ParseI64(a).value, ParseI64(b).value) else StrCmp(a, b)
  }

  /** How the rows at positions `i` and `j` compare under one key. */
  function KeyCmp(rows: seq<Row>, key: SortKey, i: nat, j: nat): Ordering
    requires i < |rows| && j < |rows|
  {
    var c := TextCmp(SortText(rows[i], key.col), SortText(rows[j], key.col));
    if key.asc then c else c.Reverse()
  }

  predicate InRows(rows: seq<Row>, s: seq<nat>) {
    forall i :: 0 <= i < |s| ==> s[i] < |rows|
  }

  /** Put `x` before the first row it does not come after. */
  function InsertSorted(rows: seq<Row>, key: SortKey, x: nat, s: seq<nat>): (r: seq<nat>)
    requires x < |rows| && InRows(rows, s)
    ensures InRows(rows, r) && multiset(r) == multiset{x} + multiset(s)
  {
    if s == [] then [x]
    else if KeyCmp(rows, key, x, s[0]) != Greater then [x] + s
    else
      assert s == [s[0]] + s[1..];
      [s[0]] + InsertSorted(rows, key, x, s[1..])
  }

  /** A stable sort of row positions by one key. */
  function StableSort(rows: seq<Row>, key: SortKey, s: seq<nat>): (r: seq<nat>)
    requires InRows(rows, s)
    ensures InRows(rows, r) && multiset(r) == multiset(s)
  {
    if s == [] then []
    else
      assert s == [s[0]] + s[1..];
      InsertSorted(rows, key, s[0], StableSort(rows, key, s[1..]))
  }

  /** The sorts of an ORDER BY list: the last key is sorted by first. */
  function SortByAll(rows: seq<Row>, keys: seq<SortKey>, s: seq<nat>): (r: seq<nat>)
    requires InRows(rows, s)
    ensures InRows(rows, r) && multiset(r) == multiset(s)
  {
    if keys == [] then s else StableSort(rows, keys[0], SortByAll(rows, keys[1..], s))
  }

  // ----- What the result means -----

  /** Comparison by all keys, the first one that differs deciding. */
  function LexCmp(rows: seq<Row>, keys: seq<SortKey>, i: nat, j: nat): Ordering
    requires i < |rows| && j < |rows|
  {
    if keys == [] then Equal
    else
      var c := KeyCmp(rows, keys[0], i, j);
      if c != Equal then c else LexCmp(rows, keys[1..], i, j)
  }

  /** Before by the keys, or equal under all of them and earlier in the table. */
  predicate Precedes(rows: seq<Row>, keys: seq<SortKey>, i: nat, j: nat)
    requires i < |rows| && j < |rows|
  {
    LexCmp(rows, keys, i, j) == Less || (LexCmp(rows, keys, i, j) == Equal && i < j)
  }

  ghost predicate IsOrdered(rows: seq<Row>, keys: seq<SortKey>, s: seq<nat>)
    requires InRows(rows, s)
  {
    forall a, b :: 0 <= a < b < |s| ==> Precedes(rows, keys, s[a], s[b])
  }

  /** Two whole numbers in order of value with a third text between them the wrong way round. */
  predicate Circle(a: string, b: string, c: string) {
    && ParseI64(a).Some? && ParseI64(b).Some? && ParseI64(c).None?
    && ParseI64(a).value <= ParseI64(b).value && StrCmp(b, c) == Less && StrCmp(c, a) == Less
  }

  /** Three rows of which each comes before the next, the last before the first. */
  predicate GoRound(rows: seq<Row>, keys: seq<SortKey>, i: nat, j: nat, k: nat)
    requires i < |rows| && j < |rows| && k < |rows|
  {
    Precedes(rows, keys, i, j) && Precedes(rows, keys, j, k) && Precedes(rows, keys, k, i)
  }

  /** No three of the rows at these positions go round. */
  ghost predicate IsConsistent(rows: seq<Row>, keys: seq<SortKey>, at: seq<nat>)
    requires InRows(rows, at)
  {
    forall i, j, k :: i in at && j in at && k in at ==> !GoRound(rows, keys, i, j, k)
  }

  /** So under the last key alone, under the last two, and so on to the whole list. */
  ghost predicate AreConsistent(rows: seq<Row>, keys: seq<SortKey>, at: seq<nat>)
    requires InRows(rows, at)
  {
    keys == [] || (IsConsistent(rows, keys, at) && AreConsistent(rows, keys[1..], at))
  }

  lemma TextCmpReverse(a: string, b: string)
    ensures TextCmp(b, a) == TextCmp(a, b).Reverse()
  {
    StrCmpReverse(a, b);
  }

  predicate Transitive(a: string, b: string, c: string) {
    TextCmp(a, b) != Greater && TextCmp(b, c) != Greater ==>
      TextCmp(a, c) != Greater && (TextCmp(a, c) == Equal ==> TextCmp(a, b) == TextCmp(b, c) == Equal)
  }

  lemma CircleIsNotTransitive(a: string, b: string, c: string)
    requires Circle(a, b, c)
    ensures !Transitive(a, b, c)
  {
    StrCmpReverse(a, c);
  }

  lemma TransitiveUnlessCircle(a: string, b: string, c: string)
    requires !Circle(a, b, c) && !Circle(b, a, c) && !Circle(b, c, a)
    requires !Circle(c, b, a) && !Circle(a, c, b) && !Circle(c, a, b)
    ensures Transitive(a, b, c)
  {
    if StrCmp(a, b) != Greater && StrCmp(b, c) != Greater {
      StrCmpTransitive(a, b, c);
    }
    StrCmpReverse(a, b);
    StrCmpReverse(b, c);
    StrCmpReverse(a, c);
    StrCmpEqual(a, b);
    StrCmpEqual(b, c);
    StrCmpEqual(a, c);
  }

  /** The comparison is a total preorder on a set of texts if and only if no three of them go round in a circle. */
  lemma PreorderExactly(texts: set<string>)
    ensures (forall a, b, c :: a in texts && b in texts && c in texts ==> Transitive(a, b, c))
            <==> (forall a, b, c :: a in texts && b in texts && c in texts ==> !Circle(a, b, c))
  {
    forall a, b, c | a in texts && b in texts && c in texts
      ensures Circle(a, b, c) ==> !Transitive(a, b, c)
    {
      if Circle(a, b, c) { CircleIsNotTransitive(a, b, c); }
    }
    if forall a, b, c :: a in texts && b in texts && c in texts ==> !Circle(a, b, c) {
      forall a, b, c | a in texts && b in texts && c in texts
        ensures Transitive(a, b, c)
      {
        TransitiveUnlessCircle(a, b, c);
      }
    }
  }

  lemma KeyCmpReverse(rows: seq<Row>, key: SortKey, i: nat, j: nat)
    requires i < |rows| && j < |rows|
    ensures KeyCmp(rows, key, j, i) == KeyCmp(rows, key, i, j).Reverse()
  {
    TextCmpReverse(SortText(rows[i], key.col), SortText(rows[j], key.col));
  }

  lemma {:induction false} LexCmpReverse(rows: seq<Row>, keys: seq<SortKey>, i: nat, j: nat)
    requires i < |rows| && j < |rows|
    ensures LexCmp(rows, keys, j, i) == LexCmp(rows, keys, i, j).Reverse()
  {
    if keys != [] {
      KeyCmpReverse(rows, keys[0], i, j);
      LexCmpReverse(rows, keys[1..], i, j);
    }
  }

  /** Of two rows exactly one comes before the other. */
  lemma PrecedesOneWay(rows: seq<Row>, keys: seq<SortKey>, i: nat, j: nat)
    requires i < |rows| && j < |rows|
    ensures i != j ==> (Precedes(rows, keys, i, j) <==> !Precedes(rows, keys, j, i))
    ensures !Precedes(rows, keys, i, i)
  {
    LexCmpReverse(rows, keys, i, j);
    LexCmpReverse(rows, keys, i, i);
  }

  lemma PrecedesTransitive(rows: seq<Row>, keys: seq<SortKey>, at: seq<nat>, i: nat, j: nat, k: nat)
    requires InRows(rows, at) && i in at && j in at && k in at && IsConsistent(rows, keys, at)
    requires Precedes(rows, keys, i, j) && Precedes(rows, keys, j, k)
    ensures Precedes(rows, keys, i, k)
  {
    assert !GoRound(rows, keys, i, j, k);
    PrecedesOneWay(rows, keys, i, k);
    PrecedesOneWay(rows, keys, i, j);
  }

  ghost predicate PrecedesAll(rows: seq<Row>, keys: seq<SortKey>, x: nat, s: seq<nat>)
    requires x < |rows| && InRows(rows, s)
  {
    forall i :: 0 <= i < |s| ==> Precedes(rows, keys, x, s[i])
  }

  /** What precedes `x` and every position of `s` precedes every position of `s` with `x` inserted. */
  lemma {:induction false} PrecedesInserted(rows: seq<Row>, keys: seq<SortKey>, key: SortKey, first: nat, x: nat,
                                            s: seq<nat>)
    requires first < |rows| && x < |rows| && InRows(rows, s)
    requires Precedes(rows, keys, first, x) && PrecedesAll(rows, keys, first, s)
    ensures PrecedesAll(rows, keys, first, InsertSorted(rows, key, x, s))
  {
    var r := InsertSorted(rows, key, x, s);
    forall i | 0 <= i < |r|
      ensures Precedes(rows, keys, first, r[i])
    {
      assert r[i] in multiset(r);
      if r[i] != x {
        var j :| 0 <= j < |s| && s[j] == r[i];
      }
    }
  }

  /** Sorting by one more key in front keeps the order the later keys have made. */
  lemma {:induction false} InsertSortedOrders(rows: seq<Row>, key: SortKey, rest: seq<SortKey>, at: seq<nat>, x: nat,
                                              s: seq<nat>)
    requires InRows(rows, at) && InRows(rows, s) && IsConsistent(rows, [key] + rest, at)
    requires x in at && forall i :: 0 <= i < |s| ==> s[i] in at
    requires IsOrdered(rows, [key] + rest, s)
    requires PrecedesAll(rows, rest, x, s)
    ensures IsOrdered(rows, [key] + rest, InsertSorted(rows, key, x, s))
  {
    var keys := [key] + rest;
    assert keys[1..] == rest;
    if s != [] && KeyCmp(rows, key, x, s[0]) != Greater {
      assert Precedes(rows, rest, x, s[0]);
      forall i | 0 <= i < |s|
        ensures Precedes(rows, keys, x, s[i])
      {
        if i > 0 {
          assert Precedes(rows, keys, s[0], s[i]);
          PrecedesTransitive(rows, keys, at, x, s[0], s[i]);
        }
      }
    } else if s != [] {
      InsertSortedOrders(rows, key, rest, at, x, s[1..]);
      KeyCmpReverse(rows, key, x, s[0]);
      forall i | 0 <= i < |s[1..]|
        ensures Precedes(rows, keys, s[0], s[1..][i])
      {
        assert Precedes(rows, keys, s[0], s[i + 1]);
      }
      PrecedesInserted(rows, keys, key, s[0], x, s[1..]);
    }
  }

  lemma {:induction false} StableSortOrders(rows: seq<Row>, key: SortKey, rest: seq<SortKey>, at: seq<nat>, s: seq<nat>)
    requires InRows(rows, at) && InRows(rows, s) && IsConsistent(rows, [key] + rest, at) && IsOrdered(rows, rest, s)
    requires forall i :: 0 <= i < |s| ==> s[i] in at
    ensures IsOrdered(rows, [key] + rest, StableSort(rows, key, s))
  {
    if s != [] {
      StableSortOrders(rows, key, rest, at, s[1..]);
      var tail := StableSort(rows, key, s[1..]);
      forall i | 0 <= i < |tail|
        ensures Precedes(rows, rest, s[0], tail[i]) && tail[i] in at
      {
        assert tail[i] in multiset(tail);
        var j :| 0 <= j < |s[1..]| && s[1..][j] == tail[i];
        assert Precedes(rows, rest, s[0], s[j + 1]);
      }
      InsertSortedOrders(rows, key, rest, at, s[0], tail);
    }
  }

  lemma SortStaysWithin(rows: seq<Row>, keys: seq<SortKey>, s: seq<nat>)
    requires InRows(rows, s)
    ensures forall i :: 0 <= i < |SortByAll(rows, keys, s)| ==> SortByAll(rows, keys, s)[i] in s
  {
    var sorted := SortByAll(rows, keys, s);
    forall i | 0 <= i < |sorted|
      ensures sorted[i] in s
    {
      assert sorted[i] in multiset(sorted);
    }
  }

  /** The sorts together order the rows by all keys, ties in table order. */
  lemma {:induction false} SortByAllOrders(rows: seq<Row>, keys: seq<SortKey>, s: seq<nat>)
    requires InRows(rows, s) && AreConsistent(rows, keys, s)
    requires forall a, b :: 0 <= a < b < |s| ==> s[a] < s[b]
    ensures IsOrdered(rows, keys, SortByAll(rows, keys, s))
  {
    if keys != [] {
      SortByAllOrders(rows, keys[1..], s);
      SortStaysWithin(rows, keys[1..], s);
      assert keys == [keys[0]] + keys[1..];
      StableSortOrders(rows, keys[0], keys[1..], s, SortByAll(rows, keys[1..], s));
    }
  }

  /** Rows that go round can be arranged in no order. */
  lemma OrderedMeansConsistent(rows: seq<Row>, keys: seq<SortKey>, s: seq<nat>)
    requires InRows(rows, s) && IsOrdered(rows, keys, s)
    ensures IsConsistent(rows, keys, s)
  {
    forall i, j, k | i in s && j in s && k in s
      ensures !GoRound(rows, keys, i, j, k)
    {
      var a :| 0 <= a < |s| && s[a] == i;
      var b :| 0 <= b < |s| && s[b] == j;
      var c :| 0 <= c < |s| && s[c] == k;
      if GoRound(rows, keys, i, j, k) {
        OrderedPlaces(rows, keys, s, a, b);
        OrderedPlaces(rows, keys, s, b, c);
        OrderedPlaces(rows, keys, s, c, a);
      }
    }
  }

  lemma OrderedPlaces(rows: seq<Row>, keys: seq<SortKey>, s: seq<nat>, a: nat, b: nat)
    requires InRows(rows, s) && IsOrdered(rows, keys, s) && a < |s| && b < |s| && Precedes(rows, keys, s[a], s[b])
    ensures a < b
  {
    PrecedesOneWay(rows, keys, s[a], s[b]);
  }

  /** When the sorts by the later keys met no rows that go round, the result is ordered if and only if there are none
      under the whole list. */
  lemma SortedExactly(rows: seq<Row>, keys: seq<SortKey>, s: seq<nat>)
    requires InRows(rows, s) && keys != [] && AreConsistent(rows, keys[1..], s)
    requires forall a, b :: 0 <= a < b < |s| ==> s[a] < s[b]
    ensures IsOrdered(rows, keys, SortByAll(rows, keys, s)) <==> IsConsistent(rows, keys, s)
  {
    var sorted := SortByAll(rows, keys, s);
    if IsConsistent(rows, keys, s) {
      SortByAllOrders(rows, keys, s);
    }
    if IsOrdered(rows, keys, sorted) {
      OrderedMeansConsistent(rows, keys, sorted);
      assert forall i :: i in s ==> i in multiset(sorted);
    }
  }

  lemma OrderedHeads(rows: seq<Row>, keys: seq<SortKey>, s: seq<nat>, t: seq<nat>)
    requires InRows(rows, s) && InRows(rows, t) && s != [] && t != []
    requires s[0] in t && t[0] in s
    requires IsOrdered(rows, keys, s) && IsOrdered(rows, keys, t)
    ensures s[0] == t[0]
  {
    if s[0] != t[0] {
      PrecedesOneWay(rows, keys, s[0], t[0]);
    }
  }

  lemma SameHeadSameRest(s: seq<nat>, t: seq<nat>)
    requires s != [] && t != [] && multiset(s) == multiset(t) && s[0] == t[0]
    ensures multiset(s[1..]) == multiset(t[1..])
  {
    assert s == [s[0]] + s[1..] && t == [t[0]] + t[1..];
    assert multiset(s[1..]) == multiset(s) - multiset{s[0]} == multiset(t[1..]);
  }

  /** Only one arrangement is so ordered: any stable sort gives the same result. */
  lemma {:induction false} OrderIsUnique(rows: seq<Row>, keys: seq<SortKey>, s: seq<nat>, t: seq<nat>)
    requires InRows(rows, s) && InRows(rows, t) && multiset(s) == multiset(t)
    requires IsOrdered(rows, keys, s) && IsOrdered(rows, keys, t)
    ensures s == t
  {
    assert |s| == |multiset(s)| == |multiset(t)| == |t|;
    if s != [] {
      assert s[0] in multiset(t) && t[0] in multiset(s);
      OrderedHeads(rows, keys, s, t);
      SameHeadSameRest(s, t);
      OrderIsUnique(rows, keys, s[1..], t[1..]);
    }
  }

  /** One text before another, `tie` deciding when they compare equal. */
  predicate Comes(asc: bool, a: string, b: string, tie: bool) {
    var c := if asc then TextCmp(a, b) else TextCmp(a, b).Reverse();
    c == Less || (c == Equal && tie)
  }

  /** Two whole numbers in order, or of one value and `tie` between them, with a third text between them the wrong way
      round. */
  predicate TextsTurn(asc: bool, a: string, b: string, c: string, tie: bool) {
    var first := if asc then Less else Greater;
    && ParseI64(a).Some? && ParseI64(b).Some? && ParseI64(c).None?
    && StrCmp(b, c) == first && StrCmp(c, a) == first
    && (IntCmp(ParseI64(a).value, ParseI64(b).value) == first || (ParseI64(a) == ParseI64(b) && tie))
  }

  lemma TextsTurnExactly(asc: bool, a: string, b: string, c: string, p: bool, q: bool, r: bool)
    ensures
      Comes(asc, a, b, p) && Comes(asc, b, c, q) && Comes(asc, c, a, r)
      <==> TextsTurn(asc, a, b, c, p) || TextsTurn(asc, b, c, a, q) || TextsTurn(asc, c, a, b, r)
           || (TextCmp(a, b) == TextCmp(b, c) == TextCmp(c, a) == Equal && p && q && r)
  {
    StrCmpCircle(a, b, c);
    StrCmpCircle(c, b, a);
  }

  /** Under the first key the texts turn, ties going by the other keys. */
  predicate Turns(rows: seq<Row>, keys: seq<SortKey>, i: nat, j: nat, k: nat)
    requires keys != [] && i < |rows| && j < |rows| && k < |rows|
  {
    var col := keys[0].col;
    TextsTurn(keys[0].asc, SortText(rows[i], col), SortText(rows[j], col), SortText(rows[k], col),
              Precedes(rows, keys[1..], i, j))
  }

  predicate Tied(rows: seq<Row>, key: SortKey, i: nat, j: nat)
    requires i < |rows| && j < |rows|
  {
    TextCmp(SortText(rows[i], key.col), SortText(rows[j], key.col)) == Equal
  }

  lemma PrecedesByFirst(rows: seq<Row>, keys: seq<SortKey>, i: nat, j: nat)
    requires keys != [] && i < |rows| && j < |rows|
    ensures
      Precedes(rows, keys, i, j)
      <==> Comes(keys[0].asc, SortText(rows[i], keys[0].col), SortText(rows[j], keys[0].col),
                 Precedes(rows, keys[1..], i, j))
  {
  }

  /** Rows go round under a list of keys if and only if they do under its first key in this way, or tie under it and go
      round under the others. */
  lemma GoRoundExactly(rows: seq<Row>, keys: seq<SortKey>, i: nat, j: nat, k: nat)
    requires keys != [] && i < |rows| && j < |rows| && k < |rows|
    ensures
      var tied := Tied(rows, keys[0], i, j) && Tied(rows, keys[0], j, k) && Tied(rows, keys[0], k, i);
      GoRound(rows, keys, i, j, k)
      <==> Turns(rows, keys, i, j, k) || Turns(rows, keys, j, k, i) || Turns(rows, keys, k, i, j)
           || (tied && GoRound(rows, keys[1..], i, j, k))
  {
    var col, rest := keys[0].col, keys[1..];
    PrecedesByFirst(rows, keys, i, j);
    PrecedesByFirst(rows, keys, j, k);
    PrecedesByFirst(rows, keys, k, i);
    TextsTurnExactly(keys[0].asc, SortText(rows[i], col), SortText(rows[j], col), SortText(rows[k], col),
                     Precedes(rows, rest, i, j), Precedes(rows, rest, j, k), Precedes(rows, rest, k, i));
  }

  // ----- What columns hold -----

  /** No three texts of the column form a circle. */
  ghost predicate NoCircle(rows: seq<Row>, col: nat, at: seq<nat>)
    requires InRows(rows, at)
  {
    forall i, j, k :: i in at && j in at && k in at ==>
      !Circle(SortText(rows[i], col), SortText(rows[j], col), SortText(rows[k], col))
  }

  /** A turn is a circle, read one way or the other. */
  lemma TurnIsCircle(rows: seq<Row>, keys: seq<SortKey>, at: seq<nat>, i: nat, j: nat, k: nat)
    requires InRows(rows, at) && i in at && j in at && k in at
    requires keys != [] && NoCircle(rows, keys[0].col, at)
    ensures !Turns(rows, keys, i, j, k)
  {
    var col := keys[0].col;
    var a, b, c := SortText(rows[i], col), SortText(rows[j], col), SortText(rows[k], col);
    StrCmpReverse(b, c);
    StrCmpReverse(c, a);
    assert !Circle(a, b, c) && !Circle(b, a, c);
  }

  lemma {:induction false} NoCircleNoRound(rows: seq<Row>, keys: seq<SortKey>, at: seq<nat>, i: nat, j: nat, k: nat)
    requires InRows(rows, at) && i in at && j in at && k in at
    requires forall d :: 0 <= d < |keys| ==> NoCircle(rows, keys[d].col, at)
    ensures !GoRound(rows, keys, i, j, k)
  {
    if keys != [] {
      TurnIsCircle(rows, keys, at, i, j, k);
      TurnIsCircle(rows, keys, at, j, k, i);
      TurnIsCircle(rows, keys, at, k, i, j);
      NoCircleNoRound(rows, keys[1..], at, i, j, k);
      GoRoundExactly(rows, keys, i, j, k);
    }
  }

  /** Without circles in the key columns no rows go round, under however many keys. */
  lemma {:induction false} NoCircleIsConsistent(rows: seq<Row>, keys: seq<SortKey>, at: seq<nat>)
    requires InRows(rows, at) && forall d :: 0 <= d < |keys| ==> NoCircle(rows, keys[d].col, at)
    ensures AreConsistent(rows, keys, at)
  {
    if keys != [] {
      forall i, j, k | i in at && j in at && k in at
        ensures !GoRound(rows, keys, i, j, k)
      {
        NoCircleNoRound(rows, keys, at, i, j, k);
      }
      NoCircleIsConsistent(rows, keys[1..], at);
    }
  }

  predicate IsIntOrNull(v: Value) {
    v.Int? || v.Null?
  }

  predicate IsWordOrNull(v: Value) {
    v.Null? || (v.Text? && ParseI64(v.s).None?)
  }

  /** Integers and NULLs, or NULLs and texts that are no whole numbers. */
  ghost predicate IsUniform(rows: seq<Row>, col: nat, at: seq<nat>)
    requires InRows(rows, at)
  {
    || (forall i :: i in at ==> IsIntOrNull(Cell(rows[i], Some(col))))
    || (forall i :: i in at ==> IsWordOrNull(Cell(rows[i], Some(col))))
  }

  /** Every key column is uniform. */
  ghost predicate AreUniform(rows: seq<Row>, keys: seq<SortKey>, at: seq<nat>)
    requires InRows(rows, at)
  {
    forall d :: 0 <= d < |keys| ==> IsUniform(rows, keys[d].col, at)
  }

  lemma UniformHasNoCircle(rows: seq<Row>, col: nat, at: seq<nat>)
    requires InRows(rows, at) && IsUniform(rows, col, at)
    ensures NoCircle(rows, col, at)
  {
    forall i, j, k | i in at && j in at && k in at
      ensures !Circle(SortText(rows[i], col), SortText(rows[j], col), SortText(rows[k], col))
    {
      var a, c := Cell(rows[i], Some(col)), Cell(rows[k], Some(col));
      if c.Int? { ParseIntText(c.n); }
      if c.Null? && ParseI64(SortText(rows[j], col)).Some? {
        assert StrCmp(SortText(rows[j], col), "") == Greater;
      }
    }
  }

  /** ORDER BY any number of such columns orders the rows by all of them. */
  lemma UniformColumnsSort(rows: seq<Row>, keys: seq<SortKey>, s: seq<nat>)
    requires InRows(rows, s) && forall a, b :: 0 <= a < b < |s| ==> s[a] < s[b]
    requires AreUniform(rows, keys, s)
    ensures IsOrdered(rows, keys, SortByAll(rows, keys, s)) && AreConsistent(rows, keys, s)
  {
    forall d | 0 <= d < |keys|
      ensures NoCircle(rows, keys[d].col, s)
    {
      UniformHasNoCircle(rows, keys[d].col, s);
    }
    NoCircleIsConsistent(rows, keys, s);
    SortByAllOrders(rows, keys, s);
  }

  lemma StrCmpCircle(a: string, b: string, c: string)
    ensures StrCmp(a, b) != Greater && StrCmp(b, c) != Greater && StrCmp(c, a) != Greater ==> a == b == c
    ensures StrCmp(b, a) == StrCmp(a, b).Reverse() && StrCmp(c, b) == StrCmp(b, c).Reverse()
    ensures StrCmp(a, c) == StrCmp(c, a).Reverse()
    ensures (StrCmp(a, b) == Equal <==> a == b) && (StrCmp(b, c) == Equal <==> b == c)
    ensures StrCmp(c, a) == Equal <==> c == a
  {
    StrCmpReverse(a, b);
    StrCmpReverse(b, c);
    StrCmpReverse(c, a);
    StrCmpEqual(a, b);
    StrCmpEqual(b, c);
    StrCmpEqual(c, a);
    if StrCmp(a, b) != Greater && StrCmp(b, c) != Greater {
      StrCmpTransitive(a, b, c);
    }
  }

  /** 9 < 10, "10" < "1a", "1a" < "9". */
  lemma NineTenCircle()
    ensures Circle("9", "10", "1a")
  {
    assert "9"[..0] == "" && "10"[..1] == "1" && "1"[..0] == "" && "1a"[..1] == "1";
    assert DigitsValue("1") == Some(1) && DigitsValue("10") == Some(10) && DigitsValue("9") == Some(9);
    assert DigitsValue("1a") == None;
    assert "10"[1..] == "0" && "1a"[1..] == "a";
  }

  // ----- ORDER BY lists, OFFSET and LIMIT -----

  datatype OrderTerm = OrderTerm(name: string, asc: bool)

  /** The keys of an ORDER BY list; names of no column are skipped. */
  function SortKeys(columns: seq<Column>, terms: seq<OrderTerm>): seq<SortKey> {
    if terms == [] then []
    else
      var at := Position(columns, terms[0].name);
      (if at.Some? then [SortKey(at.value, terms[0].asc)] else []) + SortKeys(columns, terms[1..])
  }

  method SortRows(rows: seq<Row>, columns: seq<Column>, terms: seq<OrderTerm>, start: seq<nat>) returns (s: seq<nat>)
    requires InRows(rows, start)
    ensures s == SortByAll(rows, SortKeys(columns, terms), start)
  {
    s := start;
    var i := |terms|;
    while i > 0
      invariant 0 <= i <= |terms| && s == SortByAll(rows, SortKeys(columns, terms[i..]), start)
    {
      i := i - 1;
      assert terms[i..][1..] == terms[i + 1..] && terms[i..][0] == terms[i];
      var at := Position(columns, terms[i].name);
      if at.Some? {
        var key := SortKey(at.value, terms[i].asc);
        assert SortKeys(columns, terms[i..]) == [key] + SortKeys(columns, terms[i + 1..]);
        assert ([key] + SortKeys(columns, terms[i + 1..]))[1..] == SortKeys(columns, terms[i + 1..]);
        s := StableSort(rows, key, s);
      } else {
        assert SortKeys(columns, terms[i..]) == SortKeys(columns, terms[i + 1..]);
      }
    }
    assert terms[0..] == terms;
  }

  function Skip<T>(s: seq<T>, offset: Option<nat>): seq<T> {
    if offset.None? then s else if offset.value <= |s| then s[offset.value..] else []
  }

  function Take<T>(s: seq<T>, limit: Option<nat>): seq<T> {
    if limit.None? || limit.value >= |s| then s else s[..limit.value]
  }

  /** Skip `offset` elements, then keep at most `limit`. */
  function Slice<T>(s: seq<T>, offset: Option<nat>, limit: Option<nat>): seq<T> {
    Take(Skip(s, offset), limit)
  }

  /** The slice is the run of consecutive elements that both bounds leave. */
  lemma SliceIsExact<T>(s: seq<T>, offset: Option<nat>, limit: Option<nat>)
    ensures
      var from := if offset.None? then 0 else if offset.value < |s| then offset.value else |s|;
      var to := if limit.None? || from + limit.value > |s| then |s| else from + limit.value;
      Slice(s, offset, limit) == s[from..to]
  {
    var from := if offset.None? then 0 else if offset.value < |s| then offset.value else |s|;
    assert Skip(s, offset) == s[from..];
  }
}
