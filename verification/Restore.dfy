/** Reading a dump back: lines are batched until one ends in a semicolon, `USE` moves the current database. */
module Restore {
  import opened Dump
  import opened Numbers
  import opened Seqs
  import opened Sql
  import opened Texts

  /** A statement that was executed, and the database that was current then. */
  datatype Ran = Ran(statement: string, db: Option<string>)

  datatype State = State(db: Option<string>, batch: string, ran: seq<Ran>)

  const START := State(None, "", [])

  predicate IsUse(statement: string) {
    |statement| >= 4 && SameName(statement[..4], "USE ")
  }

  function UsedName(statement: string): string
    requires IsUse(statement)
  {
    TrimEndOf(TrimStartOf(TrimEndOf(Trim(statement[4..]), ';'), '`'), '`')
  }

  function Finish(s: State, statement: string): State {
    if IsUse(statement) then State(Some(UsedName(statement)), "", s.ran)
    else State(s.db, "", s.ran + [Ran(statement, s.db)])
  }

  predicate IsSkipped(line: string) {
    line == "" || (|line| >= 2 && line[..2] == "--")
  }

  function Feed(s: State, raw: string): State {
    var line := Trim(raw);
    if IsSkipped(line) then s
    else
      var batch := s.batch + line + " ";
      if line[|line| - 1] == ';' then Finish(s, Trim(batch)) else s.(batch := batch)
  }

  function FeedAll(s: State, lines: seq<string>): State {
    if lines == [] then s else Feed(FeedAll(s, lines[..|lines| - 1]), lines[|lines| - 1])
  }

  method TakeLine(raw: string, db: Option<string>, batch: string, ran: seq<Ran>)
    returns (db': Option<string>, batch': string, ran': seq<Ran>)
    ensures State(db', batch', ran') == Feed(State(db, batch, ran), raw)
  {
    db', batch', ran' := db, batch, ran;
    var line := Trim(raw);
    if IsSkipped(line) {
      return;
    }
    batch' := batch' + line;
    batch' := batch' + " ";
    if line[|line| - 1] == ';' {
      var statement := Trim(batch');
      batch' := "";
      if IsUse(statement) {
        db' := Some(UsedName(statement));
      } else {
        ran' := ran' + [Ran(statement, db')];
      }
    }
  }

  method RestoreSql(dump: string) returns (ran: seq<Ran>)
    ensures ran == FeedAll(START, Lines(dump)).ran
  {
    var currentDb: Option<string>, batch := None, "";
    ran := [];
    var lines := Lines(dump);
    for i := 0 to |lines|
      invariant State(currentDb, batch, ran) == FeedAll(START, lines[..i])
    {
      FeedNext(START, lines, i);
      currentDb, batch, ran := TakeLine(lines[i], currentDb, batch, ran);
    }
    assert lines[..|lines|] == lines;
  }

  lemma FeedNext(s: State, lines: seq<string>, i: nat)
    requires i < |lines|
    ensures FeedAll(s, lines[..i + 1]) == Feed(FeedAll(s, lines[..i]), lines[i])
  {
    assert lines[..i + 1][..i] == lines[..i];
  }

  lemma {:induction false} FeedAllConcat(s: State, a: seq<string>, b: seq<string>)
    ensures FeedAll(s, a + b) == FeedAll(FeedAll(s, a), b)
  {
    if b == [] {
      assert a + b == a;
    } else {
      var k := |b| - 1;
      assert (a + b)[..|a| + k] == a + b[..k];
      FeedAllConcat(s, a, b[..k]);
    }
  }

  // ----- One statement -----

  predicate NoBreak(s: string) {
    '\n' !in s
  }

  /** A printed piece of a statement: no white space around it, no line break inside it, not a comment. */
  predicate IsPiece(s: string) {
    s != "" && !IsSpace(s[0]) && s[0] != '-' && !IsSpace(s[|s| - 1]) && NoBreak(s)
  }

  predicate IsItem(s: string) {
    IsPiece(s) && s[|s| - 1] != ';'
  }

  predicate IsItems(xs: seq<string>) {
    forall i :: 0 <= i < |xs| ==> IsItem(xs[i])
  }

  /** A line that prints a piece, indented or not. */
  predicate Prints(raw: string, piece: string) {
    raw == piece || raw == "  " + piece
  }

  lemma TrimPrinted(raw: string, piece: string)
    requires IsPiece(piece) && Prints(raw, piece)
    ensures Trim(raw) == piece && !IsSkipped(piece)
  {
    assert |piece| >= 2 ==> piece[..2][0] == piece[0] && "--"[0] == '-';
    if raw == piece {
      assert TrimStart(raw) == piece;
    } else {
      assert raw[1..] == " " + piece && raw[1..][1..] == piece;
      assert TrimStart(raw) == TrimStart(raw[1..]) == TrimStart(piece) == piece;
    }
  }

  /** Texts, each followed by a space. */
  function Spaced(xs: seq<string>): string {
    if xs == [] then "" else Spaced(xs[..|xs| - 1]) + xs[|xs| - 1] + " "
  }

  lemma OneMorePiece(batch: string, items: seq<string>, k: nat)
    requires |items| == k + 1
    ensures batch + Spaced(items) == batch + Spaced(items[..k]) + items[k] + " "
  {
  }

  lemma FeedItem(s: State, raw: string, item: string)
    requires IsItem(item) && Prints(raw, item)
    ensures Feed(s, raw) == s.(batch := s.batch + item + " ")
  {
    TrimPrinted(raw, item);
  }

  lemma {:induction false} FeedItems(s: State, raw: seq<string>, items: seq<string>)
    requires |raw| == |items| && IsItems(items)
    requires forall i :: 0 <= i < |items| ==> Prints(raw[i], items[i])
    ensures FeedAll(s, raw) == s.(batch := s.batch + Spaced(items))
  {
    if items == [] {
      assert s.batch + "" == s.batch;
    } else {
      var k := |items| - 1;
      FeedItems(s, raw[..k], items[..k]);
      FeedItem(s.(batch := s.batch + Spaced(items[..k])), raw[k], items[k]);
      OneMorePiece(s.batch, items, k);
    }
  }

  lemma {:induction false} JoinPush(xs: seq<string>, x: string, sep: string)
    requires xs != []
    ensures Joined(xs + [x], sep) == Joined(xs, sep) + sep + x
  {
    assert (xs + [x])[1..] == xs[1..] + [x];
    if |xs| == 1 {
      assert xs[1..] + [x] == [x];
    } else {
      JoinPush(xs[1..], x, sep);
    }
  }

  lemma {:induction false} SpacedIsJoined(xs: seq<string>, x: string)
    ensures Spaced(xs) + x == Joined(xs + [x], " ")
  {
    if xs == [] {
      assert xs + [x] == [x];
    } else {
      var k := |xs| - 1;
      SpacedIsJoined(xs[..k], xs[k]);
      assert xs == xs[..k] + [xs[k]];
      JoinPush(xs, x, " ");
    }
  }

  lemma TrimBatch(batch: string)
    requires |batch| > 0 && !IsSpace(batch[0]) && !IsSpace(batch[|batch| - 1])
    ensures Trim(batch + " ") == batch
  {
    var s := batch + " ";
    assert s[0] == batch[0] && s[|s| - 1] == ' ' && s[..|s| - 1] == batch;
    assert TrimEnd(s) == TrimEnd(batch);
  }

  lemma FinishBatch(s: State, line: string, final: string, statement: string)
    requires IsPiece(final) && final[|final| - 1] == ';' && Prints(line, final)
    requires statement == s.batch + final && |statement| > 0 && !IsSpace(statement[0])
    ensures Feed(s, line) == Finish(s, statement)
  {
    TrimPrinted(line, final);
    TrimBatch(statement);
  }

  /** The lines of one statement end in the statement itself: its pieces joined by one space. */
  lemma FeedStatement(s: State, raw: seq<string>, last: string, items: seq<string>, final: string)
    requires s.batch == "" && |raw| == |items| && IsItems(items)
    requires forall i :: 0 <= i < |items| ==> Prints(raw[i], items[i])
    requires IsPiece(final) && final[|final| - 1] == ';' && Prints(last, final)
    ensures FeedAll(s, raw + [last]) == Finish(s, Joined(items + [final], " "))
  {
    var before := s.(batch := Spaced(items));
    FeedAllConcat(s, raw, [last]);
    FeedItems(s, raw, items);
    assert "" + Spaced(items) == Spaced(items);
    SpacedIsJoined(items, final);
    JoinedStart(items + [final], " ");
    FinishBatch(before, last, final, Joined(items + [final], " "));
  }

  // ----- The pieces the dump prints -----

  function Commaed(xs: seq<string>): (r: seq<string>)
    ensures |r| == |xs|
  {
    seq(|xs|, i requires 0 <= i < |xs| => xs[i] + ",")
  }

  /** A list as pieces: every text but the last with a comma. */
  function ListItems(xs: seq<string>): seq<string> {
    if xs == [] then [] else Commaed(xs[..|xs| - 1]) + [xs[|xs| - 1]]
  }

  lemma {:induction false} ListedSplit(xs: seq<string>, end: string)
    requires xs != []
    ensures Listed(xs, end) == Commaed(xs[..|xs| - 1]) + [xs[|xs| - 1] + end]
  {
    var k := |xs| - 1;
    if k > 0 {
      ListedSplit(xs[1..], end);
      assert Commaed(xs[..k]) == [xs[0] + ","] + Commaed(xs[1..][..k - 1]);
    }
  }

  /** The statements a table is printed as. */
  function CreateStatement(t: DumpedTable): string {
    Joined([CreateHead(t)] + ListItems(ColumnTexts(t.columns)) + [");"], " ")
  }

  function InsertStatement(t: DumpedTable): string
    requires t.rows != []
  {
    var texts := RowTexts(t.rows);
    Joined([InsertHead(t)] + Commaed(texts[..|texts| - 1]) + [texts[|texts| - 1] + ";"], " ")
  }

  function TableRan(t: DumpedTable, db: Option<string>): seq<Ran> {
    [Ran(CreateStatement(t), db)] + if t.rows == [] then [] else [Ran(InsertStatement(t), db)]
  }

  function TablesRan(ts: seq<DumpedTable>, db: Option<string>): seq<Ran> {
    if ts == [] then [] else TablesRan(ts[..|ts| - 1], db) + TableRan(ts[|ts| - 1], db)
  }

  /** The name of the last database printed. */
  function LastUsed(dbs: seq<DumpedDatabase>): Option<string> {
    if dbs == [] then None
    else
      var last := dbs[|dbs| - 1];
      if IsSystem(last.name) then LastUsed(dbs[..|dbs| - 1]) else Some(last.name)
  }

  /** A database is created under the one before it; its tables are written under `name`. */
  function DatabaseRan(d: DumpedDatabase, before: Option<string>, name: string): seq<Ran> {
    [Ran(CreateDatabase(d.name), before)] + TablesRan(d.tables, Some(name))
  }

  /** The statements a dump prints, each with the database it belongs to. */
  function DatabasesRan(dbs: seq<DumpedDatabase>): seq<Ran> {
    if dbs == [] then []
    else
      var front, last := dbs[..|dbs| - 1], dbs[|dbs| - 1];
      if IsSystem(last.name) then DatabasesRan(front)
      else DatabasesRan(front) + DatabaseRan(last, LastUsed(front), last.name)
  }

  /** A database name as reading its `USE` finds it: without backticks at either end. */
  function ReadBack(name: string): string {
    TrimEndOf(TrimStartOf(Quoted(name), '`'), '`')
  }

  function LastRead(dbs: seq<DumpedDatabase>): Option<string> {
    var last := LastUsed(dbs);
    if last.None? then None else Some(ReadBack(last.value))
  }

  function DatabasesRead(dbs: seq<DumpedDatabase>): seq<Ran> {
    if dbs == [] then []
    else
      var front, last := dbs[..|dbs| - 1], dbs[|dbs| - 1];
      if IsSystem(last.name) then DatabasesRead(front)
      else DatabasesRead(front) + DatabaseRan(last, LastRead(front), ReadBack(last.name))
  }

  // ----- No line break in, no line break out -----

  predicate IsPlainRow(row: Row) {
    forall i :: 0 <= i < |row| ==> row[i].Text? ==> NoBreak(row[i].s)
  }

  predicate IsPlainTable(t: DumpedTable) {
    NoBreak(t.name)
    && (forall i :: 0 <= i < |t.columns| ==> NoBreak(t.columns[i].name))
    && (forall i :: 0 <= i < |t.rows| ==> IsPlainRow(t.rows[i]))
  }

  predicate ArePlainTables(ts: seq<DumpedTable>) {
    ts == [] || (ArePlainTables(ts[..|ts| - 1]) && IsPlainTable(ts[|ts| - 1]))
  }

  /** Names and texts without line breaks. */
  predicate IsPlain(d: DumpedDatabase) {
    NoBreak(d.name) && ArePlainTables(d.tables)
  }

  /** Every database is plain, or one that is not written at all. */
  predicate IsDumpable(dbs: seq<DumpedDatabase>) {
    dbs == [] ||
    (IsDumpable(dbs[..|dbs| - 1]) && (IsSystem(dbs[|dbs| - 1].name) || IsPlain(dbs[|dbs| - 1])))
  }

  predicate AllNoBreak(lines: seq<string>) {
    forall i :: 0 <= i < |lines| ==> NoBreak(lines[i])
  }

  lemma {:induction false} JoinedNoBreak(xs: seq<string>, sep: string)
    requires NoBreak(sep)
    ensures NoBreak(Joined(xs, sep)) <==> AllNoBreak(xs)
  {
    if |xs| > 1 {
      JoinedNoBreak(xs[1..], sep);
      FirstApart(xs);
      assert Joined(xs, sep) == xs[0] + sep + Joined(xs[1..], sep);
      assert forall i :: 1 <= i < |xs| ==> xs[i] == xs[1..][i - 1];
      assert AllNoBreak(xs) <==> NoBreak(xs[0]) && AllNoBreak(xs[1..]);
    }
  }

  lemma {:induction false} EscapeNoBreak(s: string)
    ensures NoBreak(Escape(s)) <==> NoBreak(s)
  {
    if s != "" {
      EscapeNoBreak(s[1..]);
      FirstApart(s);
      assert NoBreak(s) <==> s[0] != '\n' && NoBreak(s[1..]);
    }
  }

  lemma ValueNoBreak(v: Value)
    ensures NoBreak(ValueText(v)) <==> (v.Text? ==> NoBreak(v.s))
  {
    if v.Text? {
      EscapeNoBreak(v.s);
    }
  }

  lemma RowNoBreak(row: Row)
    ensures NoBreak(RowText(row)) <==> IsPlainRow(row)
  {
    var texts := ValueTexts(row);
    forall i | 0 <= i < |row|
      ensures NoBreak(texts[i]) <==> (row[i].Text? ==> NoBreak(row[i].s))
    {
      ValueNoBreak(row[i]);
    }
    JoinedNoBreak(texts, ", ");
    assert NoBreak(RowText(row)) <==> NoBreak(Joined(texts, ", "));
  }

  lemma RowIsItem(row: Row)
    requires IsPlainRow(row)
    ensures IsItem(RowText(row)) && IsItem(RowText(row) + ",")
    ensures IsPiece(RowText(row) + ";")
  {
    RowNoBreak(row);
  }

  lemma TypeIsItem(t: ColumnType)
    ensures IsItem(TypeText(t))
  {
  }

  lemma ColumnIsItem(c: Column)
    requires NoBreak(c.name)
    ensures IsItem(ColumnText(c)) && IsItem(ColumnText(c) + ",")
  {
    TypeIsItem(c.colType);
    var named := Quoted(c.name) + " " + TypeText(c.colType);
    assert IsItem(named);
  }

  lemma HeadsAreItems(t: DumpedTable)
    requires IsPlainTable(t)
    ensures IsItem(CreateHead(t)) && IsItem(InsertHead(t))
  {
    forall i | 0 <= i < |t.columns|
      ensures NoBreak(NameTexts(t.columns)[i])
    {
    }
    JoinedNoBreak(NameTexts(t.columns), ", ");
  }

  // ----- Restoring what was printed -----

  lemma ListFeeds(s: State, xs: seq<string>)
    requires IsItems(ListItems(xs))
    ensures FeedAll(s, Listed(Indented(xs), "")) == s.(batch := s.batch + Spaced(ListItems(xs)))
  {
    var raw := Indented(xs);
    if xs == [] {
      assert s.batch + "" == s.batch;
    } else {
      var k := |xs| - 1;
      ListedSplit(raw, "");
      FeedItems(s, Commaed(raw[..k]) + [raw[k] + ""], ListItems(xs));
    }
  }

  lemma {:induction false} SpacedConcat(a: seq<string>, b: seq<string>)
    ensures Spaced(a + b) == Spaced(a) + Spaced(b)
  {
    if b == [] {
      assert a + b == a;
    } else {
      var front, last := b[..|b| - 1], b[|b| - 1];
      SpacedConcat(a, front);
      ConcatLast(a, b);
      assert Spaced(a) + Spaced(front) + last + " " == Spaced(a) + (Spaced(front) + last + " ");
    }
  }

  lemma ColumnsAreItems(columns: seq<Column>)
    requires forall i :: 0 <= i < |columns| ==> NoBreak(columns[i].name)
    ensures IsItems(ListItems(ColumnTexts(columns)))
  {
    var texts := ColumnTexts(columns);
    forall i | 0 <= i < |texts|
      ensures IsItem(texts[i]) && IsItem(texts[i] + ",")
    {
      ColumnIsItem(columns[i]);
    }
  }

  lemma RowsAreItems(rows: seq<Row>)
    requires forall i :: 0 <= i < |rows| ==> IsPlainRow(rows[i])
    ensures IsItems(Commaed(RowTexts(rows)))
  {
    forall i | 0 <= i < |rows|
      ensures IsItem(Commaed(RowTexts(rows))[i])
    {
      RowIsItem(rows[i]);
    }
  }

  /** A first line, lines that add `items` to the batch, and a last line make a statement. */
  lemma FramedStatement(s: State, head: string, body: seq<string>, items: seq<string>, last: string, final: string)
    requires s.batch == "" && IsItem(head) && IsItems(items)
    requires FeedAll(s.(batch := head + " "), body) == s.(batch := head + " " + Spaced(items))
    requires IsPiece(final) && final[|final| - 1] == ';' && Prints(last, final)
    ensures FeedAll(s, [head] + body + [last, ""]) == Finish(s, Joined([head] + items + [final], " "))
  {
    var all := [head] + items;
    FeedAllConcat(s, [head] + body, [last, ""]);
    FeedAllConcat(s, [head], body);
    FeedItem(s, head, head);
    assert "" + head + " " == head + " ";
    SpacedAfter(head, items);
    FinishBatched(s, all, last, final);
  }

  lemma SpacedAfter(head: string, items: seq<string>)
    ensures Spaced([head] + items) == head + " " + Spaced(items)
  {
    SpacedConcat([head], items);
    assert Spaced([head]) == head + " " by {
      assert [head][..0] == [];
      assert Spaced([]) + head + " " == head + " ";
    }
  }

  lemma FinishBatched(s: State, items: seq<string>, last: string, final: string)
    requires s.batch == "" && |items| > 0 && IsItem(items[0])
    requires IsPiece(final) && final[|final| - 1] == ';' && Prints(last, final)
    ensures FeedAll(s.(batch := Spaced(items)), [last, ""]) == Finish(s, Joined(items + [final], " "))
  {
    var before, statement := s.(batch := Spaced(items)), Joined(items + [final], " ");
    FeedAllConcat(before, [last], [""]);
    assert [last] + [""] == [last, ""];
    SpacedIsJoined(items, final);
    JoinedStart(items + [final], " ");
    FinishBatch(before, last, final, statement);
  }

  /** The lines of a CREATE TABLE are read as that statement. */
  lemma CreateRestored(s: State, t: DumpedTable)
    requires s.batch == "" && IsPlainTable(t)
    ensures FeedAll(s, CreateLines(t)) == Finish(s, CreateStatement(t))
  {
    var texts := ColumnTexts(t.columns);
    HeadsAreItems(t);
    ColumnsAreItems(t.columns);
    ListFeeds(s.(batch := CreateHead(t) + " "), texts);
    FramedStatement(s, CreateHead(t), Listed(Indented(texts), ""), ListItems(texts), ");", ");");
  }

  lemma CommaedFeeds(s: State, xs: seq<string>)
    requires IsItems(Commaed(xs))
    ensures FeedAll(s, Commaed(Indented(xs))) == s.(batch := s.batch + Spaced(Commaed(xs)))
  {
    forall i | 0 <= i < |xs|
      ensures Prints(Commaed(Indented(xs))[i], Commaed(xs)[i])
    {
      assert "  " + xs[i] + "," == "  " + (xs[i] + ",");
    }
    FeedItems(s, Commaed(Indented(xs)), Commaed(xs));
  }

  lemma InsertLinesSplit(t: DumpedTable, k: nat)
    requires |t.rows| == k + 1
    ensures InsertLines(t) == [InsertHead(t)] + Commaed(Indented(RowTexts(t.rows[..k])))
                            + ["  " + RowText(t.rows[k]) + ";", ""]
  {
    var texts := RowTexts(t.rows);
    ListedSplit(Indented(texts), ";");
    assert Commaed(Indented(texts)[..k]) == Commaed(Indented(RowTexts(t.rows[..k])));
  }

  lemma InsertStatementIs(t: DumpedTable, k: nat)
    requires |t.rows| == k + 1
    ensures InsertStatement(t)
         == Joined([InsertHead(t)] + Commaed(RowTexts(t.rows[..k])) + [RowText(t.rows[k]) + ";"], " ")
  {
    assert RowTexts(t.rows)[..k] == RowTexts(t.rows[..k]);
  }

  /** The lines of an INSERT are read as that statement. */
  lemma InsertRestored(s: State, t: DumpedTable)
    requires s.batch == "" && IsPlainTable(t) && t.rows != []
    ensures FeedAll(s, InsertLines(t)) == Finish(s, InsertStatement(t))
  {
    var k := |t.rows| - 1;
    var texts, last := RowTexts(t.rows[..k]), RowText(t.rows[k]);
    HeadsAreItems(t);
    RowsAreItems(t.rows[..k]);
    RowIsItem(t.rows[k]);
    InsertLinesSplit(t, k);
    CommaedFeeds(s.(batch := InsertHead(t) + " "), texts);
    assert "  " + last + ";" == "  " + (last + ";");
    FramedStatement(s, InsertHead(t), Commaed(Indented(texts)), Commaed(texts), "  " + last + ";", last + ";");
    InsertStatementIs(t, k);
  }

  lemma NotUse(statement: string)
    requires |statement| > 0 && (statement[0] == 'C' || statement[0] == 'I')
    ensures !IsUse(statement)
  {
    assert Lower("USE ")[0] == 'u';
    assert |statement| >= 4 ==> Lower(statement[..4])[0] != 'u';
  }

  lemma StatementsAreNotUse(t: DumpedTable)
    ensures !IsUse(CreateStatement(t)) && (t.rows != [] ==> !IsUse(InsertStatement(t)))
  {
    JoinedStart([CreateHead(t)] + ListItems(ColumnTexts(t.columns)) + [");"], " ");
    NotUse(CreateStatement(t));
    if t.rows != [] {
      var texts := RowTexts(t.rows);
      JoinedStart([InsertHead(t)] + Commaed(texts[..|texts| - 1]) + [texts[|texts| - 1] + ";"], " ");
      NotUse(InsertStatement(t));
    }
  }

  lemma TableRestored(s: State, t: DumpedTable)
    requires s.batch == "" && IsPlainTable(t)
    ensures FeedAll(s, TableLines(t)) == State(s.db, "", s.ran + TableRan(t, s.db))
  {
    FeedAllConcat(s, CreateLines(t), InsertLines(t));
    CreateRestored(s, t);
    StatementsAreNotUse(t);
    if t.rows != [] {
      InsertRestored(Finish(s, CreateStatement(t)), t);
    }
  }

  lemma RanAssociates(a: seq<Ran>, b: seq<Ran>, c: seq<Ran>)
    ensures (a + b) + c == a + (b + c)
  {
  }

  lemma {:induction false} TablesRestored(s: State, ts: seq<DumpedTable>)
    requires s.batch == "" && ArePlainTables(ts)
    ensures FeedAll(s, TablesLines(ts)) == State(s.db, "", s.ran + TablesRan(ts, s.db))
  {
    if ts != [] {
      var k := |ts| - 1;
      FeedAllConcat(s, TablesLines(ts[..k]), TableLines(ts[k]));
      TablesRestored(s, ts[..k]);
      var before, now := TablesRan(ts[..k], s.db), TableRan(ts[k], s.db);
      TableRestored(State(s.db, "", s.ran + before), ts[k]);
      RanAssociates(s.ran, before, now);
    }
  }

  /** No backtick at either end. */
  predicate IsBare(name: string) {
    name == "" || (name[0] != '`' && name[|name| - 1] != '`')
  }

  lemma {:induction false} TrimEndOfShortens(s: string, c: char)
    ensures |TrimEndOf(s, c)| <= |s| && (|s| > 0 && s[|s| - 1] == c ==> |TrimEndOf(s, c)| < |s|)
  {
    if s != "" && s[|s| - 1] == c {
      TrimEndOfShortens(s[..|s| - 1], c);
    }
  }

  lemma {:induction false} TrimStartOfIsSuffix(s: string, c: char)
    ensures |TrimStartOf(s, c)| <= |s| && TrimStartOf(s, c) == s[|s| - |TrimStartOf(s, c)|..]
    ensures |s| > 0 && s[0] == c ==> |TrimStartOf(s, c)| < |s|
  {
    if s != "" && s[0] == c {
      TrimStartOfIsSuffix(s[1..], c);
    }
  }

  /** The name read from a printed `USE` is the name exactly when it has no backtick at either end. */
  lemma ReadBackExactly(name: string)
    ensures ReadBack(name) == name <==> IsBare(name)
  {
    var open := name + "`";
    var t := TrimStartOf(open, '`');
    assert Quoted(name)[1..] == open && open[|open| - 1] == '`';
    assert TrimStartOf(Quoted(name), '`') == t;
    TrimStartOfIsSuffix(open, '`');
    TrimEndOfShortens(t, '`');
    if name == "" {
      assert open[1..] == "";
    } else if name[0] != '`' {
      assert open[0] == name[0] && t == open && open[..|name|] == name;
      TrimEndOfShortens(name, '`');
      assert TrimEndOf(open, '`') == TrimEndOf(name, '`');
    } else {
      assert open[0] == '`' && |t| <= |name|;
      assert |t| > 0 ==> t[|t| - 1] == '`';
    }
  }

  lemma UsedNameIsReadBack(name: string)
    ensures IsUse(UseDatabase(name)) && UsedName(UseDatabase(name)) == ReadBack(name)
  {
    var use, quoted := UseDatabase(name), Quoted(name);
    assert use[..4] == "USE " && use[4..] == quoted + ";";
    assert (quoted + ";")[..|quoted|] == quoted;
    assert TrimEndOf(quoted + ";", ';') == TrimEndOf(quoted, ';') == quoted;
  }

  /** A statement on one line. */
  lemma LineRestored(s: State, statement: string)
    requires s.batch == "" && IsPiece(statement) && statement[|statement| - 1] == ';'
    ensures Feed(s, statement) == Finish(s, statement)
  {
    assert s.batch + statement == statement;
    FinishBatch(s, statement, statement, statement);
  }

  lemma HeadRestored(s: State, name: string)
    requires s.batch == "" && NoBreak(name)
    ensures FeedAll(s, [CreateDatabase(name), UseDatabase(name), ""])
         == State(Some(ReadBack(name)), "", s.ran + [Ran(CreateDatabase(name), s.db)])
  {
    var create, use := CreateDatabase(name), UseDatabase(name);
    var created := State(s.db, "", s.ran + [Ran(create, s.db)]);
    LineRestored(s, create);
    NotUse(create);
    LineRestored(created, use);
    UsedNameIsReadBack(name);
    ThreeFed(s, create, use);
  }

  lemma ThreeFed(s: State, a: string, b: string)
    ensures FeedAll(s, [a, b, ""]) == Feed(Feed(s, a), b)
  {
    FeedAllConcat(s, [a], [b]);
    FeedAllConcat(s, [a] + [b], [""]);
    assert [a, b, ""] == [a] + [b] + [""];
  }

  lemma DatabaseRestored(s: State, d: DumpedDatabase)
    requires s.batch == "" && IsPlain(d)
    ensures FeedAll(s, DatabaseLines(d))
         == State(Some(ReadBack(d.name)), "", s.ran + DatabaseRan(d, s.db, ReadBack(d.name)))
  {
    var first, name := [Ran(CreateDatabase(d.name), s.db)], Some(ReadBack(d.name));
    FeedAllConcat(s, [CreateDatabase(d.name), UseDatabase(d.name), ""], TablesLines(d.tables));
    HeadRestored(s, d.name);
    TablesRestored(State(name, "", s.ran + first), d.tables);
    RanAssociates(s.ran, first, TablesRan(d.tables, name));
  }

  lemma PartRestored(s: State, d: DumpedDatabase)
    requires s.batch == "" && (IsSystem(d.name) || IsPlain(d))
    ensures FeedAll(s, PartLines(d))
         == if IsSystem(d.name) then s
            else State(Some(ReadBack(d.name)), "", s.ran + DatabaseRan(d, s.db, ReadBack(d.name)))
  {
    if !IsSystem(d.name) {
      DatabaseRestored(s, d);
    }
  }

  /** Without line breaks the statements come back as printed, each under the database name as read. */
  lemma {:induction false} DatabasesRestored(dbs: seq<DumpedDatabase>)
    requires IsDumpable(dbs)
    ensures FeedAll(START, DatabasesLines(dbs)) == State(LastRead(dbs), "", DatabasesRead(dbs))
  {
    if dbs != [] {
      var k := |dbs| - 1;
      DatabasesRestored(dbs[..k]);
      PartRestored(State(LastRead(dbs[..k]), "", DatabasesRead(dbs[..k])), dbs[k]);
      FeedAllConcat(START, DatabasesLines(dbs[..k]), PartLines(dbs[k]));
    }
  }

  // ----- The lines of the dump are the lines of its text -----

  lemma ListedNoBreak(xs: seq<string>, end: string)
    requires AllNoBreak(xs) && NoBreak(end)
    ensures AllNoBreak(Listed(Indented(xs), end))
  {
    if xs == [] {
    } else {
      var raw, k := Indented(xs), |xs| - 1;
      ListedSplit(raw, end);
    }
  }

  lemma ColumnsNoBreak(columns: seq<Column>)
    requires forall i :: 0 <= i < |columns| ==> NoBreak(columns[i].name)
    ensures AllNoBreak(ColumnTexts(columns))
  {
    forall i | 0 <= i < |columns|
      ensures NoBreak(ColumnTexts(columns)[i])
    {
      ColumnIsItem(columns[i]);
    }
  }

  lemma RowsNoBreak(rows: seq<Row>)
    requires forall i :: 0 <= i < |rows| ==> IsPlainRow(rows[i])
    ensures AllNoBreak(RowTexts(rows))
  {
    forall i | 0 <= i < |rows|
      ensures NoBreak(RowTexts(rows)[i])
    {
      RowIsItem(rows[i]);
    }
  }

  lemma TableNoBreak(t: DumpedTable)
    requires IsPlainTable(t)
    ensures AllNoBreak(TableLines(t))
  {
    HeadsAreItems(t);
    ColumnsNoBreak(t.columns);
    RowsNoBreak(t.rows);
    var columns, rows := Listed(Indented(ColumnTexts(t.columns)), ""), Listed(Indented(RowTexts(t.rows)), ";");
    ListedNoBreak(ColumnTexts(t.columns), "");
    ListedNoBreak(RowTexts(t.rows), ";");
    NoBreakConcat([CreateHead(t)], columns);
    NoBreakConcat([CreateHead(t)] + columns, [");", ""]);
    NoBreakConcat([InsertHead(t)], rows);
    NoBreakConcat([InsertHead(t)] + rows, [""]);
    NoBreakConcat(CreateLines(t), InsertLines(t));
  }

  lemma NoBreakConcat(a: seq<string>, b: seq<string>)
    requires AllNoBreak(a) && AllNoBreak(b)
    ensures AllNoBreak(a + b)
  {
  }

  lemma {:induction false} TablesNoBreak(ts: seq<DumpedTable>)
    requires ArePlainTables(ts)
    ensures AllNoBreak(TablesLines(ts))
  {
    if ts != [] {
      TablesNoBreak(ts[..|ts| - 1]);
      TableNoBreak(ts[|ts| - 1]);
      NoBreakConcat(TablesLines(ts[..|ts| - 1]), TableLines(ts[|ts| - 1]));
    }
  }

  lemma HeadNoBreak(name: string)
    requires NoBreak(name)
    ensures AllNoBreak([CreateDatabase(name), UseDatabase(name), ""])
  {
  }

  lemma PartNoBreak(d: DumpedDatabase)
    requires IsSystem(d.name) || IsPlain(d)
    ensures AllNoBreak(PartLines(d))
  {
    if !IsSystem(d.name) {
      HeadNoBreak(d.name);
      TablesNoBreak(d.tables);
      NoBreakConcat([CreateDatabase(d.name), UseDatabase(d.name), ""], TablesLines(d.tables));
    }
  }

  lemma {:induction false} DatabasesNoBreak(dbs: seq<DumpedDatabase>)
    requires IsDumpable(dbs)
    ensures AllNoBreak(DatabasesLines(dbs))
  {
    if dbs != [] {
      var k := |dbs| - 1;
      DatabasesNoBreak(dbs[..k]);
      PartNoBreak(dbs[k]);
      NoBreakConcat(DatabasesLines(dbs[..k]), PartLines(dbs[k]));
    }
  }

  lemma BannerIsSkipped(timestamp: nat)
    ensures FeedAll(START, Banner(timestamp)) == START && AllNoBreak(Banner(timestamp))
  {
    var title, stamp := "-- RunAlexDB SQL dump", "-- Generated: unix_ts=" + Digits(timestamp);
    assert title[..2] == "--" && stamp[..2] == "--";
    ThreeFed(START, title, stamp);
  }

  lemma PlainDumpIsRead(timestamp: nat, dbs: seq<DumpedDatabase>)
    requires IsDumpable(dbs)
    ensures FeedAll(START, Lines(Unlines(DumpLines(timestamp, dbs)))).ran == DatabasesRead(dbs)
  {
    BannerIsSkipped(timestamp);
    DatabasesNoBreak(dbs);
    NoBreakConcat(Banner(timestamp), DatabasesLines(dbs));
    LinesOfUnlines(DumpLines(timestamp, dbs));
    FeedAllConcat(START, Banner(timestamp), DatabasesLines(dbs));
    DatabasesRestored(dbs);
  }

  // ----- Names that come back -----

  predicate LastIsBare(dbs: seq<DumpedDatabase>) {
    var last := LastUsed(dbs);
    last.None? || IsBare(last.value)
  }

  /** No backtick at either end of a database name, unless it is the last one printed and has no tables. */
  predicate NamesSurvive(dbs: seq<DumpedDatabase>) {
    dbs == [] ||
    var front, last := dbs[..|dbs| - 1], dbs[|dbs| - 1];
    NamesSurvive(front) && (IsSystem(last.name) || (LastIsBare(front) && (last.tables == [] || IsBare(last.name))))
  }

  lemma ConcatsEqual<T>(a: seq<T>, b: seq<T>, c: seq<T>, d: seq<T>)
    requires |a| == |c|
    ensures a + b == c + d <==> a == c && b == d
  {
    if a + b == c + d {
      assert a == (a + b)[..|a|] && c == (c + d)[..|a|];
      assert b == (a + b)[|a|..] && d == (c + d)[|a|..];
    }
  }

  lemma {:induction false} TablesRanUnder(ts: seq<DumpedTable>, x: Option<string>, y: Option<string>)
    ensures |TablesRan(ts, x)| == |TablesRan(ts, y)|
    ensures TablesRan(ts, x) == TablesRan(ts, y) <==> ts == [] || x == y
  {
    if ts != [] {
      var k := |ts| - 1;
      TablesRanUnder(ts[..k], x, y);
      ConcatsEqual(TablesRan(ts[..k], x), TableRan(ts[k], x), TablesRan(ts[..k], y), TableRan(ts[k], y));
      assert TableRan(ts[k], x)[0].db == x && TableRan(ts[k], y)[0].db == y;
    }
  }

  lemma DatabaseRanUnder(d: DumpedDatabase, a: Option<string>, x: string, b: Option<string>, y: string)
    ensures |DatabaseRan(d, a, x)| == |DatabaseRan(d, b, y)|
    ensures DatabaseRan(d, a, x) == DatabaseRan(d, b, y) <==> a == b && (d.tables == [] || x == y)
  {
    TablesRanUnder(d.tables, Some(x), Some(y));
    var create := CreateDatabase(d.name);
    ConcatsEqual([Ran(create, a)], TablesRan(d.tables, Some(x)), [Ran(create, b)], TablesRan(d.tables, Some(y)));
    assert [Ran(create, a)][0] == Ran(create, a) && [Ran(create, b)][0] == Ran(create, b);
  }

  lemma LastReadExactly(dbs: seq<DumpedDatabase>)
    ensures LastRead(dbs) == LastUsed(dbs) <==> LastIsBare(dbs)
  {
    if LastUsed(dbs).Some? {
      ReadBackExactly(LastUsed(dbs).value);
    }
  }

  lemma {:induction false} NamesSurviveExactly(dbs: seq<DumpedDatabase>)
    ensures |DatabasesRead(dbs)| == |DatabasesRan(dbs)|
    ensures DatabasesRead(dbs) == DatabasesRan(dbs) <==> NamesSurvive(dbs)
  {
    if dbs != [] {
      var front, last := dbs[..|dbs| - 1], dbs[|dbs| - 1];
      NamesSurviveExactly(front);
      if !IsSystem(last.name) {
        LastReadExactly(front);
        ReadBackExactly(last.name);
        DatabaseRanUnder(last, LastRead(front), ReadBack(last.name), LastUsed(front), last.name);
        ConcatsEqual(DatabasesRead(front), DatabaseRan(last, LastRead(front), ReadBack(last.name)),
                     DatabasesRan(front), DatabaseRan(last, LastUsed(front), last.name));
      }
    }
  }

  // ----- Line breaks never come back -----

  predicate RanNoBreak(ran: seq<Ran>) {
    forall i :: 0 <= i < |ran| ==> NoBreak(ran[i].statement)
  }

  lemma {:induction false} LinesNoBreak(s: string)
    ensures AllNoBreak(Lines(s))
    decreases |s|
  {
    if s != "" && LineEnd(s) < |s| {
      LinesNoBreak(s[LineEnd(s) + 1..]);
    }
  }

  lemma {:induction false} TrimStartNoBreak(s: string)
    requires NoBreak(s)
    ensures NoBreak(TrimStart(s))
  {
    if s != "" && IsSpace(s[0]) {
      TrimStartNoBreak(s[1..]);
    }
  }

  lemma {:induction false} TrimEndNoBreak(s: string)
    requires NoBreak(s)
    ensures NoBreak(TrimEnd(s))
  {
    if s != "" && IsSpace(s[|s| - 1]) {
      TrimEndNoBreak(s[..|s| - 1]);
    }
  }

  lemma TrimNoBreak(s: string)
    requires NoBreak(s)
    ensures NoBreak(Trim(s))
  {
    TrimStartNoBreak(s);
    TrimEndNoBreak(TrimStart(s));
  }

  lemma {:induction false} FedNoBreak(s: State, lines: seq<string>)
    requires AllNoBreak(lines) && NoBreak(s.batch) && RanNoBreak(s.ran)
    ensures NoBreak(FeedAll(s, lines).batch) && RanNoBreak(FeedAll(s, lines).ran)
  {
    if lines != [] {
      var k := |lines| - 1;
      FedNoBreak(s, lines[..k]);
      var before, line := FeedAll(s, lines[..k]), Trim(lines[k]);
      TrimNoBreak(lines[k]);
      TrimNoBreak(before.batch + line + " ");
    }
  }

  lemma ListItemsNoBreak(xs: seq<string>)
    requires AllNoBreak(ListItems(xs))
    ensures AllNoBreak(xs)
  {
    forall i | 0 <= i < |xs|
      ensures NoBreak(xs[i])
    {
      assert ListItems(xs)[i] == xs[i] || ListItems(xs)[i] == xs[i] + ",";
    }
  }

  lemma PartsNoBreak(a: seq<string>, b: seq<string>)
    requires AllNoBreak(a + b)
    ensures AllNoBreak(a) && AllNoBreak(b)
  {
    assert forall i :: 0 <= i < |a| ==> a[i] == (a + b)[i];
    assert forall i :: 0 <= i < |b| ==> b[i] == (a + b)[|a| + i];
  }

  lemma CreateNoBreak(t: DumpedTable)
    requires NoBreak(CreateStatement(t))
    ensures NoBreak(t.name) && forall i :: 0 <= i < |t.columns| ==> NoBreak(t.columns[i].name)
  {
    var head, texts := [CreateHead(t)], ColumnTexts(t.columns);
    JoinedNoBreak(head + ListItems(texts) + [");"], " ");
    PartsNoBreak(head + ListItems(texts), [");"]);
    PartsNoBreak(head, ListItems(texts));
    ListItemsNoBreak(texts);
    assert NoBreak(head[0]);
    forall i | 0 <= i < |texts|
      ensures NoBreak(t.columns[i].name)
    {
      assert NoBreak(texts[i]) && texts[i] == ColumnText(t.columns[i]);
    }
  }

  lemma InsertNoBreak(t: DumpedTable)
    requires t.rows != [] && NoBreak(InsertStatement(t))
    ensures forall i :: 0 <= i < |t.rows| ==> IsPlainRow(t.rows[i])
  {
    var texts, k := RowTexts(t.rows), |t.rows| - 1;
    var parts := [InsertHead(t)] + Commaed(texts[..k]) + [texts[k] + ";"];
    JoinedNoBreak(parts, " ");
    forall i | 0 <= i <= k
      ensures IsPlainRow(t.rows[i])
    {
      assert parts[1 + i] == if i < k then texts[i] + "," else texts[i] + ";";
      RowNoBreak(t.rows[i]);
    }
  }

  lemma RanParts(a: seq<Ran>, b: seq<Ran>)
    ensures RanNoBreak(a + b) <==> RanNoBreak(a) && RanNoBreak(b)
  {
    assert forall i :: 0 <= i < |b| ==> (a + b)[|a| + i] == b[i];
    assert forall i :: 0 <= i < |a| ==> (a + b)[i] == a[i];
  }

  lemma TablePlain(t: DumpedTable, db: Option<string>)
    requires RanNoBreak(TableRan(t, db))
    ensures IsPlainTable(t)
  {
    assert TableRan(t, db)[0].statement == CreateStatement(t);
    CreateNoBreak(t);
    if t.rows != [] {
      assert TableRan(t, db)[1].statement == InsertStatement(t);
      InsertNoBreak(t);
    }
  }

  lemma {:induction false} TablesPlain(ts: seq<DumpedTable>, db: Option<string>)
    requires RanNoBreak(TablesRan(ts, db))
    ensures ArePlainTables(ts)
  {
    if ts != [] {
      var k := |ts| - 1;
      RanParts(TablesRan(ts[..k], db), TableRan(ts[k], db));
      TablesPlain(ts[..k], db);
      TablePlain(ts[k], db);
    }
  }

  /** A line break in any printed name or text is in a printed statement. */
  lemma {:induction false} StatementsTell(dbs: seq<DumpedDatabase>)
    requires RanNoBreak(DatabasesRan(dbs))
    ensures IsDumpable(dbs)
  {
    if dbs != [] {
      var front, last := dbs[..|dbs| - 1], dbs[|dbs| - 1];
      if IsSystem(last.name) {
        StatementsTell(front);
      } else {
        var create := [Ran(CreateDatabase(last.name), LastUsed(front))];
        RanParts(DatabasesRan(front), DatabaseRan(last, LastUsed(front), last.name));
        RanParts(create, TablesRan(last.tables, Some(last.name)));
        StatementsTell(front);
        TablesPlain(last.tables, Some(last.name));
        assert create[0].statement == CreateDatabase(last.name);
      }
    }
  }

  /** Restoring a dump runs exactly the statements it prints, in order, each with its lines joined by one space, under
      the right database, if and only if no printed name or text holds a line break and the database names survive. */
  lemma DumpIsRestored(timestamp: nat, dbs: seq<DumpedDatabase>)
    ensures FeedAll(START, Lines(Unlines(DumpLines(timestamp, dbs)))).ran == DatabasesRan(dbs)
            <==> IsDumpable(dbs) && NamesSurvive(dbs)
  {
    var lines := Lines(Unlines(DumpLines(timestamp, dbs)));
    if IsDumpable(dbs) {
      PlainDumpIsRead(timestamp, dbs);
      NamesSurviveExactly(dbs);
    } else if FeedAll(START, lines).ran == DatabasesRan(dbs) {
      LinesNoBreak(Unlines(DumpLines(timestamp, dbs)));
      FedNoBreak(START, lines);
      StatementsTell(dbs);
    }
  }

  /** A line break inside a printed text does not survive: the statement comes back with a space for it. */
  lemma BreakBecomesSpace(a: string, b: string)
    requires IsItem(a) && IsPiece(b) && b[|b| - 1] == ';' && !IsUse(a + " " + b)
    ensures FeedAll(START, Lines(a + "\n" + b + "\n")).ran == [Ran(a + " " + b, None)]
  {
    TwoLines(a, b);
    LinesOfUnlines([a, b]);
    FeedStatement(START, [a], b, [a], b);
    assert [a] + [b] == [a, b] && [a, b][1..] == [b];
    assert Joined([b], " ") == b;
    assert Joined([a, b], " ") == a + " " + b;
  }
}
