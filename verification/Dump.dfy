/** Writing a catalogue as SQL lines, and cutting such lines back into statements. */
module Dump {
  import opened Numbers
  import opened Sql
  import opened Texts

  datatype DumpedTable = DumpedTable(name: string, columns: seq<Column>, rows: seq<Row>)

  datatype DumpedDatabase = DumpedDatabase(name: string, tables: seq<DumpedTable>)

  // ----- Lines -----

  function Unlines(lines: seq<string>): string {
    if lines == [] then "" else lines[0] + "\n" + Unlines(lines[1..])
  }

  function LineEnd(s: string): (n: nat)
    ensures n <= |s| && '\n' !in s[..n] && (n < |s| ==> s[n] == '\n')
  {
    if s == "" || s[0] == '\n' then 0 else 1 + LineEnd(s[1..])
  }

  /** `str::lines`, but for the carriage return before a line break, which trimming takes away anyway. */
  function Lines(s: string): seq<string>
    decreases |s|
  {
    if s == "" then []
    else
      var n := LineEnd(s);
      [s[..n]] + if n == |s| then [] else Lines(s[n + 1..])
  }

  lemma {:induction false} LineEndAfter(line: string, rest: string)
    requires '\n' !in line
    ensures LineEnd(line + "\n" + rest) == |line|
  {
    if line != "" {
      LineEndAfter(line[1..], rest);
      assert (line + "\n" + rest)[1..] == line[1..] + "\n" + rest;
    }
  }

  lemma {:induction false} LinesOfUnlines(lines: seq<string>)
    requires forall i :: 0 <= i < |lines| ==> '\n' !in lines[i]
    ensures Lines(Unlines(lines)) == lines
  {
    if lines != [] {
      var s := Unlines(lines);
      LineEndAfter(lines[0], Unlines(lines[1..]));
      assert s[..|lines[0]|] == lines[0] && s[|lines[0]| + 1..] == Unlines(lines[1..]);
      LinesOfUnlines(lines[1..]);
    }
  }

  lemma {:induction false} UnlinesConcat(a: seq<string>, b: seq<string>)
    ensures Unlines(a + b) == Unlines(a) + Unlines(b)
  {
    if a == [] {
      assert a + b == b;
    } else {
      assert (a + b)[1..] == a[1..] + b;
      UnlinesConcat(a[1..], b);
    }
  }

  /** The lines of a list whose items end in commas, the last one in `end`. */
  function Listed(xs: seq<string>, end: string): seq<string> {
    if xs == [] then [end] else if |xs| == 1 then [xs[0] + end] else [xs[0] + ","] + Listed(xs[1..], end)
  }

  lemma {:induction false} JoinIsListed(xs: seq<string>, end: string)
    ensures Joined(xs, ",\n") + end + "\n" == Unlines(Listed(xs, end))
  {
    if |xs| <= 1 {
      assert Listed(xs, end)[1..] == [];
    } else {
      JoinIsListed(xs[1..], end);
      assert Listed(xs, end)[1..] == Listed(xs[1..], end);
    }
  }

  // ----- What is written -----

  function TypeText(t: ColumnType): string {
    match t
    case IntType => "INT"
    case BigIntType => "BIGINT"
    case FloatType => "DOUBLE"
    case VarCharType(n) => "VARCHAR(" + Digits(n) + ")"
    case TextType => "TEXT"
    case BlobType => "BLOB"
    case TimestampType => "TIMESTAMP"
  }

  /** Backslashes and single quotes are escaped. */
  function Escape(s: string): string {
    if s == "" then "" else EscapeChar(s[0]) + Escape(s[1..])
  }

  function EscapeChar(c: char): string {
    if c == '\\' then "\\\\" else if c == '\'' then "\\'" else [c]
  }

  function ValueText(v: Value): string {
    match v
    case Null => "NULL"
    case Int(n) => IntText(n)
    case Text(s) => "'" + Escape(s) + "'"
  }

  function Quoted(name: string): string {
    "`" + name + "`"
  }

  function ColumnText(c: Column): string {
    Quoted(c.name) + " " + TypeText(c.colType) + if c.primaryKey then " PRIMARY KEY" else ""
  }

  function ValueTexts(row: Row): (r: seq<string>)
    ensures |r| == |row|
  {
    seq(|row|, i requires 0 <= i < |row| => ValueText(row[i]))
  }

  function RowText(row: Row): string {
    "(" + Joined(ValueTexts(row), ", ") + ")"
  }

  function ColumnTexts(columns: seq<Column>): (r: seq<string>)
    ensures |r| == |columns|
  {
    seq(|columns|, i requires 0 <= i < |columns| => ColumnText(columns[i]))
  }

  function RowTexts(rows: seq<Row>): (r: seq<string>)
    ensures |r| == |rows|
  {
    seq(|rows|, i requires 0 <= i < |rows| => RowText(rows[i]))
  }

  function NameTexts(columns: seq<Column>): seq<string> {
    seq(|columns|, i requires 0 <= i < |columns| => Quoted(columns[i].name))
  }

  function Indented(xs: seq<string>): (r: seq<string>)
    ensures |r| == |xs|
  {
    seq(|xs|, i requires 0 <= i < |xs| => "  " + xs[i])
  }

  function CreateDatabase(name: string): string {
    "CREATE DATABASE IF NOT EXISTS " + Quoted(name) + ";"
  }

  function UseDatabase(name: string): string {
    "USE " + Quoted(name) + ";"
  }

  function CreateHead(t: DumpedTable): string {
    "CREATE TABLE IF NOT EXISTS " + Quoted(t.name) + " ("
  }

  function InsertHead(t: DumpedTable): string {
    "INSERT INTO " + Quoted(t.name) + " (" + Joined(NameTexts(t.columns), ", ") + ") VALUES"
  }

  function CreateLines(t: DumpedTable): seq<string> {
    [CreateHead(t)] + Listed(Indented(ColumnTexts(t.columns)), "") + [");", ""]
  }

  function InsertLines(t: DumpedTable): seq<string> {
    if t.rows == [] then [] else [InsertHead(t)] + Listed(Indented(RowTexts(t.rows)), ";") + [""]
  }

  function TableLines(t: DumpedTable): seq<string> {
    CreateLines(t) + InsertLines(t)
  }

  function TablesLines(ts: seq<DumpedTable>): seq<string> {
    if ts == [] then [] else TablesLines(ts[..|ts| - 1]) + TableLines(ts[|ts| - 1])
  }

  function DatabaseLines(d: DumpedDatabase): seq<string> {
    [CreateDatabase(d.name), UseDatabase(d.name), ""] + TablesLines(d.tables)
  }

  const SYSTEM_DATABASES := ["information_schema", "performance_schema", "mysql", "sys", "test"]

  predicate IsSystem(name: string) {
    name in SYSTEM_DATABASES
  }

  /** Nothing is written of a system database. */
  function PartLines(d: DumpedDatabase): seq<string> {
    if IsSystem(d.name) then [] else DatabaseLines(d)
  }

  function DatabasesLines(dbs: seq<DumpedDatabase>): seq<string> {
    if dbs == [] then [] else DatabasesLines(dbs[..|dbs| - 1]) + PartLines(dbs[|dbs| - 1])
  }

  function Banner(timestamp: nat): seq<string> {
    ["-- RunAlexDB SQL dump", "-- Generated: unix_ts=" + Digits(timestamp), ""]
  }

  function DumpLines(timestamp: nat, dbs: seq<DumpedDatabase>): seq<string> {
    Banner(timestamp) + DatabasesLines(dbs)
  }

  method DumpTable(t: DumpedTable) returns (out: string)
    ensures out == Unlines(TableLines(t))
  {
    var colDefs := Indented(ColumnTexts(t.columns));
    out := CreateHead(t) + "\n";
    out := out + Joined(colDefs, ",\n");
    out := out + "\n);\n\n";
    CreateIsLines(t, colDefs);
    if t.rows != [] {
      var rowStrs := Indented(RowTexts(t.rows));
      out := out + InsertHead(t) + "\n";
      out := out + Joined(rowStrs, ",\n");
      out := out + ";\n\n";
      InsertIsLines(t, rowStrs, Unlines(CreateLines(t)));
    }
    UnlinesConcat(CreateLines(t), InsertLines(t));
  }

  lemma CreateIsLines(t: DumpedTable, defs: seq<string>)
    requires defs == Indented(ColumnTexts(t.columns))
    ensures CreateHead(t) + "\n" + Joined(defs, ",\n") + "\n);\n\n" == Unlines(CreateLines(t))
  {
    var body := Listed(defs, "");
    JoinIsListed(defs, "");
    UnlinesConcat([CreateHead(t)] + body, [");", ""]);
    UnlinesConcat([CreateHead(t)], body);
    TwoLines(");", "");
    OneLine(CreateHead(t));
    var head, joined := CreateHead(t) + "\n", Joined(defs, ",\n");
    assert joined + "" + "\n" == joined + "\n";
    assert head + joined + "\n);\n\n" == head + (joined + "\n") + ");\n\n";
  }

  lemma InsertIsLines(t: DumpedTable, rows: seq<string>, before: string)
    requires rows == Indented(RowTexts(t.rows)) && t.rows != []
    ensures before + InsertHead(t) + "\n" + Joined(rows, ",\n") + ";\n\n" == before + Unlines(InsertLines(t))
  {
    var body := Listed(rows, ";");
    JoinIsListed(rows, ";");
    UnlinesConcat([InsertHead(t)] + body, [""]);
    UnlinesConcat([InsertHead(t)], body);
    OneLine("");
    OneLine(InsertHead(t));
    var joined := Joined(rows, ",\n");
    assert before + InsertHead(t) + "\n" + joined + ";\n\n"
        == before + ((InsertHead(t) + "\n") + (joined + ";" + "\n") + "\n");
  }

  lemma OneLine(line: string)
    ensures Unlines([line]) == line + "\n"
  {
    assert [line][1..] == [];
  }

  lemma TwoLines(a: string, b: string)
    ensures Unlines([a, b]) == a + "\n" + b + "\n"
  {
    assert [a, b][1..] == [b];
    OneLine(b);
  }

  lemma HeadLines(a: string, b: string)
    ensures Unlines([a, b, ""]) == a + "\n" + b + "\n\n"
  {
    assert [a, b, ""][1..] == [b, ""];
    TwoLines(b, "");
    assert a + "\n" + (b + "\n" + "" + "\n") == a + "\n" + b + "\n\n";
  }

  method DumpTables(ts: seq<DumpedTable>) returns (out: string)
    ensures out == Unlines(TablesLines(ts))
  {
    out := "";
    for i := 0 to |ts|
      invariant out == Unlines(TablesLines(ts[..i]))
    {
      var text := DumpTable(ts[i]);
      out := out + text;
      assert ts[..i + 1][..i] == ts[..i];
      UnlinesConcat(TablesLines(ts[..i]), TableLines(ts[i]));
    }
    assert ts[..|ts|] == ts;
  }

  method DumpDatabase(d: DumpedDatabase) returns (out: string)
    ensures out == Unlines(DatabaseLines(d))
  {
    out := CreateDatabase(d.name) + "\n";
    out := out + UseDatabase(d.name) + "\n\n";
    HeadLines(CreateDatabase(d.name), UseDatabase(d.name));
    var tables := DumpTables(d.tables);
    out := out + tables;
    UnlinesConcat([CreateDatabase(d.name), UseDatabase(d.name), ""], TablesLines(d.tables));
  }

  lemma OnePartMore(dbs: seq<DumpedDatabase>, i: nat)
    requires i < |dbs|
    ensures Unlines(DatabasesLines(dbs[..i + 1])) == Unlines(DatabasesLines(dbs[..i])) + Unlines(PartLines(dbs[i]))
  {
    assert dbs[..i + 1][..i] == dbs[..i];
    UnlinesConcat(DatabasesLines(dbs[..i]), PartLines(dbs[i]));
  }

  method DumpDatabases(dbs: seq<DumpedDatabase>) returns (out: string)
    ensures out == Unlines(DatabasesLines(dbs))
  {
    out := "";
    for i := 0 to |dbs|
      invariant out == Unlines(DatabasesLines(dbs[..i]))
    {
      OnePartMore(dbs, i);
      if IsSystem(dbs[i].name) {
        continue;
      }
      var text := DumpDatabase(dbs[i]);
      out := out + text;
    }
    assert dbs[..|dbs|] == dbs;
  }

  /** The dump: a banner, then every database that is not the system's, in the order the catalogue gives. */
  method DumpSql(timestamp: nat, dbs: seq<DumpedDatabase>) returns (out: string)
    ensures out == Unlines(DumpLines(timestamp, dbs))
  {
    var stamp := "-- Generated: unix_ts=" + Digits(timestamp);
    out := "-- RunAlexDB SQL dump" + "\n" + stamp + "\n\n";
    HeadLines("-- RunAlexDB SQL dump", stamp);
    var databases := DumpDatabases(dbs);
    out := out + databases;
    UnlinesConcat(Banner(timestamp), DatabasesLines(dbs));
  }
}
