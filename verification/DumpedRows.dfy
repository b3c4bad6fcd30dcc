/** Reading the rows of a dump as SQL literals: NULL, numbers, and quoted texts with escapes. */
module DumpedRows {
  import opened Dump
  import opened Numbers
  import opened Seqs
  import opened Sql
  import opened Texts

  datatype Parsed<+T> = Bad | Got(value: T, rest: string)

  /** The text up to the closing quote; a backslash takes the next character as it is, two quotes are one. */
  function ReadQuoted(s: string): Parsed<string>
    decreases |s|
  {
    if s == "" then Bad
    else if s[0] == '\'' && (|s| == 1 || s[1] != '\'') then Got("", s[1..])
    else if s[0] == '\'' || s[0] == '\\' then if |s| == 1 then Bad else Prefixed(s[1], ReadQuoted(s[2..]))
    else Prefixed(s[0], ReadQuoted(s[1..]))
  }

  function Prefixed(c: char, p: Parsed<string>): Parsed<string> {
    match p
    case Bad => Bad
    case Got(text, rest) => Got([c] + text, rest)
  }

  predicate IsNumberChar(c: char) {
    c == '-' || '0' <= c <= '9'
  }

  function NumberEnd(s: string): (n: nat)
    ensures n <= |s|
  {
    if s == "" || !IsNumberChar(s[0]) then 0 else 1 + NumberEnd(s[1..])
  }

  function ReadNumber(s: string): Parsed<Value> {
    match ParseI64(s[..NumberEnd(s)])
    case None => Bad
    case Some(n) => Got(Int(n), s[NumberEnd(s)..])
  }

  function ReadText(s: string): Parsed<Value> {
    match ReadQuoted(s)
    case Bad => Bad
    case Got(text, rest) => Got(Text(text), rest)
  }

  function ReadValue(s: string): Parsed<Value> {
    if s == "" then Bad
    else if s[0] == 'N' then if |s| >= 4 && s[..4] == "NULL" then Got(Null, s[4..]) else Bad
    else if s[0] == '\'' then ReadText(s[1..])
    else ReadNumber(s)
  }

  /** At least one value, values separated by a comma and a space, up to the closing parenthesis. */
  function ReadValues(s: string): Parsed<Row>
    decreases |s|
  {
    match ReadValue(s)
    case Bad => Bad
    case Got(v, rest) =>
      if rest != "" && rest[0] == ')' then Got([v], rest[1..])
      else if 2 <= |rest| <= |s| && rest[0] == ',' && rest[1] == ' ' then
        match ReadValues(rest[2..])
        case Bad => Bad
        case Got(row, rest') => Got([v] + row, rest')
      else Bad
  }

  function ReadRow(s: string): Parsed<Row> {
    if |s| < 2 || s[0] != '(' then Bad
    else if s[1] == ')' then Got([], s[2..])
    else ReadValues(s[1..])
  }

  lemma Associates(a: string, b: string, c: string)
    ensures a + b + c == a + (b + c)
  {
  }

  /** Escaping is undone by reading, and the closing quote is found where it was written. */
  lemma {:induction false} QuotedReadsBack(s: string, rest: string)
    requires rest == "" || rest[0] != '\''
    ensures ReadQuoted(Escape(s) + ("'" + rest)) == Got(s, rest)
  {
    if s == "" {
      assert Escape(s) + ("'" + rest) == "'" + rest;
    } else {
      var more := Escape(s[1..]) + ("'" + rest);
      QuotedReadsBack(s[1..], rest);
      Associates(EscapeChar(s[0]), Escape(s[1..]), "'" + rest);
      FirstApart(s);
    }
  }

  predicate EndsValue(rest: string) {
    rest != "" && (rest[0] == ',' || rest[0] == ')')
  }

  lemma {:induction false} NumberEndsAt(s: string, rest: string)
    requires (forall i :: 0 <= i < |s| ==> IsNumberChar(s[i])) && EndsValue(rest)
    ensures NumberEnd(s + rest) == |s|
  {
    if s == "" {
      assert s + rest == rest;
    } else {
      NumberEndsAt(s[1..], rest);
      assert (s + rest)[1..] == s[1..] + rest;
    }
  }

  lemma NumberReadsBack(n: I64, rest: string)
    requires EndsValue(rest)
    ensures ReadNumber(IntText(n) + rest) == Got(Int(n), rest)
  {
    var s := IntText(n);
    NumberEndsAt(s, rest);
    ParseIntText(n);
    assert (s + rest)[..|s|] == s && (s + rest)[|s|..] == rest;
  }

  lemma TextReadsBack(text: string, rest: string)
    requires EndsValue(rest)
    ensures ReadValue("'" + Escape(text) + "'" + rest) == Got(Text(text), rest)
  {
    var s := "'" + Escape(text) + "'" + rest;
    QuotedReadsBack(text, rest);
    assert s[0] == '\'' && s[1..] == Escape(text) + ("'" + rest);
  }

  lemma ValueReadsBack(v: Value, rest: string)
    requires EndsValue(rest)
    ensures ReadValue(ValueText(v) + rest) == Got(v, rest)
  {
    match v {
      case Null =>
        var s := "NULL" + rest;
        assert s[..4] == "NULL" && s[4..] == rest;
      case Int(n) =>
        NumberReadsBack(n, rest);
        assert (IntText(n) + rest)[0] == IntText(n)[0];
      case Text(text) => TextReadsBack(text, rest);
    }
  }

  lemma OneMoreValueRead(v: Value, more: string, row: Row, rest: string)
    requires ReadValues(more) == Got(row, rest)
    ensures ReadValues(ValueText(v) + (", " + more)) == Got([v] + row, rest)
  {
    var tail := ", " + more;
    ValueReadsBack(v, tail);
    assert tail[0] == ',' && tail[1] == ' ' && tail[2..] == more;
  }

  lemma LastValueRead(v: Value, rest: string)
    ensures ReadValues(ValueText(v) + (")" + rest)) == Got([v], rest)
  {
    ValueReadsBack(v, ")" + rest);
    assert (")" + rest)[1..] == rest;
  }

  lemma ValueTextsApart(row: Row)
    requires row != []
    ensures ValueTexts(row)[0] == ValueText(row[0]) && ValueTexts(row)[1..] == ValueTexts(row[1..])
  {
  }

  lemma {:induction false} ValuesReadBack(row: Row, rest: string)
    requires row != []
    ensures ReadValues(Joined(ValueTexts(row), ", ") + (")" + rest)) == Got(row, rest)
  {
    ValueTextsApart(row);
    FirstApart(row);
    if |row| == 1 {
      LastValueRead(row[0], rest);
      assert Joined(ValueTexts(row), ", ") == ValueText(row[0]) && row == [row[0]];
    } else {
      var others := Joined(ValueTexts(row[1..]), ", ");
      assert Joined(ValueTexts(row), ", ") == ValueText(row[0]) + ", " + others;
      ValuesReadBack(row[1..], rest);
      OneMoreValueRead(row[0], others + (")" + rest), row[1..], rest);
      Regroup(ValueText(row[0]), ", ", others, ")" + rest);
    }
  }

  lemma Regroup(a: string, b: string, c: string, d: string)
    ensures a + b + c + d == a + (b + (c + d))
  {
  }

  lemma ValueStart(v: Value)
    ensures |ValueText(v)| > 0 && ValueText(v)[0] != ')'
  {
  }

  lemma OpenRow(body: string, row: Row, rest: string)
    requires |body| > 0 && body[0] != ')' && ReadValues(body) == Got(row, rest)
    ensures ReadRow("(" + body) == Got(row, rest)
  {
    assert ("(" + body)[1..] == body;
  }

  /** A printed row is read back as the same values in the same order. */
  lemma RowReadsBack(row: Row, rest: string)
    ensures ReadRow(RowText(row) + rest) == Got(row, rest)
  {
    if row == [] {
      assert RowText(row) == "()";
    } else {
      var values := Joined(ValueTexts(row), ", ");
      ValuesReadBack(row, rest);
      ValueStart(row[0]);
      JoinedStart(ValueTexts(row), ", ");
      OpenRow(values + (")" + rest), row, rest);
      Regroup("(", values, ")", rest);
    }
  }
}
