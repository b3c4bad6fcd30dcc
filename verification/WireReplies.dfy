/** What a client that follows the MySQL text protocol makes of the packets of one reply. */
module WireReplies {
  import opened Numbers
  import opened Seqs
  import opened Wire
  import opened WireWriters
  import Utf8

  datatype Reply =
    | Done(affected: nat, lastInsertId: nat)
    | Failed(code: nat, message: Bytes)
    | Table(names: seq<Bytes>, rows: seq<seq<Option<Bytes>>>)

  /** The name is the fifth of the six texts that open a column definition. */
  function ReadName(payload: Bytes): Option<Bytes> {
    match ReadTextRow(6, payload)
    case Fail => None
    case Done(texts, _) => if |texts| == 6 then texts[4] else None
  }

  function ReadNames(packets: seq<Packet>): Option<seq<Bytes>> {
    if packets == [] then Some([])
    else
      var k := |packets| - 1;
      match (ReadNames(packets[..k]), ReadName(packets[k].payload))
      case (Some(names), Some(name)) => Some(names + [name])
      case _ => None
  }

  /** Rows of `n` cells up to the closing EOF packet, which must be the last packet. */
  function ReadRows(n: nat, packets: seq<Packet>): Option<seq<seq<Option<Bytes>>>> {
    if packets == [] then None
    else if LooksLikeEof(packets[0].payload) then if |packets| == 1 then Some([]) else None
    else
      match (ReadTextRow(n, packets[0].payload), ReadRows(n, packets[1..]))
      case (Done(row, rest), Some(rows)) => if rest == [] then Some([row] + rows) else None
      case _ => None
  }

  function ReadTable(n: nat, packets: seq<Packet>): Option<Reply> {
    if |packets| < n + 2 || !LooksLikeEof(packets[n].payload) then None
    else
      match (ReadNames(packets[..n]), ReadRows(n, packets[n + 1..]))
      case (Some(names), Some(rows)) => Some(Table(names, rows))
      case _ => None
  }

  function ReadOk(b: Bytes): Option<Reply> {
    match ReadLenEnc(b)
    case Fail => None
    case Done(affected, rest) =>
      match ReadLenEnc(rest)
      case Fail => None
      case Done(id, _) => Some(Reply.Done(affected, id))
  }

  /** The first byte tells an OK packet, an error and a result set apart. */
  function ReadReply(packets: seq<Packet>): Option<Reply> {
    if packets == [] || packets[0].payload == [] then None
    else
      var p := packets[0].payload;
      if p[0] == 0x00 && |packets| == 1 then ReadOk(p[1..])
      else if p[0] == 0xff && |packets| == 1 && |p| >= 9 then Some(Failed(FromLittleEndian(p[1..3]), p[9..]))
      else
        match ReadLenEnc(p)
        case Fail => None
        case Done(n, rest) => if rest == [] then ReadTable(n, packets[1..]) else None
  }

  /** What the result was, in bytes. */
  function ReplyOf(r: QueryResult): Reply {
    match r
    case Ok(affected, id) => Reply.Done(affected, id)
    case Err(code, message) => Failed(code, Utf8.Encode(message))
    case Rows(columns, rows) => TableOf(columns, rows)
    case ValueRows(columns, values) => TableOf(columns, DisplayedRows(values))
  }

  function EncodeAll(columns: seq<string>): (r: seq<Bytes>)
    ensures |r| == |columns|
  {
    seq(|columns|, i requires 0 <= i < |columns| => Utf8.Encode(columns[i]))
  }

  function EncodeRows(rows: seq<seq<Option<string>>>): (r: seq<seq<Option<Bytes>>>)
    ensures |r| == |rows|
  {
    seq(|rows|, i requires 0 <= i < |rows| => EncodeRow(rows[i]))
  }

  function TableOf(columns: seq<string>, rows: seq<seq<Option<string>>>): Reply {
    Table(EncodeAll(columns), EncodeRows(rows))
  }

  predicate Fitting(payloads: seq<Bytes>) {
    forall i :: 0 <= i < |payloads| ==> FitsPacket(payloads[i])
  }

  predicate Rectangular(n: nat, rows: seq<seq<Option<string>>>) {
    forall i :: 0 <= i < |rows| ==> |rows[i]| == n
  }

  // ----- Column definitions -----

  predicate IsColDef(p: Packet, column: string) {
    p.payload == ColDefPayload(column) && FitsPacket(p.payload)
  }

  predicate IsRow(p: Packet, row: seq<Option<string>>, n: nat) {
    p.payload == TextRow(EncodeRow(row)) && FitsPacket(p.payload) && |row| == n
  }

  lemma NameReadsBack(p: Packet, column: string)
    requires IsColDef(p, column)
    ensures ReadName(p.payload) == Some(Utf8.Encode(column))
  {
    TextRowReadsBack(ColDefTexts(Utf8.Encode(column)), ColDefFixed(0xfd));
  }

  lemma OneMoreEncoded(columns: seq<string>)
    requires columns != []
    ensures EncodeAll(columns) == EncodeAll(columns[..|columns| - 1]) + [Utf8.Encode(columns[|columns| - 1])]
  {
    var k := |columns| - 1;
    forall i | 0 <= i <= k
      ensures EncodeAll(columns)[i] == (EncodeAll(columns[..k]) + [Utf8.Encode(columns[k])])[i]
    {
    }
  }

  lemma {:induction false} NamesReadBack(columns: seq<string>, packets: seq<Packet>)
    requires |packets| == |columns|
    requires forall i :: 0 <= i < |columns| ==> IsColDef(packets[i], columns[i])
    ensures ReadNames(packets) == Some(EncodeAll(columns))
  {
    if columns != [] {
      var k := |columns| - 1;
      NamesReadBack(columns[..k], packets[..k]);
      NameReadsBack(packets[k], columns[k]);
      LastApart(packets);
      OneMoreEncoded(columns);
    }
  }

  // ----- Rows -----

  lemma OneRowReadsBack(n: nat, row: seq<Option<string>>, p: Packet, packets: seq<Packet>,
                        rows: seq<seq<Option<Bytes>>>)
    requires IsRow(p, row, n) && ReadRows(n, packets) == Some(rows)
    ensures ReadRows(n, [p] + packets) == Some([EncodeRow(row)] + rows)
  {
    TextRowReadsBack(EncodeRow(row), []);
    assert TextRow(EncodeRow(row)) + [] == p.payload;
    RowIsNotEof(EncodeRow(row));
    assert ([p] + packets)[1..] == packets;
  }

  lemma EncodedFirst(rows: seq<seq<Option<string>>>)
    requires rows != []
    ensures EncodeRows(rows) == [EncodeRow(rows[0])] + EncodeRows(rows[1..])
  {
    forall i | 0 <= i < |rows|
      ensures EncodeRows(rows)[i] == ([EncodeRow(rows[0])] + EncodeRows(rows[1..]))[i]
    {
    }
  }

  lemma {:induction false} RowsReadBack(n: nat, rows: seq<seq<Option<string>>>, packets: seq<Packet>)
    requires |packets| == |rows| + 1
    requires forall i :: 0 <= i < |rows| ==> IsRow(packets[i], rows[i], n)
    requires packets[|rows|].payload == EOF
    ensures ReadRows(n, packets) == Some(EncodeRows(rows))
  {
    if rows == [] {
      assert packets == [packets[0]];
    } else {
      RowsReadBack(n, rows[1..], packets[1..]);
      OneRowReadsBack(n, rows[0], packets[0], packets[1..], EncodeRows(rows[1..]));
      FirstApart(packets);
      EncodedFirst(rows);
    }
  }

  // ----- Whole replies -----

  lemma OkReadsBack(affected: nat, id: nat, p: Packet)
    requires affected < TWO_64 && id < TWO_64 && p.payload == OkPayload(affected, id)
    ensures ReadReply([p]) == Some(Reply.Done(affected, id))
  {
    TwoNumbersReadBack(affected, id, [2, 0, 0, 0]);
    ConcatAssociates([0x00], LenEnc(affected), LenEnc(id));
    ConcatAssociates([0x00], LenEnc(affected) + LenEnc(id), [2, 0, 0, 0]);
    assert p.payload[1..] == LenEnc(affected) + LenEnc(id) + [2, 0, 0, 0];
  }

  lemma TwoNumbersReadBack(affected: nat, id: nat, tail: Bytes)
    requires affected < TWO_64 && id < TWO_64
    ensures ReadOk(LenEnc(affected) + LenEnc(id) + tail) == Some(Reply.Done(affected, id))
  {
    LenEncReadsBack(affected, LenEnc(id) + tail);
    LenEncReadsBack(id, tail);
    ConcatAssociates(LenEnc(affected), LenEnc(id), tail);
  }

  lemma ErrReadsBack(code: nat, message: Bytes, p: Packet)
    requires code < 0x1_0000 && p.payload == ErrPayload(code, message)
    ensures ReadReply([p]) == Some(Failed(code, message))
  {
    SmallPowers();
    LittleEndianReadsBack(code, 2);
    assert p.payload[1..3] == LittleEndian(code, 2) && p.payload[9..] == message;
  }

  predicate Carry(packets: seq<Packet>, payloads: seq<Bytes>) {
    |packets| == |payloads| && forall i :: 0 <= i < |packets| ==> packets[i].payload == payloads[i]
  }

  lemma CarrySlice(packets: seq<Packet>, payloads: seq<Bytes>, from: nat, part: seq<Bytes>)
    requires Carry(packets, payloads) && from + |part| <= |payloads| && payloads[from..from + |part|] == part
    ensures Carry(packets[from..from + |part|], part)
  {
    forall i | 0 <= i < |part|
      ensures packets[from..from + |part|][i].payload == part[i]
    {
      assert packets[from + i].payload == payloads[from..from + |part|][i];
    }
  }

  /** The packets of a result set, taken apart. */
  lemma Layout(packets: seq<Packet>, count: Bytes, defs: seq<Bytes>, rows: seq<Bytes>)
    returns (ds: seq<Packet>, eof: Packet, rest: seq<Packet>)
    requires Carry(packets, [count] + defs + [EOF] + rows + [EOF])
    ensures packets[0].payload == count && packets[1..] == ds + [eof] + rest
    ensures Carry(ds, defs) && eof.payload == EOF && Carry(rest, rows + [EOF])
  {
    var payloads, n := [count] + defs + [EOF] + rows + [EOF], |defs|;
    ds, eof, rest := packets[1..n + 1], packets[n + 1], packets[n + 2..];
    assert payloads[1..1 + n] == defs;
    CarrySlice(packets, payloads, 1, defs);
    assert payloads[n + 2..n + 2 + |rows + [EOF]|] == rows + [EOF];
    CarrySlice(packets, payloads, n + 2, rows + [EOF]);
    assert packets[0].payload == payloads[0] && eof.payload == payloads[n + 1];
    assert packets[1..] == ds + [eof] + rest;
  }

  lemma DefsRead(columns: seq<string>, defs: seq<Packet>)
    requires Carry(defs, ColDefs(columns)) && Fitting(ColDefs(columns))
    ensures ReadNames(defs) == Some(EncodeAll(columns))
  {
    forall i | 0 <= i < |columns|
      ensures IsColDef(defs[i], columns[i])
    {
      assert FitsPacket(ColDefs(columns)[i]);
    }
    NamesReadBack(columns, defs);
  }

  lemma RowsRead(n: nat, rows: seq<seq<Option<string>>>, rest: seq<Packet>)
    requires Carry(rest, RowPayloads(rows) + [EOF]) && Fitting(RowPayloads(rows)) && Rectangular(n, rows)
    ensures ReadRows(n, rest) == Some(EncodeRows(rows))
  {
    forall i | 0 <= i < |rows|
      ensures IsRow(rest[i], rows[i], n)
    {
      assert FitsPacket(RowPayloads(rows)[i]);
      assert (RowPayloads(rows) + [EOF])[i] == RowPayloads(rows)[i];
    }
    assert (RowPayloads(rows) + [EOF])[|rows|] == EOF;
    RowsReadBack(n, rows, rest);
  }

  lemma PartsFit(count: Bytes, defs: seq<Bytes>, rows: seq<Bytes>)
    requires Fitting([count] + defs + [EOF] + rows + [EOF])
    ensures Fitting(defs) && Fitting(rows)
  {
    var payloads := [count] + defs + [EOF] + rows + [EOF];
    assert forall i :: 0 <= i < |defs| ==> defs[i] == payloads[1 + i];
    assert forall i :: 0 <= i < |rows| ==> rows[i] == payloads[|defs| + 2 + i];
  }

  lemma TableParts(names: seq<Bytes>, rows: seq<seq<Option<Bytes>>>, defs: seq<Packet>, eof: Packet,
                   rest: seq<Packet>)
    requires ReadNames(defs) == Some(names) && eof.payload == EOF && ReadRows(|defs|, rest) == Some(rows)
    ensures ReadTable(|defs|, defs + [eof] + rest) == Some(Table(names, rows))
  {
    var packets := defs + [eof] + rest;
    RowIsNotEof([]);
    assert packets[..|defs|] == defs && packets[|defs|] == eof && packets[|defs| + 1..] == rest;
  }

  lemma FirstPacketTells(n: nat, packets: seq<Packet>, table: Reply)
    requires 1 <= n <= 250 && packets != [] && packets[0].payload == [n]
    requires ReadTable(n, packets[1..]) == Some(table)
    ensures ReadReply(packets) == Some(table)
  {
    assert [n][1..] == [];
  }

  lemma TablePacketsReadBack(columns: seq<string>, rows: seq<seq<Option<string>>>, packets: seq<Packet>)
    requires 1 <= |columns| <= 250 && Rectangular(|columns|, rows)
    requires Fitting(TablePayloads(columns, rows)) && Carry(packets, TablePayloads(columns, rows))
    ensures ReadReply(packets) == Some(TableOf(columns, rows))
  {
    SamePayloads(columns, rows);
    PartsFit([|columns|], ColDefs(columns), RowPayloads(rows));
    var defs, eof, rest := Layout(packets, [|columns|], ColDefs(columns), RowPayloads(rows));
    DefsRead(columns, defs);
    RowsRead(|columns|, rows, rest);
    TableParts(EncodeAll(columns), EncodeRows(rows), defs, eof, rest);
    FirstPacketTells(|columns|, packets, TableOf(columns, rows));
  }

  lemma SamePayloads(columns: seq<string>, rows: seq<seq<Option<string>>>)
    requires |columns| <= 250
    ensures TablePayloads(columns, rows) == [[|columns|]] + ColDefs(columns) + [EOF] + RowPayloads(rows) + [EOF]
  {
  }

  /** The results the protocol can carry in packets of this server. */
  predicate Sendable(r: QueryResult) {
    Fitting(Payloads(r)) &&
    match r
    case Ok(affected, id) => affected < TWO_64 && id < TWO_64
    case Err(code, _) => code < 0x1_0000
    case Rows(columns, rows) => 1 <= |columns| <= 250 && Rectangular(|columns|, rows)
    case ValueRows(columns, values) => 1 <= |columns| <= 250 && Rectangular(|columns|, DisplayedRows(values))
  }

  lemma PacketsReadBack(r: QueryResult, first: Byte)
    requires Sendable(r)
    ensures ReadReply(Numbered(Payloads(r), first)) == Some(ReplyOf(r))
  {
    var packets := Numbered(Payloads(r), first);
    match r {
      case Ok(affected, id) =>
        assert packets == [Packet(OkPayload(affected, id), first)];
        OkReadsBack(affected, id, packets[0]);
      case Err(code, message) =>
        assert packets == [Packet(ErrPayload(code, Utf8.Encode(message)), first)];
        ErrReadsBack(code, Utf8.Encode(message), packets[0]);
      case Rows(columns, rows) => TablePacketsReadBack(columns, rows, packets);
      case ValueRows(columns, values) => TablePacketsReadBack(columns, DisplayedRows(values), packets);
    }
  }

  /** However the bytes of a reply are cut, draining them yields exactly its packets, numbered consecutively,
      with nothing left over, and a client reads the result back from them. */
  lemma ReplyIsDelivered(r: QueryResult, first: Byte, chunks: seq<Bytes>)
    requires Sendable(r) && Concat(chunks) == Sent(Payloads(r), first)
    ensures Packets(Concat(chunks)) == Numbered(Payloads(r), first) && Residue(Concat(chunks)) == []
    ensures ReadReply(Packets(Concat(chunks))) == Some(ReplyOf(r))
  {
    SentIsFrames(Payloads(r), first);
    PacketsOfFrames(Numbered(Payloads(r), first));
    PacketsReadBack(r, first);
  }

  /** The count is cut to one byte: it is the right number of columns exactly up to 250. */
  lemma CountIsExact(n: nat)
    ensures ReadLenEnc([n % 256]) == Read.Done(n, []) <==> n <= 250
  {
  }

  lemma CellsSame(x: seq<Option<string>>, y: seq<Option<string>>)
    requires EncodeRow(x) == EncodeRow(y)
    ensures x == y
  {
    forall i | 0 <= i < |x|
      ensures x[i] == y[i]
    {
      assert EncodeRow(x)[i] == EncodeRow(y)[i];
      if x[i].Some? && y[i].Some? { Utf8.EncodeInjective(x[i].value, y[i].value); }
    }
  }

  /** Two result sets that send the same bytes are the same texts and NULLs under the same names. */
  lemma SameBytesSameTable(a: seq<string>, x: seq<seq<Option<string>>>, b: seq<string>, y: seq<seq<Option<string>>>,
                           first: Byte)
    requires Sendable(Rows(a, x)) && Sendable(Rows(b, y))
    requires Sent(TablePayloads(a, x), first) == Sent(TablePayloads(b, y), first)
    ensures a == b && x == y
  {
    var bytes := Sent(TablePayloads(a, x), first);
    assert Concat([bytes]) == bytes;
    ReplyIsDelivered(Rows(a, x), first, [bytes]);
    ReplyIsDelivered(Rows(b, y), first, [bytes]);
    assert EncodeAll(a) == EncodeAll(b) && EncodeRows(x) == EncodeRows(y);
    forall i | 0 <= i < |a|
      ensures a[i] == b[i]
    {
      assert EncodeAll(a)[i] == EncodeAll(b)[i];
      Utf8.EncodeInjective(a[i], b[i]);
    }
    forall i | 0 <= i < |x|
      ensures x[i] == y[i]
    {
      assert EncodeRows(x)[i] == EncodeRows(y)[i];
      CellsSame(x[i], y[i]);
    }
  }

  // ----- The bytes kept ready for SELECT 1 -----

  const ONE_COLUMN: Bytes :=
    [0x03, 0x64, 0x65, 0x66, 0x00, 0x00, 0x00, 0x01, 0x31, 0x01, 0x31,
     0x0c, 0x21, 0x00, 0xff, 0x00, 0x00, 0x00, 0xfd, 0x00, 0x00, 0x00, 0x00, 0x00]

  const SELECT_1_RESPONSE: Bytes :=
    [0x01, 0x00, 0x00, 0x01, 0x01]
    + ([0x18, 0x00, 0x00, 0x02] + ONE_COLUMN)
    + [0x05, 0x00, 0x00, 0x03, 0xfe, 0x00, 0x00, 0x02, 0x00]
    + [0x02, 0x00, 0x00, 0x04, 0x01, 0x31]
    + [0x05, 0x00, 0x00, 0x05, 0xfe, 0x00, 0x00, 0x02, 0x00]

  lemma ShortCell(row: seq<Option<Bytes>>, i: nat, before: Bytes, s: Bytes)
    requires i < |row| && row[i] == Some(s) && |s| < 251 && TextRow(row[..i]) == before
    ensures TextRow(row[..i + 1]) == before + ([|s|] + s)
  {
    assert row[..i + 1][..i] == row[..i];
  }

  lemma OneColumnTexts()
    ensures TextRow(ColDefTexts([0x31])) == [0x03, 0x64, 0x65, 0x66, 0x00, 0x00, 0x00, 0x01, 0x31, 0x01, 0x31]
  {
    var row := ColDefTexts([0x31]);
    assert row[..0] == [] && row[..6] == row;
    ShortCell(row, 0, [], DEF);
    ShortCell(row, 1, [0x03, 0x64, 0x65, 0x66], []);
    ShortCell(row, 2, [0x03, 0x64, 0x65, 0x66, 0x00], []);
    ShortCell(row, 3, [0x03, 0x64, 0x65, 0x66, 0x00, 0x00], []);
    ShortCell(row, 4, [0x03, 0x64, 0x65, 0x66, 0x00, 0x00, 0x00], [0x31]);
    ShortCell(row, 5, [0x03, 0x64, 0x65, 0x66, 0x00, 0x00, 0x00, 0x01, 0x31], [0x31]);
  }

  lemma OneColumn()
    ensures ColDefPayload("1") == ONE_COLUMN
  {
    assert Utf8.Encode("1") == [0x31];
    OneColumnTexts();
  }

  lemma OneRow()
    ensures TextRow(EncodeRow([Some("1")])) == [0x01, 0x31]
  {
    assert Utf8.Encode("1") == [0x31];
    var row: seq<Option<Bytes>> := [Some([0x31])];
    assert EncodeRow([Some("1")]) == row;
    assert row[..0] == [] && row[..1] == row;
    ShortCell(row, 0, [], [0x31]);
  }

  lemma ShortFrame(payload: Bytes, seqNo: Byte)
    requires |payload| < 256
    ensures Frame(Packet(payload, seqNo)) == [|payload|, 0x00, 0x00, seqNo] + payload
  {
  }

  lemma FrameLiterals()
    ensures Frame(Packet([0x01], 1)) == [0x01, 0x00, 0x00, 0x01, 0x01]
    ensures Frame(Packet(EOF, 3)) == [0x05, 0x00, 0x00, 0x03, 0xfe, 0x00, 0x00, 0x02, 0x00]
    ensures Frame(Packet([0x01, 0x31], 4)) == [0x02, 0x00, 0x00, 0x04, 0x01, 0x31]
    ensures Frame(Packet(EOF, 5)) == [0x05, 0x00, 0x00, 0x05, 0xfe, 0x00, 0x00, 0x02, 0x00]
  {
    ShortFrame([0x01], 1);
    ShortFrame(EOF, 3);
    ShortFrame([0x01, 0x31], 4);
    ShortFrame(EOF, 5);
  }

  lemma SelectOnePayloads(count: Bytes, def: Bytes, row: Bytes)
    requires ColDefPayload("1") == def && TextRow(EncodeRow([Some("1")])) == row && count == [0x01]
    ensures TablePayloads(["1"], [[Some("1")]]) == [count, def, EOF, row, EOF]
  {
    assert ColDefs(["1"]) == [def] && RowPayloads([[Some("1")]]) == [row];
  }

  lemma SentAfter(ps: seq<Bytes>, k: nat)
    requires k < |ps| && k < 255
    ensures Sent(ps[..k + 1], 1) == Sent(ps[..k], 1) + Frame(Packet(ps[k], k + 1))
  {
    SeqNoWraps(1, k);
    assert ps[..k + 1][..k] == ps[..k];
  }

  lemma ThreeSent(ps: seq<Bytes>)
    requires |ps| >= 3
    ensures Sent(ps[..3], 1) == Frame(Packet(ps[0], 1)) + Frame(Packet(ps[1], 2)) + Frame(Packet(ps[2], 3))
  {
    SentAfter(ps, 0);
    SentAfter(ps, 1);
    SentAfter(ps, 2);
    assert ps[..0] == [];
  }

  lemma FiveSent(ps: seq<Bytes>)
    requires |ps| == 5
    ensures Sent(ps, 1) == Frame(Packet(ps[0], 1)) + Frame(Packet(ps[1], 2)) + Frame(Packet(ps[2], 3))
                         + Frame(Packet(ps[3], 4)) + Frame(Packet(ps[4], 5))
  {
    ThreeSent(ps);
    SentAfter(ps, 3);
    SentAfter(ps, 4);
    assert ps[..5] == ps;
  }

  /** They are what the encoder writes for one column named 1 and one row holding 1. */
  lemma SelectOneBytes()
    ensures SELECT_1_RESPONSE == Sent(TablePayloads(["1"], [[Some("1")]]), 1)
  {
    OneColumn();
    OneRow();
    SelectOnePayloads([0x01], ONE_COLUMN, [0x01, 0x31]);
    FiveSent([[0x01], ONE_COLUMN, EOF, [0x01, 0x31], EOF]);
    FrameLiterals();
    ShortFrame(ONE_COLUMN, 2);
  }
}
