/** The writers that append framed packets to one buffer, and the loop that drains a buffer of packets. */
module WireWriters {
  import opened Numbers
  import opened Sql
  import opened Wire
  import Utf8

  datatype QueryResult =
    | Ok(affected: nat, lastInsertId: nat)
    | Err(code: nat, message: string)
    | Rows(columns: seq<string>, rows: seq<seq<Option<string>>>)
    | ValueRows(columns: seq<string>, values: seq<Row>)

  // ----- What the packets of a reply hold -----

  function EncodeRow(row: seq<Option<string>>): (r: seq<Option<Bytes>>)
    ensures |r| == |row|
  {
    seq(|row|, i requires 0 <= i < |row| => if row[i].None? then None else Some(Utf8.Encode(row[i].value)))
  }

  function Displayed(row: Row): seq<Option<string>> {
    seq(|row|, i requires 0 <= i < |row| => row[i].ToDisplay())
  }

  const DEF: Bytes := [0x64, 0x65, 0x66]

  /** Catalog, schema, table, original table, name, original name. */
  function ColDefTexts(name: Bytes): (cells: seq<Option<Bytes>>)
    ensures |cells| == 6
  {
    [Some(DEF), Some([]), Some([]), Some([]), Some(name), Some(name)]
  }

  function ColDefFixed(colType: Byte): Bytes {
    [0x0c, 0x21, 0, 255, 0, 0, 0, colType, 0, 0, 0, 0, 0]
  }

  function ColDef(name: Bytes, colType: Byte): Bytes {
    TextRow(ColDefTexts(name)) + ColDefFixed(colType)
  }

  function OkPayload(affected: nat, lastInsertId: nat): Bytes {
    [0x00] + LenEnc(affected) + LenEnc(lastInsertId) + [2, 0, 0, 0]
  }

  const SQL_STATE: Bytes := [0x23, 0x48, 0x59, 0x30, 0x30, 0x30]

  function ErrPayload(code: nat, message: Bytes): Bytes {
    [0xff] + LittleEndian(code, 2) + SQL_STATE + message
  }

  function ColDefPayload(column: string): Bytes {
    ColDef(Utf8.Encode(column), 0xfd)
  }

  function ColDefs(columns: seq<string>): seq<Bytes> {
    seq(|columns|, i requires 0 <= i < |columns| => ColDefPayload(columns[i]))
  }

  function RowPayloads(rows: seq<seq<Option<string>>>): seq<Bytes> {
    seq(|rows|, i requires 0 <= i < |rows| => TextRow(EncodeRow(rows[i])))
  }

  function DisplayedRows(values: seq<Row>): seq<seq<Option<string>>> {
    seq(|values|, i requires 0 <= i < |values| => Displayed(values[i]))
  }

  function Head(columns: seq<string>): seq<Bytes> {
    [[|columns| % 256]] + ColDefs(columns) + [EOF]
  }

  /** Column count, column definitions, EOF, rows, EOF. */
  function TablePayloads(columns: seq<string>, rows: seq<seq<Option<string>>>): seq<Bytes> {
    Head(columns) + RowPayloads(rows) + [EOF]
  }

  function Payloads(r: QueryResult): seq<Bytes> {
    match r
    case Ok(affected, id) => [OkPayload(affected, id)]
    case Err(code, message) => [ErrPayload(code, Utf8.Encode(message))]
    case Rows(columns, rows) => TablePayloads(columns, rows)
    case ValueRows(columns, values) => TablePayloads(columns, DisplayedRows(values))
  }

  /** `u8::wrapping_add(1)`. */
  function NextSeqNo(s: Byte): Byte {
    if s == 255 then 0 else s + 1
  }

  function SeqNo(first: Byte, k: nat): Byte {
    if k == 0 then first else NextSeqNo(SeqNo(first, k - 1))
  }

  lemma {:induction false} SeqNoWraps(first: Byte, k: nat)
    ensures SeqNo(first, k) == (first + k) % 256
  {
    if k > 0 {
      SeqNoWraps(first, k - 1);
    }
  }

  /** The bytes of packets that carry these payloads under consecutive sequence numbers. */
  function Sent(payloads: seq<Bytes>, first: Byte): Bytes {
    if payloads == [] then []
    else
      var k := |payloads| - 1;
      Sent(payloads[..k], first) + Frame(Packet(payloads[k], SeqNo(first, k)))
  }

  /** Consecutive sequence numbers, modulo 256. */
  function Numbered(payloads: seq<Bytes>, first: Byte): seq<Packet> {
    seq(|payloads|, i requires 0 <= i < |payloads| => Packet(payloads[i], (first + i) % 256))
  }

  lemma {:induction false} SentIsFrames(payloads: seq<Bytes>, first: Byte)
    ensures Sent(payloads, first) == FrameAll(Numbered(payloads, first))
  {
    if payloads != [] {
      var k := |payloads| - 1;
      var last := Packet(payloads[k], SeqNo(first, k));
      SentIsFrames(payloads[..k], first);
      SeqNoWraps(first, k);
      assert Numbered(payloads, first) == Numbered(payloads[..k], first) + [last];
      FrameAllConcat(Numbered(payloads[..k], first), [last]);
      assert FrameAll([last]) == Frame(last) + FrameAll([]);
    }
  }

  class Buffer {
    var bytes: Bytes

    constructor ()
      ensures bytes == []
    {
      bytes := [];
    }

    method PutU8(b: Byte)
      modifies this
      ensures bytes == old(bytes) + [b]
    {
      bytes := bytes + [b];
    }

    method PutSlice(s: Bytes)
      modifies this
      ensures bytes == old(bytes) + s
    {
      bytes := bytes + s;
    }

    method PutLittleEndian(u: nat, k: nat)
      modifies this
      ensures bytes == old(bytes) + LittleEndian(u, k)
    {
      bytes := bytes + LittleEndian(u, k);
    }

    method PutThreeBytes(v: nat)
      modifies this
      ensures bytes == old(bytes) + U24(v)
    {
      PutU8(v % 256);
      PutU8(v / 256 % 256);
      PutU8(v / 0x1_0000 % 256);
    }

    method PutLenEnc(v: nat)
      modifies this
      ensures bytes == old(bytes) + LenEnc(v)
    {
      if v < 251 {
        PutU8(v);
      } else if v < 0x1_0000 {
        PutU8(0xfc);
        PutLittleEndian(v, 2);
        ConcatAssociates(old(bytes), [0xfc], LittleEndian(v, 2));
      } else if v < 0x100_0000 {
        PutU8(0xfd);
        PutThreeBytes(v);
        ConcatAssociates(old(bytes), [0xfd], U24(v));
      } else {
        PutU8(0xfe);
        PutLittleEndian(v, 8);
        ConcatAssociates(old(bytes), [0xfe], LittleEndian(v, 8));
      }
    }

    method PutLenStr(s: Bytes)
      modifies this
      ensures bytes == old(bytes) + LenStr(s)
    {
      PutLenEnc(|s|);
      PutSlice(s);
      ConcatAssociates(old(bytes), LenEnc(|s|), s);
    }

    /** Fills in the four bytes reserved at `header` once the payload after them is complete. */
    method FillHeader(header: nat, seqNo: Byte, ghost start: Bytes, ghost payload: Bytes)
      requires header == |start| && bytes == start + [0, 0, 0, 0] + payload
      modifies this
      ensures bytes == start + Frame(Packet(payload, seqNo))
    {
      var len := |bytes| - header - 4;
      bytes := bytes[header := len % 256];
      bytes := bytes[header + 1 := len / 256 % 256];
      bytes := bytes[header + 2 := len / 0x1_0000 % 256];
      bytes := bytes[header + 3 := seqNo];
    }

    method WritePacketInto(payload: Bytes, seqNo: Byte)
      modifies this
      ensures bytes == old(bytes) + Frame(Packet(payload, seqNo))
    {
      PutThreeBytes(|payload|);
      PutU8(seqNo);
      PutSlice(payload);
    }

    method WriteEofInto(seqNo: Byte)
      modifies this
      ensures bytes == old(bytes) + Frame(Packet(EOF, seqNo))
    {
      PutSlice([0x05, 0x00, 0x00, seqNo, 0xfe, 0x00, 0x00, 0x02, 0x00]);
    }

    method PutColDefTexts(name: Bytes)
      modifies this
      ensures bytes == old(bytes) + TextRow(ColDefTexts(name))
    {
      ghost var texts := ColDefTexts(name);
      PutTextOf(DEF, old(bytes), texts, 0);
      PutTextOf([], old(bytes), texts, 1);
      PutTextOf([], old(bytes), texts, 2);
      PutTextOf([], old(bytes), texts, 3);
      PutTextOf(name, old(bytes), texts, 4);
      PutTextOf(name, old(bytes), texts, 5);
      assert texts[..6] == texts;
    }

    method PutTextOf(s: Bytes, ghost base: Bytes, ghost texts: seq<Option<Bytes>>, ghost i: nat)
      requires i < |texts| && texts[i] == Some(s) && bytes == base + TextRow(texts[..i])
      modifies this
      ensures bytes == base + TextRow(texts[..i + 1])
    {
      PutLenStr(s);
      OneMoreCell(base, texts, i);
    }

    method PutColDefFixed(colType: Byte)
      modifies this
      ensures bytes == old(bytes) + ColDefFixed(colType)
    {
      PutU8(0x0c);
      PutLittleEndian(0x21, 2);
      PutLittleEndian(255, 4);
      PutU8(colType);
      PutLittleEndian(0, 2);
      PutU8(0);
      PutLittleEndian(0, 2);
      FixedFields();
    }

    method WriteColDefInto(name: Bytes, colType: Byte, seqNo: Byte)
      modifies this
      ensures bytes == old(bytes) + Frame(Packet(ColDef(name, colType), seqNo))
    {
      var header := |bytes|;
      PutSlice([0, 0, 0, 0]);
      ghost var base := bytes;
      PutColDefTexts(name);
      PutColDefFixed(colType);
      ConcatAssociates(base, TextRow(ColDefTexts(name)), ColDefFixed(colType));
      FillHeader(header, seqNo, old(bytes), ColDef(name, colType));
    }

    method PutCells(row: seq<Option<string>>)
      modifies this
      ensures bytes == old(bytes) + TextRow(EncodeRow(row))
    {
      ghost var encoded := EncodeRow(row);
      for i := 0 to |row|
        invariant bytes == old(bytes) + TextRow(encoded[..i])
      {
        match row[i] {
          case None => PutU8(0xfb);
          case Some(s) =>
            var b := Utf8.Encode(s);
            PutLenEnc(|b|);
            PutSlice(b);
            ConcatAssociates(old(bytes) + TextRow(encoded[..i]), LenEnc(|b|), b);
        }
        OneMoreCell(old(bytes), encoded, i);
      }
      assert encoded[..|row|] == encoded;
    }

    method WriteTextRowInto(row: seq<Option<string>>, seqNo: Byte)
      modifies this
      ensures bytes == old(bytes) + Frame(Packet(TextRow(EncodeRow(row)), seqNo))
    {
      var header := |bytes|;
      PutSlice([0, 0, 0, 0]);
      PutCells(row);
      FillHeader(header, seqNo, old(bytes), TextRow(EncodeRow(row)));
    }

    /** The digits go straight into the buffer; the length byte before them is filled in afterwards. */
    method WriteI64Digits(n: I64)
      modifies this
      ensures bytes == old(bytes) + LenStr(Utf8.Encode(IntText(n)))
    {
      var lengthAt := |bytes|;
      PutU8(0);
      var digits := Utf8.Encode(IntText(n));
      PutSlice(digits);
      var written := |digits|;
      bytes := bytes[lengthAt := written % 256];
      IntBytesLength(n);
      assert bytes == old(bytes) + ([written] + digits);
    }

    method WriteValueText(v: Value)
      modifies this
      ensures bytes == old(bytes) + TextCell(EncodeRow([v.ToDisplay()])[0])
    {
      match v {
        case Null => PutU8(0xfb);
        case Int(n) => WriteI64Digits(n);
        case Text(s) =>
          var b := Utf8.Encode(s);
          PutLenEnc(|b|);
          PutSlice(b);
          ConcatAssociates(old(bytes), LenEnc(|b|), b);
      }
    }

    method PutValues(row: Row)
      modifies this
      ensures bytes == old(bytes) + TextRow(EncodeRow(Displayed(row)))
    {
      ghost var encoded := EncodeRow(Displayed(row));
      for i := 0 to |row|
        invariant bytes == old(bytes) + TextRow(encoded[..i])
      {
        WriteValueText(row[i]);
        OneMoreCell(old(bytes), encoded, i);
      }
      assert encoded[..|row|] == encoded;
    }

    method WriteValueRowInto(row: Row, seqNo: Byte)
      modifies this
      ensures bytes == old(bytes) + Frame(Packet(TextRow(EncodeRow(Displayed(row))), seqNo))
    {
      var header := |bytes|;
      PutSlice([0, 0, 0, 0]);
      PutValues(row);
      FillHeader(header, seqNo, old(bytes), TextRow(EncodeRow(Displayed(row))));
    }

    /** Since `start`, exactly `sent` has been written, and the next packet takes number `s`. */
    ghost predicate HasSent(start: Bytes, sent: seq<Bytes>, first: Byte, s: Byte)
      reads this
    {
      bytes == start + Sent(sent, first) && s == SeqNo(first, |sent|)
    }

    method SendPacket(payload: Bytes, s: Byte, ghost start: Bytes, ghost sent: seq<Bytes>, ghost first: Byte)
      returns (next: Byte)
      requires HasSent(start, sent, first, s)
      modifies this
      ensures HasSent(start, sent + [payload], first, next)
    {
      WritePacketInto(payload, s);
      OneMore(start, sent, payload, s, first);
      next := NextSeqNo(s);
    }

    method SendEof(s: Byte, ghost start: Bytes, ghost sent: seq<Bytes>, ghost first: Byte) returns (next: Byte)
      requires HasSent(start, sent, first, s)
      modifies this
      ensures HasSent(start, sent + [EOF], first, next)
    {
      WriteEofInto(s);
      OneMore(start, sent, EOF, s, first);
      next := NextSeqNo(s);
    }

    method SendColDef(column: string, s: Byte, ghost start: Bytes, ghost sent: seq<Bytes>, ghost first: Byte)
      returns (next: Byte)
      requires HasSent(start, sent, first, s)
      modifies this
      ensures HasSent(start, sent + [ColDefPayload(column)], first, next)
    {
      WriteColDefInto(Utf8.Encode(column), 0xfd, s);
      OneMore(start, sent, ColDefPayload(column), s, first);
      next := NextSeqNo(s);
    }

    method SendRow(row: seq<Option<string>>, s: Byte, ghost start: Bytes, ghost sent: seq<Bytes>, ghost first: Byte)
      returns (next: Byte)
      requires HasSent(start, sent, first, s)
      modifies this
      ensures HasSent(start, sent + [TextRow(EncodeRow(row))], first, next)
    {
      WriteTextRowInto(row, s);
      OneMore(start, sent, TextRow(EncodeRow(row)), s, first);
      next := NextSeqNo(s);
    }

    method SendValueRow(row: Row, s: Byte, ghost start: Bytes, ghost sent: seq<Bytes>, ghost first: Byte)
      returns (next: Byte)
      requires HasSent(start, sent, first, s)
      modifies this
      ensures HasSent(start, sent + [TextRow(EncodeRow(Displayed(row)))], first, next)
    {
      WriteValueRowInto(row, s);
      OneMore(start, sent, TextRow(EncodeRow(Displayed(row))), s, first);
      next := NextSeqNo(s);
    }

    method WriteHead(columns: seq<string>, first: Byte) returns (s: Byte)
      modifies this
      ensures HasSent(old(bytes), Head(columns), first, s)
    {
      ghost var start, count, defs := bytes, [[|columns| % 256]], ColDefs(columns);
      s := SendPacket([|columns| % 256], first, start, [], first);
      assert [] + [[|columns| % 256]] == count + defs[..0];
      for i := 0 to |columns|
        invariant HasSent(start, count + defs[..i], first, s)
      {
        s := SendColDef(columns[i], s, start, count + defs[..i], first);
        NextPayload(count, defs, i);
      }
      assert count + defs[..|columns|] == count + defs;
      s := SendEof(s, start, count + defs, first);
    }

    method WriteRowsInto(rows: seq<seq<Option<string>>>, s0: Byte, ghost start: Bytes, ghost head: seq<Bytes>,
                         ghost first: Byte)
      requires HasSent(start, head, first, s0)
      modifies this
      ensures bytes == start + Sent(head + RowPayloads(rows) + [EOF], first)
    {
      var s := s0;
      ghost var payloads := RowPayloads(rows);
      assert head + payloads[..0] == head;
      for i := 0 to |rows|
        invariant HasSent(start, head + payloads[..i], first, s)
      {
        s := SendRow(rows[i], s, start, head + payloads[..i], first);
        NextPayload(head, payloads, i);
      }
      assert payloads[..|rows|] == payloads;
      s := SendEof(s, start, head + payloads, first);
    }

    method WriteValueRowsInto(values: seq<Row>, s0: Byte, ghost start: Bytes, ghost head: seq<Bytes>,
                              ghost first: Byte)
      requires HasSent(start, head, first, s0)
      modifies this
      ensures bytes == start + Sent(head + RowPayloads(DisplayedRows(values)) + [EOF], first)
    {
      var s := s0;
      ghost var payloads := RowPayloads(DisplayedRows(values));
      assert head + payloads[..0] == head;
      for i := 0 to |values|
        invariant HasSent(start, head + payloads[..i], first, s)
      {
        s := SendValueRow(values[i], s, start, head + payloads[..i], first);
        assert payloads[i] == TextRow(EncodeRow(Displayed(values[i])));
        NextPayload(head, payloads, i);
      }
      assert payloads[..|values|] == payloads;
      s := SendEof(s, start, head + payloads, first);
    }

    method WriteOnePacket(payload: Bytes, first: Byte)
      modifies this
      ensures bytes == old(bytes) + Sent([payload], first)
    {
      var s := SendPacket(payload, first, bytes, [], first);
      assert [] + [payload] == [payload];
    }

    method WriteRowsResult(columns: seq<string>, rows: seq<seq<Option<string>>>, first: Byte)
      modifies this
      ensures bytes == old(bytes) + Sent(TablePayloads(columns, rows), first)
    {
      var s := WriteHead(columns, first);
      WriteRowsInto(rows, s, old(bytes), Head(columns), first);
    }

    /** The encoder without intermediate texts sends what the plain one sends for the displayed rows. */
    method BuildValueResultInto(columns: seq<string>, values: seq<Row>, first: Byte)
      modifies this
      ensures bytes == old(bytes) + Sent(TablePayloads(columns, DisplayedRows(values)), first)
    {
      var s := WriteHead(columns, first);
      WriteValueRowsInto(values, s, old(bytes), Head(columns), first);
    }

    method BuildResultInto(r: QueryResult, first: Byte)
      modifies this
      ensures bytes == old(bytes) + Sent(Payloads(r), first)
    {
      match r {
        case Ok(affected, id) => WriteOnePacket(OkPayload(affected, id), first);
        case Err(code, message) => WriteOnePacket(ErrPayload(code, Utf8.Encode(message)), first);
        case Rows(columns, rows) => WriteRowsResult(columns, rows, first);
        case ValueRows(columns, values) => BuildValueResultInto(columns, values, first);
      }
    }

    method DecodePacket() returns (p: Option<Packet>)
      modifies this
      ensures Unframe(old(bytes)).Incomplete? ==> p == None && bytes == old(bytes)
      ensures Unframe(old(bytes)).Complete? ==>
                p == Some(Unframe(old(bytes)).packet) && bytes == Unframe(old(bytes)).rest
      ensures p.None? ==> Packets(old(bytes)) == [] && Residue(old(bytes)) == old(bytes)
      ensures p.Some? ==> Packets(old(bytes)) == [p.value] + Packets(bytes) && Residue(old(bytes)) == Residue(bytes)
    {
      if |bytes| < 4 {
        return None;
      }
      var len: nat := bytes[0] as int + 256 * (bytes[1] as int) + 0x1_0000 * (bytes[2] as int);
      if |bytes| < 4 + len {
        return None;
      }
      bytes := bytes[3..];
      var seqNo := bytes[0];
      bytes := bytes[1..];
      var payload := bytes[..len];
      bytes := bytes[len..];
      p := Some(Packet(payload, seqNo));
      assert payload == old(bytes)[4..4 + len] && bytes == old(bytes)[4 + len..];
    }

    /** Takes every whole packet out of the buffer. */
    method Drain() returns (packets: seq<Packet>)
      modifies this
      ensures packets == Packets(old(bytes)) && bytes == Residue(old(bytes))
    {
      packets := [];
      while true
        invariant Packets(old(bytes)) == packets + Packets(bytes) && Residue(old(bytes)) == Residue(bytes)
        decreases |bytes|
      {
        var next := DecodePacket();
        if next.None? {
          break;
        }
        packets := packets + [next.value];
      }
    }
  }

  /** The receiving loop: append what arrived, then take out every whole packet. */
  method Receive(chunks: seq<Bytes>) returns (packets: seq<Packet>, left: Bytes)
    ensures packets == Packets(Concat(chunks)) && left == Residue(Concat(chunks))
  {
    var buffer := new Buffer();
    packets := [];
    for i := 0 to |chunks|
      invariant packets == Packets(Concat(chunks[..i])) && buffer.bytes == Residue(Concat(chunks[..i]))
    {
      PacketsInInstalments(Concat(chunks[..i]), chunks[i]);
      assert chunks[..i + 1][..i] == chunks[..i];
      buffer.PutSlice(chunks[i]);
      var more := buffer.Drain();
      packets := packets + more;
    }
    assert chunks[..|chunks|] == chunks;
    left := buffer.bytes;
  }

  lemma OneMore(start: Bytes, sent: seq<Bytes>, p: Bytes, s: Byte, first: Byte)
    requires s == SeqNo(first, |sent|)
    ensures start + Sent(sent, first) + Frame(Packet(p, s)) == start + Sent(sent + [p], first)
    ensures NextSeqNo(s) == SeqNo(first, |sent + [p]|)
  {
    assert (sent + [p])[..|sent|] == sent;
    ConcatAssociates(start, Sent(sent, first), Frame(Packet(p, s)));
  }

  lemma NextPayload(head: seq<Bytes>, payloads: seq<Bytes>, i: nat)
    requires i < |payloads|
    ensures head + payloads[..i + 1] == head + payloads[..i] + [payloads[i]]
  {
  }

  /** The one length byte reserved for an integer is enough. */
  lemma IntBytesLength(n: I64)
    ensures 1 <= |Utf8.Encode(IntText(n))| <= 20
  {
    IntTextLength(n);
    Utf8.EncodeAscii(IntText(n));
  }

  lemma FixedFields()
    ensures LittleEndian(0x21, 2) == [0x21, 0] && LittleEndian(255, 4) == [255, 0, 0, 0] && LittleEndian(0, 2) == [0, 0]
  {
    assert LittleEndian(0, 3) == [0] + LittleEndian(0, 2);
  }

  lemma OneMoreCell(base: Bytes, row: seq<Option<Bytes>>, i: nat)
    requires i < |row|
    ensures base + TextRow(row[..i + 1]) == base + TextRow(row[..i]) + TextCell(row[i])
  {
    assert row[..i + 1][..i] == row[..i];
  }
}
