/** MySQL packets and length-encoded values: what they look like and how they are read back. */
module Wire {
  import opened Numbers

  type Bytes = seq<Byte>

  // ----- Little-endian integers -----

  function Pow256(k: nat): (p: nat)
    ensures p > 0
  {
    if k == 0 then 1 else 256 * Pow256(k - 1)
  }

  /** The lowest `k` bytes of `u`, least significant first. */
  function LittleEndian(u: nat, k: nat): (b: Bytes)
    ensures |b| == k
  {
    if k == 0 then [] else [u % 256] + LittleEndian(u / 256, k - 1)
  }

  function FromLittleEndian(b: Bytes): nat {
    if b == [] then 0 else b[0] + 256 * FromLittleEndian(b[1..])
  }

  lemma {:induction false} LittleEndianReadsBack(u: nat, k: nat)
    requires u < Pow256(k)
    ensures FromLittleEndian(LittleEndian(u, k)) == u
  {
    if k > 0 {
      LittleEndianReadsBack(u / 256, k - 1);
      assert LittleEndian(u, k)[1..] == LittleEndian(u / 256, k - 1);
    }
  }

  lemma SmallPowers()
    ensures Pow256(1) == 0x100 && Pow256(2) == 0x1_0000 && Pow256(3) == 0x100_0000
    ensures Pow256(4) == 0x1_0000_0000 && Pow256(8) == TWO_64
  {
    assert Pow256(2) == 256 * Pow256(1);
    assert Pow256(4) == 256 * Pow256(3);
    assert Pow256(6) == 256 * (256 * Pow256(4));
    assert Pow256(8) == 256 * (256 * Pow256(6));
  }

  /** Three bytes, least significant first. */
  function U24(n: nat): (b: Bytes)
    ensures |b| == 3
  {
    [n % 256, n / 256 % 256, n / 0x1_0000 % 256]
  }

  function ReadU24(b: Bytes): nat
    requires |b| >= 3
  {
    b[0] as int + 256 * (b[1] as int) + 0x1_0000 * (b[2] as int)
  }

  lemma U24ReadsBack(n: nat, rest: Bytes)
    requires n < 0x100_0000
    ensures ReadU24(U24(n) + rest) == n
  {
    assert n / 256 / 256 == n / 0x1_0000;
    assert n == 256 * (n / 256) + n % 256;
    assert n / 256 == 256 * (n / 256 / 256) + n / 256 % 256;
    var b := U24(n) + rest;
    assert b[0] == n % 256 && b[1] == n / 256 % 256 && b[2] == n / 0x1_0000 % 256;
  }

  // ----- Packets -----

  datatype Packet = Packet(payload: Bytes, seqNo: Byte)

  /** Three bytes of length, a sequence number, the payload. */
  function Frame(p: Packet): Bytes {
    U24(|p.payload|) + [p.seqNo] + p.payload
  }

  datatype Unframed = Incomplete | Complete(packet: Packet, rest: Bytes)

  function Unframe(b: Bytes): (r: Unframed)
    ensures r.Complete? ==> |r.rest| < |b|
  {
    if |b| < 4 then Incomplete
    else
      var len := ReadU24(b);
      if |b| < 4 + len then Incomplete else Complete(Packet(b[4..4 + len], b[3]), b[4 + len..])
  }

  predicate FitsPacket(payload: Bytes) {
    |payload| < 0x100_0000
  }

  lemma UnframeFrame(p: Packet, rest: Bytes)
    requires FitsPacket(p.payload)
    ensures Unframe(Frame(p) + rest) == Complete(p, rest)
  {
    var b := Frame(p) + rest;
    U24ReadsBack(|p.payload|, [p.seqNo] + p.payload + rest);
    assert b == U24(|p.payload|) + ([p.seqNo] + p.payload + rest);
    assert b[4..4 + |p.payload|] == p.payload && b[4 + |p.payload|..] == rest;
  }

  /** More bytes at the end never change the packet at the front. */
  lemma UnframeIsStable(b: Bytes, more: Bytes)
    requires Unframe(b).Complete?
    ensures Unframe(b + more) == Complete(Unframe(b).packet, Unframe(b).rest + more)
  {
    var len := ReadU24(b);
    assert (b + more)[4..4 + len] == b[4..4 + len];
    assert (b + more)[4 + len..] == b[4 + len..] + more;
  }

  function FrameAll(ps: seq<Packet>): Bytes {
    if ps == [] then [] else Frame(ps[0]) + FrameAll(ps[1..])
  }

  /** All the whole packets at the front of a byte sequence, and what is left after them. */
  function Packets(b: Bytes): seq<Packet>
    decreases |b|
  {
    match Unframe(b)
    case Incomplete => []
    case Complete(p, rest) => [p] + Packets(rest)
  }

  function Residue(b: Bytes): Bytes
    decreases |b|
  {
    match Unframe(b)
    case Incomplete => b
    case Complete(_, rest) => Residue(rest)
  }

  lemma {:induction false} PacketsOfFrames(ps: seq<Packet>)
    requires forall i :: 0 <= i < |ps| ==> FitsPacket(ps[i].payload)
    ensures Packets(FrameAll(ps)) == ps && Residue(FrameAll(ps)) == []
  {
    if ps != [] {
      UnframeFrame(ps[0], FrameAll(ps[1..]));
      PacketsOfFrames(ps[1..]);
      assert ps == [ps[0]] + ps[1..];
    }
  }

  /** Reading in two instalments, keeping the residue, finds the packets of the whole. */
  lemma {:induction false} PacketsInInstalments(a: Bytes, c: Bytes)
    ensures Packets(a + c) == Packets(a) + Packets(Residue(a) + c)
    ensures Residue(a + c) == Residue(Residue(a) + c)
    decreases |a|
  {
    if Unframe(a).Complete? {
      UnframeIsStable(a, c);
      PacketsInInstalments(Unframe(a).rest, c);
    }
  }

  function Concat(chunks: seq<Bytes>): Bytes {
    if chunks == [] then [] else Concat(chunks[..|chunks| - 1]) + chunks[|chunks| - 1]
  }

  lemma {:induction false} FrameAllConcat(a: seq<Packet>, b: seq<Packet>)
    ensures FrameAll(a + b) == FrameAll(a) + FrameAll(b)
  {
    if a == [] {
      assert a + b == b;
    } else {
      assert (a + b)[1..] == a[1..] + b;
      FrameAllConcat(a[1..], b);
    }
  }

  // ----- Length-encoded values -----

  function LenEnc(v: nat): (b: Bytes)
    ensures b != []
  {
    if v < 251 then [v]
    else if v < 0x1_0000 then [0xfc] + LittleEndian(v, 2)
    else if v < 0x100_0000 then [0xfd] + U24(v)
    else [0xfe] + LittleEndian(v, 8)
  }

  function LenStr(s: Bytes): Bytes {
    LenEnc(|s|) + s
  }

  /** A cell of a text row: the byte 0xfb for NULL, else a length-encoded string. */
  function TextCell(v: Option<Bytes>): Bytes {
    if v.None? then [0xfb] else LenStr(v.value)
  }

  function TextRow(row: seq<Option<Bytes>>): Bytes {
    if row == [] then [] else TextRow(row[..|row| - 1]) + TextCell(row[|row| - 1])
  }

  datatype Read<+T> = Fail | Done(value: T, rest: Bytes)

  /** A length-encoded integer, read as a client reads it. */
  function ReadLenEnc(b: Bytes): Read<nat> {
    if b == [] then Fail
    else if b[0] < 251 then Done(b[0], b[1..])
    else if b[0] == 0xfc && |b| >= 3 then Done(FromLittleEndian(b[1..3]), b[3..])
    else if b[0] == 0xfd && |b| >= 4 then Done(ReadU24(b[1..4]), b[4..])
    else if b[0] == 0xfe && |b| >= 9 then Done(FromLittleEndian(b[1..9]), b[9..])
    else Fail
  }

  function ReadLenStr(b: Bytes): Read<Bytes> {
    match ReadLenEnc(b)
    case Fail => Fail
    case Done(n, rest) => if n <= |rest| then Done(rest[..n], rest[n..]) else Fail
  }

  function ReadCell(b: Bytes): Read<Option<Bytes>> {
    if b != [] && b[0] == 0xfb then Done(None, b[1..])
    else
      match ReadLenStr(b)
      case Fail => Fail
      case Done(s, rest) => Done(Some(s), rest)
  }

  function ReadTextRow(n: nat, b: Bytes): Read<seq<Option<Bytes>>> {
    if n == 0 then Done([], b)
    else
      match ReadTextRow(n - 1, b)
      case Fail => Fail
      case Done(cells, rest) =>
        match ReadCell(rest)
        case Fail => Fail
        case Done(cell, rest') => Done(cells + [cell], rest')
  }

  lemma LenEncReadsBack(v: nat, rest: Bytes)
    requires v < TWO_64
    ensures ReadLenEnc(LenEnc(v) + rest) == Done(v, rest)
    ensures LenEnc(v)[0] != 0xfb && (v < 0x100_0000 ==> LenEnc(v)[0] != 0xfe)
  {
    var b := LenEnc(v) + rest;
    if v < 251 {
      assert b[1..] == rest;
    } else if 0x1_0000 <= v < 0x100_0000 {
      U24ReadsBack(v, []);
      assert b[1..4] == U24(v) + [] && b[4..] == rest;
    } else {
      var k := if v < 0x1_0000 then 2 else 8;
      SmallPowers();
      LittleEndianReadsBack(v, k);
      assert b[1..k + 1] == LittleEndian(v, k) && b[k + 1..] == rest;
    }
  }

  lemma LenStrReadsBack(s: Bytes, rest: Bytes)
    requires |s| < TWO_64
    ensures ReadLenStr(LenStr(s) + rest) == Done(s, rest)
  {
    LenEncReadsBack(|s|, s + rest);
    assert LenStr(s) + rest == LenEnc(|s|) + (s + rest);
    assert (s + rest)[..|s|] == s && (s + rest)[|s|..] == rest;
  }

  lemma ConcatAssociates(a: Bytes, b: Bytes, c: Bytes)
    ensures (a + b) + c == a + (b + c)
  {
  }

  lemma CellReadsBack(v: Option<Bytes>, rest: Bytes)
    requires v.Some? ==> |v.value| < TWO_64
    ensures ReadCell(TextCell(v) + rest) == Done(v, rest)
  {
    var b := TextCell(v) + rest;
    if v.None? {
      assert b[0] == 0xfb && b[1..] == rest;
    } else {
      LenStrReadsBack(v.value, rest);
      LenEncReadsBack(|v.value|, v.value + rest);
      assert b == LenStr(v.value) + rest;
      assert b[0] == LenEnc(|v.value|)[0];
    }
  }

  /** A text row decodes back to the same NULLs and strings. */
  lemma {:induction false} TextRowReadsBack(row: seq<Option<Bytes>>, rest: Bytes)
    requires |TextRow(row)| < TWO_64
    ensures ReadTextRow(|row|, TextRow(row) + rest) == Done(row, rest)
  {
    if row == [] {
      assert TextRow(row) + rest == rest;
    } else {
      var front, last := row[..|row| - 1], row[|row| - 1];
      var tail := TextCell(last) + rest;
      TextRowReadsBack(front, tail);
      CellReadsBack(last, rest);
      ReadOneMore(|front|, TextRow(front) + tail, front, tail, last, rest);
      ConcatAssociates(TextRow(front), TextCell(last), rest);
      assert row == front + [last];
    }
  }

  lemma ReadOneMore(n: nat, b: Bytes, cells: seq<Option<Bytes>>, tail: Bytes, cell: Option<Bytes>, rest: Bytes)
    requires ReadTextRow(n, b) == Done(cells, tail) && ReadCell(tail) == Done(cell, rest)
    ensures ReadTextRow(n + 1, b) == Done(cells + [cell], rest)
  {
  }

  const EOF: Bytes := [0xfe, 0x00, 0x00, 0x02, 0x00]

  /** A client takes a short packet that starts with 0xfe for the end of the rows. */
  predicate LooksLikeEof(payload: Bytes) {
    payload != [] && payload[0] == 0xfe && |payload| < 9
  }

  lemma {:induction false} FirstByte(row: seq<Option<Bytes>>)
    requires FitsPacket(TextRow(row)) && TextRow(row) != []
    ensures TextRow(row)[0] != 0xfe
  {
    var front, last := row[..|row| - 1], row[|row| - 1];
    if TextRow(front) == [] {
      if last.Some? { LenEncReadsBack(|last.value|, []); }
    } else {
      FirstByte(front);
    }
  }

  /** No row can be mistaken for the end of the rows. */
  lemma RowIsNotEof(row: seq<Option<Bytes>>)
    requires FitsPacket(TextRow(row))
    ensures !LooksLikeEof(TextRow(row)) && LooksLikeEof(EOF)
  {
    if TextRow(row) != [] {
      FirstByte(row);
    }
  }
}
