/** The parameters of COM_STMT_EXECUTE, parsed from a payload with a moving cursor. */
module WireParams {
  import opened Numbers
  import opened Seqs
  import opened Wire
  import opened WireBinary
  import Calendar
  import Utf8

  /** Left open: `from_utf8_lossy`, and how floats are printed from their bytes. */
  datatype Conversions = Conversions(lossy: Bytes -> string, float32: Bytes -> string, float64: Bytes -> string)

  /** A text that was read, and where the cursor stands after it. */
  datatype Taken = Taken(text: string, pos: nat)

  // ----- Readers -----

  /** A little-endian two's complement integer. */
  function Signed(b: Bytes): int {
    var u := FromLittleEndian(b);
    if 2 * u < Pow256(|b|) then u else u - Pow256(|b|)
  }

  function ReadFixed(payload: Bytes, pos: nat, width: nat, show: Bytes -> string): Taken {
    if pos + width > |payload| then Taken("", pos) else Taken(show(payload[pos..pos + width]), pos + width)
  }

  function ReadInt(payload: Bytes, pos: nat, width: nat): Taken {
    ReadFixed(payload, pos, width, b => IntText(Signed(b)))
  }

  /** A length byte 0xfe is not special here: it is taken for a length of 254. */
  function ReadText(c: Conversions, payload: Bytes, pos: nat): Taken
    requires pos < |payload|
  {
    var first := payload[pos];
    if first == 0xfb then Taken("", pos + 1)
    else if first == 0xfc then
      if pos + 2 >= |payload| then Taken("", pos)
      else TakeText(c, payload, pos + 3, FromLittleEndian(payload[pos + 1..pos + 3]))
    else if first == 0xfd then
      if pos + 3 >= |payload| then Taken("", pos)
      else TakeText(c, payload, pos + 4, ReadU24(payload[pos + 1..pos + 4]))
    else TakeText(c, payload, pos + 1, first)
  }

  function TakeText(c: Conversions, payload: Bytes, at: nat, len: nat): Taken {
    if at + len > |payload| then Taken("", at) else Taken(c.lossy(payload[at..at + len]), at + len)
  }

  function DateText(b: Bytes): string
    requires |b| >= 4
  {
    Calendar.Pad(FromLittleEndian(b[..2]), 4) + "-" + Calendar.Pad(b[2], 2) + "-" + Calendar.Pad(b[3], 2)
  }

  function ClockText(b: Bytes): string
    requires |b| == 3
  {
    Calendar.Pad(b[0], 2) + ":" + Calendar.Pad(b[1], 2) + ":" + Calendar.Pad(b[2], 2)
  }

  function TimeText(b: Bytes): string {
    if |b| < 7 then "00:00:00" else ClockText(b[4..7])
  }

  function ReadDate(payload: Bytes, pos: nat): Taken
    requires pos < |payload|
  {
    var len, at := payload[pos], pos + 1;
    if len < 4 || at + 4 > |payload| then Taken("0000-00-00", at + len)
    else Taken(DateText(payload[at..at + 4]), at + len)
  }

  function ReadDatetime(payload: Bytes, pos: nat): Taken
    requires pos < |payload|
  {
    var len, at := payload[pos], pos + 1;
    if len < 4 || at + len > |payload| then Taken("0000-00-00 00:00:00", at + len)
    else Taken(DateText(payload[at..at + len]) + " " + TimeText(payload[at..at + len]), at + len)
  }

  function ReadTemporal(payload: Bytes, pos: nat, dateOnly: bool): Taken
    requires pos < |payload|
  {
    if dateOnly then ReadDate(payload, pos) else ReadDatetime(payload, pos)
  }

  /** Bytes of an integer parameter; 0 for other types. */
  function IntWidth(typeByte: Byte): nat {
    if typeByte == 0x01 then 1
    else if typeByte == 0x02 || typeByte == 0x82 then 2
    else if typeByte == 0x03 || typeByte == 0x09 then 4
    else if typeByte == 0x08 then 8
    else 0
  }

  function ReadParam(c: Conversions, payload: Bytes, pos: nat, typeByte: Byte): Taken {
    if pos >= |payload| then Taken("", pos)
    else if IntWidth(typeByte) > 0 then ReadInt(payload, pos, IntWidth(typeByte))
    else if typeByte == 0x04 then ReadFixed(payload, pos, 4, c.float32)
    else if typeByte == 0x05 then ReadFixed(payload, pos, 8, c.float64)
    else if typeByte in {0x07, 0x0a, 0x0b, 0x0c, 0x0e} then
      ReadTemporal(payload, pos, typeByte == 0x0a || typeByte == 0x0e)
    else ReadText(c, payload, pos)
  }

  // ----- The whole payload -----

  datatype Params = Params(values: seq<Option<string>>, pos: nat)

  function BitmapEnd(n: nat): nat {
    10 + (n + 7) / 8
  }

  predicate TypesSent(payload: Bytes, n: nat) {
    BitmapEnd(n) < |payload| && payload[BitmapEnd(n)] == 1 && BitmapEnd(n) + 1 + n * 2 <= |payload|
  }

  function TypeAt(payload: Bytes, n: nat, i: nat): Byte
    requires i < n
  {
    if TypesSent(payload, n) then payload[BitmapEnd(n) + 1 + 2 * i] else 0xfd
  }

  function ValuesStart(payload: Bytes, n: nat): nat {
    BitmapEnd(n) + 1 + if TypesSent(payload, n) then n * 2 else 0
  }

  /** The first `k` of `n` parameters, and the cursor after them. */
  function FirstParams(c: Conversions, payload: Bytes, n: nat, k: nat): Params
    requires k <= n && BitmapEnd(n) <= |payload|
  {
    if k == 0 then Params([], ValuesStart(payload, n))
    else
      var before := FirstParams(c, payload, n, k - 1);
      if BitAt(payload[10..BitmapEnd(n)], k - 1) then Params(before.values + [None], before.pos)
      else
        var taken := ReadParam(c, payload, before.pos, TypeAt(payload, n, k - 1));
        Params(before.values + [Some(taken.text)], taken.pos)
  }

  /** What a payload says about `n` parameters. A short payload says nothing, one that ends inside the bitmap NULLs. */
  function ExpectedParams(c: Conversions, payload: Bytes, n: nat): seq<Option<string>> {
    if n == 0 || |payload| < 10 then []
    else if |payload| < BitmapEnd(n) then seq(n, _ => None)
    else FirstParams(c, payload, n, n).values
  }

  method ReadTypes(payload: Bytes, n: nat, start: nat) returns (types: seq<Byte>, pos: nat)
    requires start + 2 * n <= |payload|
    ensures |types| == n && pos == start + 2 * n
    ensures forall j :: 0 <= j < n ==> types[j] == payload[start + 2 * j]
  {
    types, pos := [], start;
    for i := 0 to n
      invariant |types| == i && pos == start + 2 * i
      invariant forall j :: 0 <= j < i ==> types[j] == payload[start + 2 * j]
    {
      types := types + [payload[pos]];
      pos := pos + 2;
    }
  }

  method ParseExecuteParams(c: Conversions, payload: Bytes, n: nat) returns (result: seq<Option<string>>, end: nat)
    ensures result == ExpectedParams(c, payload, n)
    ensures n > 0 && BitmapEnd(n) <= |payload| ==> end == FirstParams(c, payload, n, n).pos
  {
    if n == 0 || |payload| < 10 {
      return [], 0;
    }
    var bitmapLen := (n + 7) / 8;
    if |payload| < 10 + bitmapLen {
      return seq(n, _ => None), 0;
    }
    var nullBitmap := payload[10..10 + bitmapLen];
    var pos: nat := 10 + bitmapLen;
    var newBound := if pos < |payload| then payload[pos] else 0;
    pos := pos + 1;
    var types := seq(n, _ => 0xfd);
    if newBound == 1 && pos + n * 2 <= |payload| {
      types, pos := ReadTypes(payload, n, pos);
    }
    result, end := ReadValues(c, payload, n, nullBitmap, types, pos);
  }

  method ReadValues(c: Conversions, payload: Bytes, n: nat, nullBitmap: Bytes, types: seq<Byte>, start: nat)
    returns (result: seq<Option<string>>, pos: nat)
    requires BitmapEnd(n) <= |payload| && nullBitmap == payload[10..BitmapEnd(n)] && start == ValuesStart(payload, n)
    requires |types| == n && forall j :: 0 <= j < n ==> types[j] == TypeAt(payload, n, j)
    ensures Params(result, pos) == FirstParams(c, payload, n, n)
  {
    result, pos := [], start;
    for i := 0 to n
      invariant Params(result, pos) == FirstParams(c, payload, n, i)
    {
      if TestBit(nullBitmap[i / 8], i % 8) {
        result := result + [None];
      } else {
        var taken := ReadParam(c, payload, pos, types[i]);
        pos := taken.pos;
        result := result + [Some(taken.text)];
      }
    }
  }

  // ----- What a client sends -----

  /** Two's complement of `width` bytes. */
  function Raw(width: nat, n: int): nat {
    if n >= 0 then n else Abs(Pow256(width) + n)
  }

  /** A parameter as its client has it; a NULL may carry any type. */
  datatype Param =
    | NullParam(typeByte: Byte, flag: Byte)
    | IntParam(width: nat, n: int, unsigned: bool)
    | TextParam(s: string)
    | DateParam(y: nat, m: Byte, d: Byte)
    | DatetimeParam(y: nat, m: Byte, d: Byte, h: Byte, mi: Byte, sec: Byte)
  {
    predicate Legal() {
      match this
      case NullParam(_, _) => true
      case IntParam(width, n, unsigned) =>
        width in {1, 2, 4, 8} &&
        if unsigned then 0 <= n < Pow256(width) else Pow256(width) + 2 * n >= 0 && 2 * n < Pow256(width)
      case TextParam(s) => FitsPacket(Utf8.Encode(s))
      case DateParam(y, _, _) => y < 0x1_0000
      case DatetimeParam(y, _, _, _, _, _) => y < 0x1_0000
    }

    function Text(): Option<string> {
      match this
      case NullParam(_, _) => None
      case IntParam(_, n, _) => Some(IntText(n))
      case TextParam(s) => Some(s)
      case DateParam(y, m, d) => Some(Calendar.FormatDate(Calendar.Date(y, m, d)))
      case DatetimeParam(y, m, d, h, mi, sec) =>
        Some(Calendar.FormatDate(Calendar.Date(y, m, d)) + " " + ClockText([h, mi, sec]))
    }

    function TypeByte(): Byte {
      match this
      case NullParam(typeByte, _) => typeByte
      case IntParam(width, _, _) => if width == 1 then 0x01 else if width == 2 then 0x02
          else if width == 4 then 0x03 else 0x08
      case TextParam(_) => 0xfd
      case DateParam(_, _, _) => 0x0a
      case DatetimeParam(_, _, _, _, _, _) => 0x0c
    }

    function Flag(): Byte {
      match this
      case NullParam(_, flag) => flag
      case IntParam(_, _, unsigned) => if unsigned then 0x80 else 0
      case _ => 0
    }

    function Sent(): Bytes {
      match this
      case NullParam(_, _) => []
      case IntParam(width, n, _) => LittleEndian(Raw(width, n), width)
      case TextParam(s) => LenStr(Utf8.Encode(s))
      case DateParam(y, m, d) => [4] + LittleEndian(y, 2) + [m, d]
      case DatetimeParam(y, m, d, h, mi, sec) => [7] + LittleEndian(y, 2) + ([m, d] + [h, mi, sec])
    }

    /** Every integer is taken for a signed one. */
    function Received(): Option<string> {
      match this
      case IntParam(width, n, _) => Some(IntText(if 2 * n < Pow256(width) then n else n - Pow256(width)))
      case _ => Text()
    }
  }

  /** A parameter comes back in place exactly unless it is an unsigned integer with its top bit set. */
  lemma ReceivedIsSent(p: Param)
    requires p.Legal()
    ensures p.Received() == p.Text() <==> !(p.IntParam? && 2 * p.n >= Pow256(p.width))
  {
    if p.IntParam? && 2 * p.n >= Pow256(p.width) {
      assert IntText(p.n - Pow256(p.width))[0] == '-' != IntText(p.n)[0];
    }
  }

  function Texts(params: seq<Param>): (r: seq<Option<string>>)
    ensures |r| == |params|
  {
    seq(|params|, i requires 0 <= i < |params| => params[i].Text())
  }

  function AllReceived(params: seq<Param>): seq<Option<string>> {
    if params == [] then [] else AllReceived(params[..|params| - 1]) + [params[|params| - 1].Received()]
  }

  function Types(params: seq<Param>): (b: Bytes)
    ensures |b| == 2 * |params|
    ensures forall i :: 0 <= i < |params| ==> b[2 * i] == params[i].TypeByte()
  {
    if params == [] then []
    else Types(params[..|params| - 1]) + [params[|params| - 1].TypeByte(), params[|params| - 1].Flag()]
  }

  function Values(params: seq<Param>): Bytes {
    if params == [] then [] else Values(params[..|params| - 1]) + params[|params| - 1].Sent()
  }

  /** Statement header, NULL bitmap, the flag that types follow, types, values. */
  function ExecutePayload(header: Bytes, bitmap: Bytes, params: seq<Param>): Bytes {
    header + bitmap + [1] + Types(params) + Values(params)
  }

  predicate AllLegal(params: seq<Param>) {
    forall i :: 0 <= i < |params| ==> params[i].Legal()
  }

  ghost predicate KeepsUtf8(c: Conversions) {
    forall s: string :: c.lossy(Utf8.Encode(s)) == s
  }

  lemma SignedReadsBack(width: nat, n: int)
    requires width > 0 && Pow256(width) + 2 * n >= 0 && n < Pow256(width)
    ensures Signed(LittleEndian(Raw(width, n), width))
         == if 2 * n < Pow256(width) then n else n - Pow256(width)
  {
    LittleEndianReadsBack(Raw(width, n), width);
  }

  lemma LengthReadsBack(before: Bytes, len: nat, rest: Bytes)
    requires 251 <= len < 0x100_0000
    ensures var payload, at := before + LenEnc(len) + rest, |before|;
            if len < 0x1_0000 then FromLittleEndian(payload[at + 1..at + 3]) == len
            else ReadU24(payload[at + 1..at + 4]) == len
  {
    var payload, at := before + LenEnc(len) + rest, |before|;
    if len < 0x1_0000 {
      assert payload[at + 1..at + 3] == LittleEndian(len, 2);
      SmallPowers();
      LittleEndianReadsBack(len, 2);
    } else {
      assert payload[at + 1..at + 4] == U24(len) + [];
      U24ReadsBack(len, []);
    }
  }

  /** A text shorter than 2^24 bytes is read back; over a longer one the cursor moves wrongly. */
  lemma TextReadsBackExactly(c: Conversions, before: Bytes, b: Bytes, rest: Bytes)
    requires |b| < TWO_64
    ensures FitsPacket(b) ==>
              ReadText(c, before + LenStr(b) + rest, |before|) == Taken(c.lossy(b), |before + LenStr(b)|)
    ensures ReadText(c, before + LenStr(b) + rest, |before|).pos == |before + LenStr(b)| <==> FitsPacket(b)
  {
    var payload, at := before + LenStr(b) + rest, |before| + |LenEnc(|b|)|;
    if 251 <= |b| < 0x100_0000 {
      LengthReadsBack(before, |b|, b + rest);
      ConcatAssociates(before, LenEnc(|b|), b);
      ConcatAssociates(before + LenEnc(|b|), b, rest);
    }
    ConcatAssociates(before, LenEnc(|b|), b);
    assert payload[at..at + |b|] == b;
  }

  lemma DateTextOf(b: Bytes, y: nat, m: Byte, d: Byte)
    requires |b| >= 4 && y < 0x1_0000 && b[..2] == LittleEndian(y, 2) && b[2] == m && b[3] == d
    ensures DateText(b) == Calendar.FormatDate(Calendar.Date(y, m, d))
  {
    SmallPowers();
    LittleEndianReadsBack(y, 2);
  }

  lemma DateReadsBack(before: Bytes, y: nat, m: Byte, d: Byte, rest: Bytes)
    requires y < 0x1_0000
    ensures ReadDate(before + ([4] + LittleEndian(y, 2) + [m, d]) + rest, |before|)
         == Taken(Calendar.FormatDate(Calendar.Date(y, m, d)), |before| + 5)
  {
    var payload, at := before + ([4] + LittleEndian(y, 2) + [m, d]) + rest, |before| + 1;
    assert payload[at..at + 4] == LittleEndian(y, 2) + [m, d];
    DateTextOf(LittleEndian(y, 2) + [m, d], y, m, d);
  }

  lemma DatetimeReadsBack(before: Bytes, y: nat, m: Byte, d: Byte, time: Bytes, rest: Bytes)
    requires y < 0x1_0000 && |time| == 3
    ensures ReadDatetime(before + ([7] + LittleEndian(y, 2) + ([m, d] + time)) + rest, |before|)
         == Taken(Calendar.FormatDate(Calendar.Date(y, m, d)) + " " + ClockText(time), |before| + 8)
  {
    var body := LittleEndian(y, 2) + ([m, d] + time);
    var payload, at := before + ([7] + LittleEndian(y, 2) + ([m, d] + time)) + rest, |before| + 1;
    assert payload[at..at + 7] == body && body[4..7] == time;
    DateTextOf(body, y, m, d);
  }

  lemma IntReadsBack(before: Bytes, width: nat, n: int, rest: Bytes)
    requires width > 0 && Pow256(width) + 2 * n >= 0 && n < Pow256(width)
    ensures ReadInt(before + LittleEndian(Raw(width, n), width) + rest, |before|, width)
         == Taken(IntText(if 2 * n < Pow256(width) then n else n - Pow256(width)), |before| + width)
  {
    var payload := before + LittleEndian(Raw(width, n), width) + rest;
    assert payload[|before|..|before| + width] == LittleEndian(Raw(width, n), width);
    SignedReadsBack(width, n);
  }

  lemma IntParamReadsBack(c: Conversions, before: Bytes, p: Param, rest: Bytes)
    requires p.IntParam? && p.Legal()
    ensures ReadParam(c, before + p.Sent() + rest, |before|, p.TypeByte())
         == Taken(p.Received().value, |before + p.Sent()|)
  {
    var payload := before + p.Sent() + rest;
    assert ReadParam(c, payload, |before|, p.TypeByte()) == ReadInt(payload, |before|, p.width);
    IntReadsBack(before, p.width, p.n, rest);
  }

  lemma DateParamReadsBack(c: Conversions, before: Bytes, p: Param, rest: Bytes)
    requires p.DateParam? && p.Legal()
    ensures ReadParam(c, before + p.Sent() + rest, |before|, p.TypeByte())
         == Taken(p.Received().value, |before + p.Sent()|)
  {
    var payload := before + p.Sent() + rest;
    DateReadsBack(before, p.y, p.m, p.d, rest);
  }

  lemma ReadsTimestamp(c: Conversions, payload: Bytes, pos: nat, typeByte: Byte)
    requires pos < |payload| && (typeByte == 0x07 || typeByte == 0x0c)
    ensures ReadParam(c, payload, pos, typeByte) == ReadDatetime(payload, pos)
  {
  }

  lemma DatetimeParamReadsBack(c: Conversions, before: Bytes, p: Param, rest: Bytes)
    requires p.DatetimeParam? && p.Legal()
    ensures ReadParam(c, before + p.Sent() + rest, |before|, p.TypeByte())
         == Taken(p.Received().value, |before + p.Sent()|)
  {
    var payload, time := before + p.Sent() + rest, [p.h, p.mi, p.sec];
    assert p.Sent() == [7] + LittleEndian(p.y, 2) + ([p.m, p.d] + time) && |p.Sent()| == 8;
    DatetimeReadsBack(before, p.y, p.m, p.d, time, rest);
    ReadsTimestamp(c, payload, |before|, p.TypeByte());
  }

  lemma TextParamReadsBack(c: Conversions, before: Bytes, p: Param, rest: Bytes)
    requires KeepsUtf8(c) && p.TextParam? && p.Legal()
    ensures ReadParam(c, before + p.Sent() + rest, |before|, p.TypeByte())
         == Taken(p.Received().value, |before + p.Sent()|)
  {
    TextReadsBackExactly(c, before, Utf8.Encode(p.s), rest);
  }

  /** One parameter that was sent is read back, and the cursor moves over exactly its bytes. */
  lemma ParamReadsBack(c: Conversions, before: Bytes, p: Param, rest: Bytes)
    requires KeepsUtf8(c) && p.Legal() && !p.NullParam?
    ensures ReadParam(c, before + p.Sent() + rest, |before|, p.TypeByte())
         == Taken(p.Received().value, |before + p.Sent()|)
  {
    match p {
      case TextParam(_) => TextParamReadsBack(c, before, p, rest);
      case DateParam(_, _, _) => DateParamReadsBack(c, before, p, rest);
      case DatetimeParam(_, _, _, _, _, _) => DatetimeParamReadsBack(c, before, p, rest);
      case IntParam(_, _, _) => IntParamReadsBack(c, before, p, rest);
    }
  }

  lemma ValuesPush(params: seq<Param>, p: Param)
    ensures Values(params + [p]) == Values(params) + p.Sent()
  {
    assert (params + [p])[..|params|] == params;
  }

  lemma {:induction false} ValuesConcat(a: seq<Param>, b: seq<Param>)
    ensures Values(a + b) == Values(a) + Values(b)
  {
    if b == [] {
      assert a + b == a;
    } else {
      var front, last := b[..|b| - 1], b[|b| - 1];
      ValuesConcat(a, front);
      ConcatLast(a, b);
      ValuesPush(a + front, last);
      ConcatAssociates(Values(a), Values(front), last.Sent());
    }
  }

  lemma ValuesAround(params: seq<Param>, k: nat)
    requires k < |params|
    ensures Values(params) == Values(params[..k]) + params[k].Sent() + Values(params[k + 1..])
  {
    OneMoreValue(params, k);
    ValuesConcat(params[..k + 1], params[k + 1..]);
    assert params == params[..k + 1] + params[k + 1..];
  }

  lemma OneMoreValue(params: seq<Param>, k: nat)
    requires k < |params|
    ensures Values(params[..k + 1]) == Values(params[..k]) + params[k].Sent()
    ensures AllReceived(params[..k + 1]) == AllReceived(params[..k]) + [params[k].Received()]
  {
    assert params[..k + 1][..k] == params[..k];
  }

  /** Where a payload keeps its parts. */
  lemma PayloadLayout(header: Bytes, bitmap: Bytes, n: nat, types: Bytes, values: Bytes, payload: Bytes)
    requires |header| == 10 && |bitmap| == (n + 7) / 8 && |types| == 2 * n
    requires payload == header + bitmap + [1] + types + values
    ensures BitmapEnd(n) <= |payload| && payload[10..BitmapEnd(n)] == bitmap
    ensures TypesSent(payload, n) && ValuesStart(payload, n) == |header + bitmap + [1] + types|
    ensures forall i :: 0 <= i < n ==> TypeAt(payload, n, i) == types[2 * i]
  {
    var front := header + bitmap + [1];
    assert payload[|header| + |bitmap|] == 1;
    forall i | 0 <= i < n
      ensures payload[|front| + 2 * i] == types[2 * i]
    {
      assert (front + types)[|front| + 2 * i] == types[2 * i];
    }
  }

  lemma OneMoreParam(c: Conversions, payload: Bytes, n: nat, k: nat, values: seq<Option<string>>, pos: nat, p: Param,
                     before: Bytes, rest: Bytes)
    requires k < n && BitmapEnd(n) <= |payload| && KeepsUtf8(c) && p.Legal()
    requires FirstParams(c, payload, n, k) == Params(values, pos) && pos == |before|
    requires payload == before + p.Sent() + rest
    requires BitAt(payload[10..BitmapEnd(n)], k) <==> p.NullParam?
    requires TypeAt(payload, n, k) == p.TypeByte()
    ensures FirstParams(c, payload, n, k + 1) == Params(values + [p.Received()], |before + p.Sent()|)
  {
    if !p.NullParam? {
      ParamReadsBack(c, before, p, rest);
    }
  }

  /** Types and NULL bits in a payload are those of the parameters. */
  ghost predicate Describes(payload: Bytes, params: seq<Param>) {
    var n := |params|;
    BitmapEnd(n) <= |payload| &&
    forall i :: 0 <= i < n ==>
      params[i].TypeByte() == TypeAt(payload, n, i) &&
      (params[i].NullParam? <==> BitAt(payload[10..BitmapEnd(n)], i))
  }

  /** The first `k` parameters as received, and the cursor after them. */
  function Progress(front: Bytes, params: seq<Param>, k: nat): Params
    requires k <= |params|
  {
    Params(AllReceived(params[..k]), |front + Values(params[..k])|)
  }

  lemma NextParam(c: Conversions, payload: Bytes, front: Bytes, params: seq<Param>, k: nat)
    requires Describes(payload, params) && k < |params| && params[k].Legal() && KeepsUtf8(c)
    requires payload == front + Values(params)
    requires FirstParams(c, payload, |params|, k) == Progress(front, params, k)
    ensures FirstParams(c, payload, |params|, k + 1) == Progress(front, params, k + 1)
  {
    var values, before := AllReceived(params[..k]), front + Values(params[..k]);
    OneMoreValue(params, k);
    PayloadAround(payload, front, params, k);
    OneMoreParam(c, payload, |params|, k, values, |before|, params[k], before, Values(params[k + 1..]));
  }

  lemma NoParamsYet(c: Conversions, payload: Bytes, front: Bytes, params: seq<Param>)
    requires BitmapEnd(|params|) <= |payload| && ValuesStart(payload, |params|) == |front|
    ensures FirstParams(c, payload, |params|, 0) == Progress(front, params, 0)
  {
    assert params[..0] == [];
  }

  lemma {:induction false} FirstParamsReadBack(c: Conversions, payload: Bytes, front: Bytes, params: seq<Param>, k: nat)
    requires Describes(payload, params) && AllLegal(params) && KeepsUtf8(c) && k <= |params|
    requires payload == front + Values(params) && ValuesStart(payload, |params|) == |front|
    ensures FirstParams(c, payload, |params|, k) == Progress(front, params, k)
  {
    if k == 0 {
      NoParamsYet(c, payload, front, params);
    } else {
      FirstParamsReadBack(c, payload, front, params, k - 1);
      NextParam(c, payload, front, params, k - 1);
    }
  }

  lemma PayloadAround(payload: Bytes, front: Bytes, params: seq<Param>, k: nat)
    requires k < |params| && payload == front + Values(params)
    ensures payload == front + Values(params[..k]) + params[k].Sent() + Values(params[k + 1..])
    ensures front + Values(params[..k + 1]) == front + Values(params[..k]) + params[k].Sent()
  {
    ValuesAround(params, k);
    OneMoreValue(params, k);
    var before, now, after := Values(params[..k]), params[k].Sent(), Values(params[k + 1..]);
    FourParts(front, before, now, after);
    ConcatAssociates(front, before, now);
  }

  lemma FourParts(a: Bytes, b: Bytes, c: Bytes, d: Bytes)
    ensures a + (b + c + d) == a + b + c + d
  {
  }

  lemma SentDescribes(header: Bytes, bitmap: Bytes, params: seq<Param>)
    requires |header| == 10 && IsNullBitmap(bitmap, Texts(params), 0)
    ensures Describes(ExecutePayload(header, bitmap, params), params)
  {
    var payload, n := ExecutePayload(header, bitmap, params), |params|;
    PayloadLayout(header, bitmap, n, Types(params), Values(params), payload);
    forall i | 0 <= i < n
      ensures params[i].NullParam? <==> BitAt(payload[10..BitmapEnd(n)], i)
    {
      NullBitOf(bitmap, Texts(params), 0, i);
    }
  }

  /** Every parameter is received in its place, and the cursor ends at the end of the payload. */
  lemma ParamsReadBack(c: Conversions, header: Bytes, bitmap: Bytes, params: seq<Param>)
    requires |header| == 10 && IsNullBitmap(bitmap, Texts(params), 0) && AllLegal(params) && KeepsUtf8(c)
    ensures var payload, n := ExecutePayload(header, bitmap, params), |params|;
            && ExpectedParams(c, payload, n) == AllReceived(params)
            && BitmapEnd(n) <= |payload| && FirstParams(c, payload, n, n).pos == |payload|
  {
    var payload, front := ExecutePayload(header, bitmap, params), header + bitmap + [1] + Types(params);
    PayloadLayout(header, bitmap, |params|, Types(params), Values(params), payload);
    SentDescribes(header, bitmap, params);
    FirstParamsReadBack(c, payload, front, params, |params|);
    assert params[..|params|] == params;
  }
}
