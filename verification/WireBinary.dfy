/** The binary protocol: NULL bitmaps, binary rows, and the parameters of COM_STMT_EXECUTE. */
module WireBinary {
  import opened Numbers
  import opened Seqs
  import opened Wire
  import opened WireWriters
  import Utf8

  // ----- Bits of a byte -----

  function Pow2(k: nat): (p: nat)
    ensures p > 0
  {
    if k == 0 then 1 else 2 * Pow2(k - 1)
  }

  /** `b >> k & 1 == 1` */
  predicate TestBit(b: nat, k: nat) {
    if k == 0 then b % 2 == 1 else TestBit(b / 2, k - 1)
  }

  /** `b | 1 << k`, for a `b` of `width` bits. */
  function SetBit(b: nat, k: nat, width: nat): (r: nat)
    requires k < width && b < Pow2(width)
    ensures r < Pow2(width)
  {
    if k == 0 then b / 2 * 2 + 1 else SetBit(b / 2, k - 1, width - 1) * 2 + b % 2
  }

  /** Setting a bit changes that bit only. */
  lemma {:induction false} SetBitSets(b: nat, k: nat, width: nat, j: nat)
    requires k < width && b < Pow2(width)
    ensures TestBit(SetBit(b, k, width), j) <==> j == k || TestBit(b, j)
  {
    var r := SetBit(b, k, width);
    if k > 0 {
      assert r / 2 == SetBit(b / 2, k - 1, width - 1) && r % 2 == b % 2;
      if j > 0 {
        SetBitSets(b / 2, k - 1, width - 1, j - 1);
      }
    } else {
      assert r / 2 == b / 2;
    }
  }

  lemma {:induction false} ZeroHasNoBits(k: nat)
    ensures !TestBit(0, k)
  {
    if k > 0 {
      ZeroHasNoBits(k - 1);
    }
  }

  predicate BitAt(bitmap: Bytes, bit: nat)
    requires bit / 8 < |bitmap|
  {
    TestBit(bitmap[bit / 8], bit % 8)
  }

  /** Bit `i + offset` is set if and only if value `i` is NULL; no other bit is set. */
  ghost predicate IsNullBitmap<T>(bitmap: Bytes, values: seq<Option<T>>, offset: nat) {
    |bitmap| == (|values| + 7 + offset) / 8 &&
    forall bit: nat :: bit / 8 < |bitmap| ==>
      (BitAt(bitmap, bit) <==> offset <= bit < |values| + offset && values[bit - offset].None?)
  }

  /** After `done` values, their bits and no others are set. */
  ghost predicate MarkedSoFar<T>(bitmap: Bytes, values: seq<Option<T>>, offset: nat, done: nat) {
    done <= |values| && |bitmap| == (|values| + 7 + offset) / 8 &&
    forall bit: nat :: bit / 8 < |bitmap| ==>
      (BitAt(bitmap, bit) <==> offset <= bit < done + offset && values[bit - offset].None?)
  }

  lemma MarkNull<T>(bitmap: Bytes, values: seq<Option<T>>, offset: nat, i: nat, marked: Bytes)
    requires i < |values| && values[i].None? && MarkedSoFar(bitmap, values, offset, i)
    requires Pow2(8) == 256 && (i + offset) / 8 < |bitmap|
    requires marked == bitmap[(i + offset) / 8 := SetBit(bitmap[(i + offset) / 8], (i + offset) % 8, 8)]
    ensures MarkedSoFar(marked, values, offset, i + 1)
  {
    var at := (i + offset) / 8;
    forall bit: nat | bit / 8 < |marked|
      ensures BitAt(marked, bit) <==> offset <= bit < i + 1 + offset && values[bit - offset].None?
    {
      if bit / 8 == at {
        SetBitSets(bitmap[at], (i + offset) % 8, 8, bit % 8);
      }
      assert BitAt(bitmap, bit) <==> offset <= bit < i + offset && values[bit - offset].None?;
    }
  }

  /** The bitmap starts at zero and the bits of NULL values are set in place. */
  method MarkNulls<T>(values: seq<Option<T>>, offset: nat) returns (bitmap: array<Byte>)
    ensures fresh(bitmap) && IsNullBitmap(bitmap[..], values, offset)
  {
    var n := |values|;
    bitmap := new Byte[(n + 7 + offset) / 8](_ => 0);
    forall bit: nat | bit / 8 < bitmap.Length
      ensures !BitAt(bitmap[..], bit)
    {
      ZeroHasNoBits(bit % 8);
    }
    for i := 0 to n
      invariant MarkedSoFar(bitmap[..], values, offset, i)
    {
      if values[i].None? {
        var bit := i + offset;
        ghost var before := bitmap[..];
        bitmap[bit / 8] := SetBit(bitmap[bit / 8], bit % 8, 8);
        MarkNull(before, values, offset, i, bitmap[..]);
      } else {
      }
    }
  }

  // ----- Binary rows -----

  function StringOf(v: Option<Bytes>): Bytes {
    if v.None? then [] else LenStr(v.value)
  }

  /** The values of a binary row that are not NULL. */
  function Strings(row: seq<Option<Bytes>>): Bytes {
    if row == [] then []
    else
      var k := |row| - 1;
      Strings(row[..k]) + StringOf(row[k])
  }

  function BinaryRow(bitmap: Bytes, row: seq<Option<Bytes>>): Bytes {
    [0x00] + bitmap + Strings(row)
  }

  lemma OneMoreString(base: Bytes, row: seq<Option<Bytes>>, i: nat)
    requires i < |row|
    ensures row[i].None? ==> base + Strings(row[..i + 1]) == base + Strings(row[..i])
    ensures row[i].Some? ==> base + Strings(row[..i + 1]) == base + Strings(row[..i]) + LenStr(row[i].value)
  {
    assert row[..i + 1][..i] == row[..i];
  }

  method PutStrings(out: Buffer, row: seq<Option<string>>)
    modifies out
    ensures out.bytes == old(out.bytes) + Strings(EncodeRow(row))
  {
    ghost var base, encoded := out.bytes, EncodeRow(row);
    for i := 0 to |row|
      invariant out.bytes == base + Strings(encoded[..i])
    {
      if row[i].Some? {
        out.PutLenStr(Utf8.Encode(row[i].value));
      }
      OneMoreString(base, encoded, i);
    }
    assert encoded[..|row|] == encoded;
  }

  method WriteBinaryRowInto(out: Buffer, row: seq<Option<string>>, seqNo: Byte)
    modifies out
    ensures exists bitmap: Bytes :: IsNullBitmap(bitmap, row, 2) &&
              out.bytes == old(out.bytes) + Frame(Packet(BinaryRow(bitmap, EncodeRow(row)), seqNo))
  {
    var nullBitmap := MarkNulls(row, 2);
    var bitmap := nullBitmap[..];
    var header := |out.bytes|;
    out.PutSlice([0, 0, 0, 0]);
    ghost var base := out.bytes;
    out.PutU8(0x00);
    out.PutSlice(bitmap);
    PutStrings(out, row);
    ghost var strings := Strings(EncodeRow(row));
    ConcatAssociates(base, [0x00], bitmap);
    ConcatAssociates(base, [0x00] + bitmap, strings);
    out.FillHeader(header, seqNo, old(out.bytes), BinaryRow(bitmap, EncodeRow(row)));
  }

  /** The first `n` values of a binary row, read as a client reads them. */
  function ReadValues(n: nat, bitmap: Bytes, b: Bytes): Read<seq<Option<Bytes>>>
    requires n + 1 < 8 * |bitmap|
  {
    if n == 0 then Done([], b)
    else
      match ReadValues(n - 1, bitmap, b)
      case Fail => Fail
      case Done(cells, rest) =>
        if BitAt(bitmap, n + 1) then Done(cells + [None], rest)
        else
          match ReadLenStr(rest)
          case Fail => Fail
          case Done(s, rest') => Done(cells + [Some(s)], rest')
  }

  function ReadBinaryRow(n: nat, payload: Bytes): Option<seq<Option<Bytes>>> {
    var length := (n + 9) / 8;
    if |payload| < 1 + length || payload[0] != 0x00 then None
    else
      match ReadValues(n, payload[1..1 + length], payload[1 + length..])
      case Fail => None
      case Done(row, rest) => if rest == [] then Some(row) else None
  }

  lemma NullBitOf<T>(bitmap: Bytes, values: seq<Option<T>>, offset: nat, i: nat)
    requires IsNullBitmap(bitmap, values, offset) && i < |values|
    ensures i + offset < 8 * |bitmap|
    ensures BitAt(bitmap, i + offset) <==> values[i].None?
  {
    var bit := i + offset;
    assert BitAt(bitmap, bit) <==> offset <= bit < |values| + offset && values[bit - offset].None?;
  }

  lemma ReadOneValue(n: nat, bitmap: Bytes, b: Bytes, cells: seq<Option<Bytes>>, v: Option<Bytes>, rest: Bytes)
    requires n + 2 < 8 * |bitmap| && ReadValues(n, bitmap, b) == Done(cells, StringOf(v) + rest)
    requires (BitAt(bitmap, n + 2) <==> v.None?) && (v.Some? ==> |v.value| < TWO_64)
    ensures ReadValues(n + 1, bitmap, b) == Done(cells + [v], rest)
  {
    if v.Some? {
      LenStrReadsBack(v.value, rest);
    } else {
      assert StringOf(v) + rest == rest;
    }
  }

  ghost predicate NullBits(bitmap: Bytes, row: seq<Option<Bytes>>) {
    |row| + 1 < 8 * |bitmap| && forall i :: 0 <= i < |row| ==> (row[i].None? <==> BitAt(bitmap, i + 2))
  }

  lemma {:induction false} ValuesReadBack(row: seq<Option<Bytes>>, bitmap: Bytes, rest: Bytes)
    requires NullBits(bitmap, row) && |Strings(row)| < TWO_64
    ensures ReadValues(|row|, bitmap, Strings(row) + rest) == Done(row, rest)
  {
    if row == [] {
      assert Strings(row) + rest == rest;
    } else {
      var k := |row| - 1;
      var front, v := row[..k], row[k];
      ValuesReadBack(front, bitmap, StringOf(v) + rest);
      ConcatAssociates(Strings(front), StringOf(v), rest);
      ReadOneValue(k, bitmap, Strings(row) + rest, front, v, rest);
      LastApart(row);
    }
  }

  /** For any number of columns, bitmap and strings decode back to the row. */
  lemma BinaryRowReadsBack(row: seq<Option<Bytes>>, bitmap: Bytes)
    requires IsNullBitmap(bitmap, row, 2) && |Strings(row)| < TWO_64
    ensures ReadBinaryRow(|row|, BinaryRow(bitmap, row)) == Some(row)
  {
    forall i | 0 <= i < |row|
      ensures row[i].None? <==> BitAt(bitmap, i + 2)
    {
      NullBitOf(bitmap, row, 2, i);
    }
    ValuesReadBack(row, bitmap, []);
    var payload := BinaryRow(bitmap, row);
    assert payload[1..1 + |bitmap|] == bitmap && payload[1 + |bitmap|..] == Strings(row) + [];
  }
}
