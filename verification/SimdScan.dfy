/** The four-lane and 32-byte vector scans over the column stores. */
module SimdScan {
  import opened Numbers
  import opened Seqs
  import opened AccessPaths
  import opened Utf8

  /** movemask_epi8 of a four-lane comparison: eight mask bits a lane. */
  method MoveMask(h0: bool, h1: bool, h2: bool, h3: bool) returns (mask: bv32)
    ensures mask & 0x0000_00FF != 0 <==> h0
    ensures mask & 0x0000_FF00 != 0 <==> h1
    ensures mask & 0x00FF_0000 != 0 <==> h2
    ensures mask & 0xFF00_0000 != 0 <==> h3
    ensures mask == 0 <==> !(h0 || h1 || h2 || h3)
  {
    mask := (if h0 then 0x0000_00FF else 0) | (if h1 then 0x0000_FF00 else 0)
      | (if h2 then 0x00FF_0000 else 0) | (if h3 then 0xFF00_0000 else 0);
  }

  /** One lane of the comparison instruction; less-than is greater-than with the operands exchanged. */
  predicate LaneHit(op: ScanOp, v: I64, splat: I64) {
    match op
    case ScanEq => v == splat
    case ScanGt => v > splat
    case ScanLt => splat > v
  }

  /** Push the lanes whose mask bits are set; the flags say what the mask was made from. */
  method PushLanes(i: nat, mask: bv32, ghost h0: bool, ghost h1: bool, ghost h2: bool, ghost h3: bool)
    returns (out: seq<nat>)
    requires mask & 0x0000_00FF != 0 <==> h0
    requires mask & 0x0000_FF00 != 0 <==> h1
    requires mask & 0x00FF_0000 != 0 <==> h2
    requires mask & 0xFF00_0000 != 0 <==> h3
    requires mask == 0 <==> !(h0 || h1 || h2 || h3)
    ensures out == (if h0 then [i] else []) + (if h1 then [i + 1] else [])
                   + (if h2 then [i + 2] else []) + (if h3 then [i + 3] else [])
  {
    out := [];
    if mask != 0 {
      if mask & 0x0000_00FF != 0 { out := out + [i]; }
      if mask & 0x0000_FF00 != 0 { out := out + [i + 1]; }
      if mask & 0x00FF_0000 != 0 { out := out + [i + 2]; }
      if mask & 0xFF00_0000 != 0 { out := out + [i + 3]; }
    }
  }

  method FourLanes(data: seq<I64>, i: nat, op: ScanOp, target: I64) returns (hits: seq<nat>)
    requires i + 4 <= |data|
    ensures
      var hit := (v: I64) => ScanHit(op, v, target);
      Positions(data[..i + 4], hit) == Positions(data[..i], hit) + hits
  {
    var h0, h1 := LaneHit(op, data[i], target), LaneHit(op, data[i + 1], target);
    var h2, h3 := LaneHit(op, data[i + 2], target), LaneHit(op, data[i + 3], target);
    FourPositions(data, i, (v: I64) => ScanHit(op, v, target));
    var mask := MoveMask(h0, h1, h2, h3);
    hits := PushLanes(i, mask, h0, h1, h2, h3);
  }

  method ScanI64Avx2(data: seq<I64>, op: ScanOp, target: I64) returns (out: seq<nat>)
    ensures out == Positions(data, (v: I64) => ScanHit(op, v, target))
  {
    out := [];
    var n4 := |data| / 4 * 4;
    var i := 0;
    while i < n4
      invariant i % 4 == 0 && i <= n4
      invariant out == Positions(data[..i], (v: I64) => ScanHit(op, v, target))
    {
      var hits := FourLanes(data, i, op, target);
      out := out + hits;
      i := i + 4;
    }
    var tail := ScanTail(data, i, op, target);
    out := out + tail;
  }

  /** The elements past the last full group of four. */
  method ScanTail(data: seq<I64>, from: nat, op: ScanOp, target: I64) returns (hits: seq<nat>)
    requires from <= |data|
    ensures
      var hit := (v: I64) => ScanHit(op, v, target);
      Positions(data, hit) == Positions(data[..from], hit) + hits
  {
    hits := [];
    var i := from;
    while i < |data|
      invariant from <= i <= |data|
      invariant Positions(data[..i], (v: I64) => ScanHit(op, v, target))
                == Positions(data[..from], (v: I64) => ScanHit(op, v, target)) + hits
    {
      PositionsPush(data, i, (v: I64) => ScanHit(op, v, target));
      if ScanHit(op, data[i], target) { hits := hits + [i]; }
      i := i + 1;
    }
    assert data[..i] == data;
  }

  lemma FourPositions<T>(s: seq<T>, i: nat, p: T -> bool)
    requires i + 4 <= |s|
    ensures Positions(s[..i + 4], p)
            == Positions(s[..i], p) + ((if p(s[i]) then [i] else []) + (if p(s[i + 1]) then [i + 1] else [])
               + (if p(s[i + 2]) then [i + 2] else []) + (if p(s[i + 3]) then [i + 3] else []))
  {
    PositionsPush(s, i, p);
    PositionsPush(s, i + 1, p);
    PositionsPush(s, i + 2, p);
    PositionsPush(s, i + 3, p);
  }

  /** With or without the vector unit, a scan is the filter it replaces. */
  method ScanI64(data: seq<I64>, op: ScanOp, target: I64, avx2: bool) returns (out: seq<nat>)
    ensures out == Positions(data, (v: I64) => ScanHit(op, v, target))
  {
    if avx2 {
      out := ScanI64Avx2(data, op, target);
    } else {
      out := Positions(data, (v: I64) => ScanHit(op, v, target));
    }
  }

  function Padded(b: seq<Byte>): (r: seq<Byte>)
    requires |b| <= 32
    ensures |r| == 32
  {
    b + seq(32 - |b|, _ => 0)
  }

  /** Among texts of one length, comparing all 32 padded bytes compares the texts. */
  lemma PaddedComparison(a: seq<Byte>, b: seq<Byte>)
    requires |a| == |b| <= 32
    ensures Padded(a) == Padded(b) <==> a == b
  {
    if Padded(a) == Padded(b) {
      assert a == Padded(a)[..|a|] == Padded(b)[..|b|] == b;
    }
  }

  method ScanTextAvx2(data: seq<string>, target: string) returns (out: seq<nat>)
    requires target != "" && |Encode(target)| <= 32
    ensures out == Positions(data, (v: string) => v == target)
  {
    ghost var hit := (v: string) => v == target;
    var bytes := Encode(target);
    var pattern := Padded(bytes);
    out := [];
    for i := 0 to |data|
      invariant out == Positions(data[..i], hit)
    {
      PositionsPush(data, i, hit);
      EncodeInjective(data[i], target);
      var candidate := Encode(data[i]);
      if |candidate| == |bytes| {
        PaddedComparison(candidate, bytes);
        var buffer := Padded(candidate);
        if forall k :: 0 <= k < 32 ==> buffer[k] == pattern[k] {
          assert buffer == pattern;
          out := out + [i];
        }
      }
    }
    assert data[..|data|] == data;
  }

  method ScanText(data: seq<string>, target: string, avx2: bool) returns (out: seq<nat>)
    ensures out == Positions(data, (v: string) => v == target)
  {
    if avx2 && target != "" && |Encode(target)| <= 32 {
      out := ScanTextAvx2(data, target);
    } else {
      out := Positions(data, (v: string) => v == target);
    }
  }
}
