/** The bytes of a text. Lengths on the wire and in the scans are byte lengths. */
module Utf8 {
  import opened Numbers

  function EncodeChar(c: char): (b: seq<Byte>)
    ensures 1 <= |b| <= 4
  {
    var n := c as int;
    if n < 0x80 then [n]
    else if n < 0x800 then [0xC0 + n / 64, 0x80 + n % 64]
    else if n < 0x10000 then [0xE0 + n / 4096, 0x80 + n / 64 % 64, 0x80 + n % 64]
    else [0xF0 + n / 262144, 0x80 + n / 4096 % 64, 0x80 + n / 64 % 64, 0x80 + n % 64]
  }

  function Encode(s: string): (b: seq<Byte>)
    ensures s == "" <==> b == []
  {
    if s == "" then [] else EncodeChar(s[0]) + Encode(s[1..])
  }

  lemma SixBitGroups(n: nat)
    ensures n == 64 * (n / 64) + n % 64
    ensures n / 64 == 64 * (n / 4096) + n / 64 % 64
    ensures n / 4096 == 64 * (n / 262144) + n / 4096 % 64
  {
    assert n / 64 / 64 == n / 4096;
    assert n / 4096 / 64 == n / 262144;
  }

  lemma EncodeCharInjective(c: char, d: char)
    requires EncodeChar(c) == EncodeChar(d)
    ensures c == d
  {
    var b, e := EncodeChar(c), EncodeChar(d);
    var m, n := c as int, d as int;
    assert b[0] == e[0] && b[|b| - 1] == e[|e| - 1];
    SixBitGroups(m);
    SixBitGroups(n);
    if |b| >= 3 {
      assert b[1] == e[1] && b[|b| - 2] == e[|e| - 2];
    }
    assert m == n;
  }

  /** The first byte tells the length, and the bytes of one length tell the character. */
  lemma EncodeCharIsPrefixFree(c: char, x: seq<Byte>, d: char, y: seq<Byte>)
    requires EncodeChar(c) + x == EncodeChar(d) + y
    ensures c == d && x == y
  {
    var m, n := EncodeChar(c), EncodeChar(d);
    var both := m + x;
    assert m[0] == both[0] == n[0];
    assert m == both[..|m|] == n;
    EncodeCharInjective(c, d);
    assert x == both[|m|..] == y;
  }

  /** Two texts have the same bytes only when they are the same text. */
  lemma {:induction false} EncodeInjective(s: string, t: string)
    ensures Encode(s) == Encode(t) <==> s == t
  {
    if Encode(s) == Encode(t) && s != "" {
      EncodeCharIsPrefixFree(s[0], Encode(s[1..]), t[0], Encode(t[1..]));
      EncodeInjective(s[1..], t[1..]);
      assert s == [s[0]] + s[1..] && t == [t[0]] + t[1..];
    }
  }

  /** An ASCII text has one byte for each character. */
  lemma {:induction false} EncodeAscii(s: string)
    requires forall i :: 0 <= i < |s| ==> s[i] < 128 as char
    ensures |Encode(s)| == |s|
  {
    if s != "" {
      EncodeAscii(s[1..]);
    }
  }
}
