/** Three-way comparison of integers and of texts. */
module Comparison {

  datatype Ordering = Less | Equal | Greater {
    function Reverse(): Ordering {
      match this
      case Less => Greater
      case Equal => Equal
      case Greater => Less
    }
  }

  function IntCmp(a: int, b: int): Ordering {
    if a < b then Less else if a == b then Equal else Greater
  }

  /** Lexicographic by code point, which for UTF-8 is the same order as by byte. */
  function StrCmp(a: string, b: string): Ordering {
    if a == "" && b == "" then Equal
    else if a == "" then Less
    else if b == "" then Greater
    else if a[0] < b[0] then Less
    else if b[0] < a[0] then Greater
    else StrCmp(a[1..], b[1..])
  }

  lemma {:induction false} StrCmpEqual(a: string, b: string)
    ensures StrCmp(a, b) == Equal <==> a == b
  {
    if a != "" && b != "" && a[0] == b[0] {
      StrCmpEqual(a[1..], b[1..]);
      assert a == [a[0]] + a[1..] && b == [b[0]] + b[1..];
    }
  }

  lemma {:induction false} StrCmpReverse(a: string, b: string)
    ensures StrCmp(b, a) == StrCmp(a, b).Reverse()
  {
    if a != "" && b != "" {
      StrCmpReverse(a[1..], b[1..]);
    }
  }

  lemma {:induction false} StrCmpTransitive(a: string, b: string, c: string)
    requires StrCmp(a, b) != Greater && StrCmp(b, c) != Greater
    ensures StrCmp(a, c) != Greater
    ensures StrCmp(a, c) == Equal ==> StrCmp(a, b) == StrCmp(b, c) == Equal
  {
    if a != "" && b != "" && c != "" && a[0] == b[0] == c[0] {
      StrCmpTransitive(a[1..], b[1..], c[1..]);
    }
  }
}
