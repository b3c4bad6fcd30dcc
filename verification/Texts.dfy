/** Trimming and joining of texts. White space is that of ASCII. */
module Texts {

  predicate IsSpace(c: char) {
    c == ' ' || '\t' <= c <= '\r'
  }

  function TrimStart(s: string): string {
    if s != "" && IsSpace(s[0]) then TrimStart(s[1..]) else s
  }

  function TrimEnd(s: string): string {
    if s != "" && IsSpace(s[|s| - 1]) then TrimEnd(s[..|s| - 1]) else s
  }

  function Trim(s: string): string {
    TrimEnd(TrimStart(s))
  }

  function TrimEndOf(s: string, c: char): string {
    if s != "" && s[|s| - 1] == c then TrimEndOf(s[..|s| - 1], c) else s
  }

  function TrimStartOf(s: string, c: char): string {
    if s != "" && s[0] == c then TrimStartOf(s[1..], c) else s
  }

  function Joined(xs: seq<string>, sep: string): string {
    if xs == [] then "" else if |xs| == 1 then xs[0] else xs[0] + sep + Joined(xs[1..], sep)
  }

  lemma JoinedStart(xs: seq<string>, sep: string)
    requires |xs| > 0 && |xs[0]| > 0
    ensures |Joined(xs, sep)| > 0 && Joined(xs, sep)[0] == xs[0][0]
  {
    if |xs| > 1 {
      var rest := sep + Joined(xs[1..], sep);
      assert Joined(xs, sep) == xs[0] + rest;
    }
  }
}
