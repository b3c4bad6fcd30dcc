/** Filtering and removing on sequences. */
module Seqs {
  function Filter<T>(s: seq<T>, p: T -> bool): (r: seq<T>)
    ensures |r| <= |s|
  {
    if s == [] then []
    else Filter(s[..|s| - 1], p) + (if p(s[|s| - 1]) then [s[|s| - 1]] else [])
  }

  lemma {:induction false} FilterMembers<T(!new)>(s: seq<T>, p: T -> bool)
    ensures forall x :: x in Filter(s, p) <==> x in s && p(x)
  {
    if s != [] {
      FilterMembers(s[..|s| - 1], p);
    }
  }

  lemma {:induction false} FilterAll<T>(s: seq<T>, p: T -> bool)
    requires forall i :: 0 <= i < |s| ==> p(s[i])
    ensures Filter(s, p) == s
  {
    if s != [] {
      FilterAll(s[..|s| - 1], p);
    }
  }

  function Removed<T>(s: seq<T>, at: nat): (r: seq<T>)
    requires at < |s|
    ensures |r| == |s| - 1
    ensures forall i :: 0 <= i < |r| ==> r[i] == s[if i < at then i else i + 1]
  {
    s[..at] + s[at + 1..]
  }

  /** Vec::swap_remove: the last element takes the place of the removed one. */
  function SwapRemoved<T>(s: seq<T>, at: nat): (r: seq<T>)
    requires at < |s|
    ensures |r| == |s| - 1
  {
    if at == |s| - 1 then s[..at] else s[..|s| - 1][at := s[|s| - 1]]
  }

  lemma RemovedKeepsOthers<T>(s: seq<T>, at: nat)
    requires at < |s|
    ensures multiset(Removed(s, at)) == multiset(s) - multiset{s[at]}
  {
    assert s == s[..at] + ([s[at]] + s[at + 1..]);
  }

  lemma SwapRemovedKeepsOthers<T>(s: seq<T>, at: nat)
    requires at < |s|
    ensures multiset(SwapRemoved(s, at)) == multiset(s) - multiset{s[at]}
  {
    var front, last := s[..|s| - 1], s[|s| - 1];
    assert s == front + [last];
    if at < |s| - 1 {
      assert multiset(front[at := last]) == multiset(front) - multiset{front[at]} + multiset{last};
    }
  }

  lemma {:induction false} FilterNone<T>(s: seq<T>, p: T -> bool)
    requires forall i :: 0 <= i < |s| ==> !p(s[i])
    ensures Filter(s, p) == []
  {
    if s != [] {
      FilterNone(s[..|s| - 1], p);
    }
  }

  /** Dropping the only element that fails `p` is filtering by `p`. */
  lemma {:induction false} FilterDropsOne<T>(s: seq<T>, at: nat, p: T -> bool)
    requires at < |s| && !p(s[at])
    requires forall i :: 0 <= i < |s| && i != at ==> p(s[i])
    ensures Filter(s, p) == Removed(s, at)
  {
    var last := |s| - 1;
    if at < last {
      FilterDropsOne(s[..last], at, p);
      assert Removed(s, at) == Removed(s[..last], at) + [s[last]];
    } else {
      FilterAll(s[..last], p);
    }
  }

  /** The positions at which `p` holds, in increasing order. */
  function Positions<T>(s: seq<T>, p: T -> bool): (r: seq<nat>)
    ensures forall i :: 0 <= i < |r| ==> r[i] < |s| && p(s[r[i]])
    ensures forall i, j :: 0 <= i < j < |r| ==> r[i] < r[j]
  {
    if s == [] then []
    else Positions(s[..|s| - 1], p) + (if p(s[|s| - 1]) then [|s| - 1] else [])
  }

  lemma {:induction false} PositionsMembers<T>(s: seq<T>, p: T -> bool)
    ensures forall i :: i in Positions(s, p) <==> 0 <= i < |s| && p(s[i])
  {
    if s != [] {
      PositionsMembers(s[..|s| - 1], p);
    }
  }

  lemma PositionsPush<T>(s: seq<T>, i: nat, p: T -> bool)
    requires i < |s|
    ensures Positions(s[..i + 1], p) == Positions(s[..i], p) + (if p(s[i]) then [i] else [])
  {
    assert s[..i + 1][..i] == s[..i];
  }

  lemma {:induction false} PositionsOfOne<T>(s: seq<T>, at: nat, p: T -> bool)
    requires at < |s| && p(s[at])
    requires forall i :: 0 <= i < |s| && i != at ==> !p(s[i])
    ensures Positions(s, p) == [at]
  {
    var last := |s| - 1;
    if at < last {
      PositionsOfOne(s[..last], at, p);
    } else {
      PositionsOfNone(s[..last], p);
    }
  }

  lemma {:induction false} PositionsOfNone<T>(s: seq<T>, p: T -> bool)
    requires forall i :: 0 <= i < |s| ==> !p(s[i])
    ensures Positions(s, p) == []
  {
    if s != [] {
      PositionsOfNone(s[..|s| - 1], p);
    }
  }

  /** Two scans pick the same positions exactly when they agree at every position. */
  lemma {:induction false} PositionsAgree<A, B>(a: seq<A>, p: A -> bool, b: seq<B>, q: B -> bool)
    requires |a| == |b|
    ensures Positions(a, p) == Positions(b, q) <==> forall i :: 0 <= i < |a| ==> p(a[i]) == q(b[i])
  {
    if forall i :: 0 <= i < |a| ==> p(a[i]) == q(b[i]) {
      if a != [] {
        PositionsAgree(a[..|a| - 1], p, b[..|b| - 1], q);
      }
    } else {
      var i :| 0 <= i < |a| && p(a[i]) != q(b[i]);
      PositionsMembers(a, p);
      PositionsMembers(b, q);
      assert i in Positions(a, p) <==> p(a[i]);
      assert i in Positions(b, q) <==> q(b[i]);
    }
  }

  lemma LastApart<T>(s: seq<T>)
    requires s != []
    ensures s == s[..|s| - 1] + [s[|s| - 1]]
  {
  }

  lemma FirstApart<T>(s: seq<T>)
    requires s != []
    ensures s == [s[0]] + s[1..]
  {
  }

  lemma ConcatLast<T>(a: seq<T>, b: seq<T>)
    requires b != []
    ensures a + b == (a + b[..|b| - 1]) + [b[|b| - 1]]
  {
  }
}
