// Cutting sequences, and putting the elements of a set in order.

module Ordering {

  lemma CutAt<T>(s: seq<T>, i: nat)
    requires i < |s|
    ensures s[..i + 1] == s[..i] + [s[i]]
    ensures s == s[..i + 1] + s[i + 1..]
    ensures s == [s[0]] + s[1..]
    ensures s == s[..|s| - 1] + [s[|s| - 1]]
  {
  }

  lemma Regroup<T>(a: seq<T>, b: seq<T>, c: seq<T>)
    ensures (a + b) + c == a + (b + c)
  {
  }

  lemma SmallerSubset(a: set<int>, b: set<int>)
    requires a < b
    ensures |a| < |b|
  {
    var rest := b - a;
    assert b == a + rest;
    assert rest != {};
  }

  lemma LeastExists(s: set<int>)
    requires exists x :: x in s
    ensures exists x :: x in s && forall y :: y in s ==> x <= y
  {
    var m :| m in s;
    var least := LeastFrom(s, m);
  }

  lemma LeastFrom(s: set<int>, m: int) returns (least: int)
    requires m in s
    ensures least in s && forall y :: y in s ==> least <= y
    decreases |set y | y in s && y < m|
  {
    var below := set y | y in s && y < m;
    if below == {} {
      least := m;
      assert forall y :: y in s && y < m ==> y in below;
    } else {
      var b :| b in below;
      var lower := set y | y in s && y < b;
      assert b !in lower && lower < below;
      SmallerSubset(lower, below);
      least := LeastFrom(s, b);
    }
  }

  ghost predicate Increasing(s: seq<int>) {
    forall i, j :: 0 <= i < j < |s| ==> s[i] < s[j]
  }

  // A least element first, then larger ones in order.
  lemma LeastFirst(s: set<int>, x: int, rest: seq<int>)
    requires x in s && forall y :: y in s ==> x <= y
    requires forall y :: y in rest <==> y in s - {x}
    requires Increasing(rest)
    ensures forall y :: y in [x] + rest <==> y in s
    ensures Increasing([x] + rest)
  {
    assert forall i :: 0 <= i < |rest| ==> rest[i] in rest;
    forall y
      ensures y in [x] + rest <==> y in s
    {
      assert y in [x] + rest <==> y == x || y in rest;
    }
  }

  // The elements of a set, smallest first.
  function InOrder(s: set<int>): (r: seq<int>)
    ensures forall x :: x in r <==> x in s
    ensures Increasing(r)
  {
    if exists x :: x in s then
      LeastExists(s);
      var x :| x in s && forall y :: y in s ==> x <= y;
      var rest := InOrder(s - {x});
      LeastFirst(s, x, rest);
      [x] + rest
    else
      []
  }
}
