// Walks in a graph whose nodes are numbers: the message types that refer to each other.
module Graphs {
  ghost predicate Walk(g: nat -> set<nat>, p: seq<nat>) {
    p != [] && forall k :: 0 < k < |p| ==> p[k] in g(p[k - 1])
  }

  ghost predicate Distinct(p: seq<nat>) {
    forall j, k :: 0 <= j < k < |p| ==> p[j] != p[k]
  }

  // No walk from u comes back to where it has been.
  ghost predicate Acyclic(g: nat -> set<nat>, u: nat) {
    forall p :: Walk(g, p) && p[0] == u ==> Distinct(p)
  }

  // So many nodes differ only if there are as many.
  lemma {:induction false} Pigeonhole(p: seq<nat>, n: nat)
    requires Distinct(p) && forall k :: 0 <= k < |p| ==> p[k] < n
    ensures |p| <= n
    decreases n
  {
    if p != [] {
      assert p[0] < n;
      if i: nat :| i < |p| && p[i] == n - 1 {
        var q := p[..i] + p[i + 1..];
        Pigeonhole(q, n - 1);
      } else {
        Pigeonhole(p, n - 1);
      }
    }
  }

  // A walk that comes back can be continued to any length.
  lemma {:induction false} Pump(g: nat -> set<nat>, p: seq<nat>, j: nat, k: nat, n: nat) returns (q: seq<nat>, at: nat)
    requires Walk(g, p) && j < k < |p| && p[j] == p[k] && n >= 1
    ensures Walk(g, q) && q[0] == p[0] && |q| == n && at < k && q[n - 1] == p[at]
    decreases n
  {
    if n == 1 {
      return [p[0]], 0;
    }
    q, at := Pump(g, p, j, k, n - 1);
    q := q + [p[at + 1]];
    at := if at + 1 == k then j else at + 1;
  }

  // Between two nodes there is a walk without repetition.
  lemma {:induction false} Shorten(g: nat -> set<nat>, p: seq<nat>) returns (q: seq<nat>)
    requires Walk(g, p)
    ensures Walk(g, q) && Distinct(q) && q[0] == p[0] && q[|q| - 1] == p[|p| - 1]
    ensures forall k :: 0 <= k < |q| ==> q[k] in p
    decreases |p|
  {
    if Distinct(p) { return p; }
    var j, k :| 0 <= j < k < |p| && p[j] == p[k];
    var r := p[..j] + p[k..];
    forall i | 0 < i < |r|
      ensures r[i] in g(r[i - 1])
    {
      if i > j { assert r[i] == p[i + k - j] && r[i - 1] == p[i - 1 + k - j]; }
      else if i == j { assert r[i] == p[k] == p[j] && r[i - 1] == p[j - 1]; }
      else { assert r[i] == p[i] && r[i - 1] == p[i - 1]; }
    }
    assert r[|r| - 1] == p[|p| - 1];
    q := Shorten(g, r);
  }

  lemma Prepend(g: nat -> set<nat>, a: nat, p: seq<nat>)
    requires Walk(g, p) && p[0] in g(a)
    ensures Walk(g, [a] + p)
  {
    var q := [a] + p;
    forall k | 0 < k < |q|
      ensures q[k] in g(q[k - 1])
    {
      if k > 1 { assert q[k] == p[k - 1] && q[k - 1] == p[k - 2]; }
    }
  }

  lemma Tail(g: nat -> set<nat>, p: seq<nat>)
    requires Walk(g, p) && |p| > 1
    ensures Walk(g, p[1..]) && p[1] in g(p[0])
  {
  }
}
