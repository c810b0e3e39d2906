/** Walks in a finite directed graph. */
module Graph {

  ghost predicate Linked<V>(arcs: set<(V, V)>, p: seq<V>, k: nat)
    requires k + 1 < |p|
  {
    (p[k], p[k + 1]) in arcs
  }

  ghost predicate Walk<V>(arcs: set<(V, V)>, p: seq<V>) {
    |p| > 0 && forall k: nat :: k + 1 < |p| ==> Linked(arcs, p, k)
  }

  ghost predicate WalkBetween<V>(arcs: set<(V, V)>, p: seq<V>, a: V, b: V) {
    Walk(arcs, p) && p[0] == a && p[|p| - 1] == b
  }

  ghost predicate Connects<V(!new)>(arcs: set<(V, V)>, a: V, b: V) {
    exists p :: WalkBetween(arcs, p, a, b)
  }

  /** An arc lies on a cycle when some closed walk begins with that arc. */
  ghost predicate OnCycle<V(!new)>(arcs: set<(V, V)>, from: V, to: V) {
    exists p :: WalkBetween(arcs, p, from, from) && |p| > 1 && p[1] == to
  }

  ghost predicate Closed<V(!new)>(arcs: set<(V, V)>, s: set<V>) {
    forall a, b :: (a, b) in arcs && a in s ==> b in s
  }

  lemma StepWalk<V>(arcs: set<(V, V)>, p: seq<V>, a: V, b: V, c: V)
    requires WalkBetween(arcs, p, a, b) && (b, c) in arcs
    ensures WalkBetween(arcs, p + [c], a, c)
  {
    var q := p + [c];
    forall k: nat | k + 1 < |q| ensures Linked(arcs, q, k) {
      if k + 1 < |p| { assert Linked(arcs, p, k); }
    }
  }

  lemma ConnectsStep<V(!new)>(arcs: set<(V, V)>, a: V, b: V, c: V)
    requires Connects(arcs, a, b) && (b, c) in arcs
    ensures Connects(arcs, a, c)
  {
    var p :| WalkBetween(arcs, p, a, b);
    StepWalk(arcs, p, a, b, c);
  }

  lemma ConnectsSelf<V(!new)>(arcs: set<(V, V)>, a: V)
    ensures Connects(arcs, a, a)
  {
    assert WalkBetween(arcs, [a], a, a);
  }

  lemma {:induction false} ClosedTraps<V(!new)>(arcs: set<(V, V)>, s: set<V>, p: seq<V>)
    requires Closed(arcs, s) && Walk(arcs, p) && p[0] in s
    ensures p[|p| - 1] in s
  {
    if |p| > 1 {
      var q := p[..|p| - 1];
      forall k: nat | k + 1 < |q| ensures Linked(arcs, q, k) { assert Linked(arcs, p, k); }
      ClosedTraps(arcs, s, q);
      assert Linked(arcs, p, |p| - 2);
    }
  }

  /** A closed set that contains `a` contains everything `a` connects to. */
  lemma ClosedReach<V(!new)>(arcs: set<(V, V)>, s: set<V>, a: V, b: V)
    requires Closed(arcs, s) && a in s && Connects(arcs, a, b)
    ensures b in s
  {
    var p :| WalkBetween(arcs, p, a, b);
    ClosedTraps(arcs, s, p);
  }

  /** An arc is on a cycle exactly when its head connects back to its tail. */
  lemma CycleClosesBack<V(!new)>(arcs: set<(V, V)>, from: V, to: V)
    requires (from, to) in arcs
    ensures OnCycle(arcs, from, to) <==> Connects(arcs, to, from)
  {
    if Connects(arcs, to, from) {
      var p :| WalkBetween(arcs, p, to, from);
      var q := [from] + p;
      forall k: nat | k + 1 < |q| ensures Linked(arcs, q, k) {
        if k > 0 { assert Linked(arcs, p, k - 1); }
      }
      assert WalkBetween(arcs, q, from, from) && q[1] == to;
    }
    if OnCycle(arcs, from, to) {
      var p :| WalkBetween(arcs, p, from, from) && |p| > 1 && p[1] == to;
      var q := p[1..];
      forall k: nat | k + 1 < |q| ensures Linked(arcs, q, k) { assert Linked(arcs, p, k + 1); }
      assert WalkBetween(arcs, q, to, from);
    }
  }
}
