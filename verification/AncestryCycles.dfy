/** The second pass of the ancestry query: every returned edge is marked with whether it lies
    on a cycle of the returned edges. */
module AncestryCycles {
  import opened Graph

  type Entity = string

  datatype Claim = Claim(child: Entity, parent: Entity, recordId: string)

  datatype Edge = Edge(claim: Claim, cycle: bool)

  ghost function Arcs(edges: seq<Edge>): set<(Entity, Entity)> {
    set e | e in edges :: (e.claim.child, e.claim.parent)
  }

  ghost predicate Adjacent(adjacency: map<Entity, seq<Entity>>, edges: seq<Edge>) {
    && (forall a, b :: (a, b) in Arcs(edges) <==> a in adjacency && b in adjacency[a])
  }

  /** The parents reported for each child, in edge order. */
  method Adjacency(edges: seq<Edge>) returns (adjacency: map<Entity, seq<Entity>>)
    ensures Adjacent(adjacency, edges)
  {
    adjacency := map[];
    for i := 0 to |edges|
      invariant Adjacent(adjacency, edges[..i])
    {
      var c := edges[i].claim;
      ghost var before := adjacency;
      adjacency := adjacency[c.child := (if c.child in adjacency then adjacency[c.child] else []) + [c.parent]];
      assert edges[..i + 1] == edges[..i] + [edges[i]];
      assert Arcs(edges[..i + 1]) == Arcs(edges[..i]) + {(c.child, c.parent)};
      forall a, b
        ensures (a, b) in Arcs(edges[..i + 1]) <==> a in adjacency && b in adjacency[a]
      {
        assert (a, b) in Arcs(edges[..i]) <==> a in before && b in before[a];
      }
    }
    assert edges[..|edges|] == edges;
  }

  /** The vertices the worklist can ever hold. */
  ghost function Vertices(edges: seq<Edge>, from: Entity): set<Entity> {
    {from} + set e | e in edges :: e.claim.parent
  }

  /** Expanding a vertex adds only vertices that `from` connects to. */
  lemma Expanded(edges: seq<Edge>, adjacency: map<Entity, seq<Entity>>, from: Entity, x: Entity)
    requires Adjacent(adjacency, edges) && x in adjacency && Connects(Arcs(edges), from, x)
    ensures forall y :: y in adjacency[x] ==> y in Vertices(edges, from) && Connects(Arcs(edges), from, y)
  {
    forall y | y in adjacency[x] ensures y in Vertices(edges, from) && Connects(Arcs(edges), from, y) {
      assert (x, y) in Arcs(edges);
      ConnectsStep(Arcs(edges), from, x, y);
    }
  }

  /** The worklist search of the pass. It terminates on every graph because a vertex is
      expanded at most once, and answers whether `from` connects to `target`. */
  method Leads(edges: seq<Edge>, adjacency: map<Entity, seq<Entity>>, from: Entity, target: Entity)
    returns (cycle: bool)
    requires Adjacent(adjacency, edges)
    ensures cycle <==> Connects(Arcs(edges), from, target)
  {
    ghost var arcs := Arcs(edges);
    var search, examined, i := [from], {}, 0;
    ConnectsSelf(arcs, from);
    while i < |search|
      invariant 0 <= i <= |search|
      invariant from in search && target !in search[..i]
      invariant forall x :: x in search ==> x in Vertices(edges, from) && Connects(arcs, from, x)
      invariant forall x :: x in examined <==> x in search[..i]
      invariant forall x, y :: x in examined && x in adjacency && y in adjacency[x] ==> y in search
      decreases Vertices(edges, from) - examined, |search| - i
    {
      var x := search[i];
      if x == target { return true; }
      assert search[..i + 1] == search[..i] + [x];
      if x !in examined {
        examined := examined + {x};
        if x in adjacency {
          Expanded(edges, adjacency, from, x);
          ghost var done := search[..i + 1];
          search := search + adjacency[x];
          assert search[..i + 1] == done;
        }
      }
      i := i + 1;
    }
    assert search[..i] == search;
    Exhausted(edges, adjacency, search, from, target);
    return false;
  }

  lemma Exhausted(edges: seq<Edge>, adjacency: map<Entity, seq<Entity>>, search: seq<Entity>, from: Entity,
                  target: Entity)
    requires Adjacent(adjacency, edges) && from in search && target !in search
    requires forall x, y :: x in search && x in adjacency && y in adjacency[x] ==> y in search
    ensures !Connects(Arcs(edges), from, target)
  {
    if Connects(Arcs(edges), from, target) {
      var seen := set x | x in search;
      assert Closed(Arcs(edges), seen);
      ClosedReach(Arcs(edges), seen, from, target);
    }
  }

  /** Every returned edge is marked exactly when it lies on a directed cycle of the returned
      edges; nothing else about the edges changes. */
  method MarkCycles(edges: seq<Edge>) returns (marked: seq<Edge>)
    ensures |marked| == |edges|
    ensures forall i :: 0 <= i < |edges| ==> marked[i].claim == edges[i].claim
    ensures forall i :: 0 <= i < |edges| ==>
      (marked[i].cycle <==> OnCycle(Arcs(edges), edges[i].claim.child, edges[i].claim.parent))
    ensures Arcs(marked) == Arcs(edges)
  {
    var adjacency := Adjacency(edges);
    marked := [];
    for i := 0 to |edges|
      invariant |marked| == i
      invariant forall k :: 0 <= k < i ==> marked[k].claim == edges[k].claim
      invariant forall k :: 0 <= k < i ==>
        (marked[k].cycle <==> OnCycle(Arcs(edges), edges[k].claim.child, edges[k].claim.parent))
    {
      var c := edges[i].claim;
      assert edges[i] in edges;
      var cycle := Leads(edges, adjacency, c.parent, c.child);
      CycleClosesBack(Arcs(edges), c.child, c.parent);
      marked := marked + [edges[i].(cycle := cycle)];
    }
    SameArcs(edges, marked);
  }

  lemma SameArcs(edges: seq<Edge>, marked: seq<Edge>)
    requires |marked| == |edges|
    requires forall i :: 0 <= i < |edges| ==> marked[i].claim == edges[i].claim
    ensures Arcs(marked) == Arcs(edges)
  {
    forall a, b ensures (a, b) in Arcs(edges) <==> (a, b) in Arcs(marked) {
      if (a, b) in Arcs(edges) {
        var e :| e in edges && (e.claim.child, e.claim.parent) == (a, b);
        var k :| 0 <= k < |edges| && edges[k] == e;
        assert marked[k] in marked;
      }
      if (a, b) in Arcs(marked) {
        var e :| e in marked && (e.claim.child, e.claim.parent) == (a, b);
        var k :| 0 <= k < |marked| && marked[k] == e;
        assert edges[k] in edges;
      }
    }
  }
}
