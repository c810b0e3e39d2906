/** The process archive, its identity index and the bounded breadth-first ancestry query. */
module Ancestry {
  import opened Common
  import opened Graph
  import opened AncestryCycles

  /** What one archived lifecycle record says once its identity is rederived. */
  datatype Fact =
    | Refused
    | Interpreted(entity: Option<Entity>, parent: Option<Entity>, parentIdentity: Option<string>, stop: bool,
                  recordId: string)

  datatype Archived = Archived(bytes: nat, fact: Fact)

  datatype IndexRow = IndexRow(entity: Digest, parent: Digest, quality: nat)

  /** Rows of the identity index by archive position; the archive only ever grows. */
  type Index = map<nat, IndexRow>

  function DigestOf(e: Option<Entity>): Digest {
    match e
    case None => NoDigest
    case Some(x) => Sha256(x)
  }

  function IndexRowFor(f: Fact): IndexRow {
    match f
    case Refused => IndexRow(NoDigest, NoDigest, 2)
    case Interpreted(e, p, _, _, _) => IndexRow(DigestOf(e), DigestOf(p), if e.Some? then 0 else 1)
  }

  /** Every index row describes the archived record it points at. */
  ghost predicate IndexSound(archive: seq<Archived>, index: Index) {
    forall i :: i in index ==> i < |archive| && index[i] == IndexRowFor(archive[i].fact)
  }

  // ----- What the archive says, without the index -----

  predicate IsEvidence(f: Fact, e: Entity) {
    f.Interpreted? && f.entity == Some(e)
  }

  ghost function ClaimOf(f: Fact): seq<Claim> {
    if f.Interpreted? && f.entity.Some? && f.parent.Some?
    then [Claim(f.entity.value, f.parent.value, f.recordId)] else []
  }

  ghost predicate Within(archive: seq<Archived>, rows: seq<nat>) {
    forall k :: 0 <= k < |rows| ==> rows[k] < |archive|
  }

  /** The archive positions that are evidence about `e`, oldest first. */
  ghost function Evidence(archive: seq<Archived>, e: Entity): (rows: seq<nat>)
    ensures forall k :: 0 <= k < |rows| ==> rows[k] < |archive| && IsEvidence(archive[rows[k]].fact, e)
  {
    if archive == [] then [] else
      var last := |archive| - 1;
      Evidence(archive[..last], e) + if IsEvidence(archive[last].fact, e) then [last] else []
  }

  /** The parent claims made by the given archive rows, in order. */
  ghost function ClaimsAt(archive: seq<Archived>, rows: seq<nat>): seq<Claim>
    requires Within(archive, rows)
  {
    if rows == [] then [] else
      ClaimsAt(archive, rows[..|rows| - 1]) + ClaimOf(archive[rows[|rows| - 1]].fact)
  }

  /** Every parent claim about the given entities, entity by entity. */
  ghost function ClaimsAbout(archive: seq<Archived>, entities: seq<Entity>): seq<Claim> {
    if entities == [] then [] else
      ClaimsAbout(archive, entities[..|entities| - 1]) + ClaimsAt(archive, Evidence(archive, entities[|entities| - 1]))
  }

  ghost function Claimed(archive: seq<Archived>): set<(Entity, Entity)> {
    set r, c | r in archive && c in ClaimOf(r.fact) :: (c.child, c.parent)
  }

  /** The parent claims the index leads to: those of rows indexed under the child that claims them. */
  ghost function Seen(archive: seq<Archived>, index: Index): set<(Entity, Entity)> {
    set i, c | i in index && i < |archive| && c in ClaimOf(archive[i].fact) && index[i].entity == Sha256(c.child) ::
      (c.child, c.parent)
  }

  // ----- The query -----

  datatype Bounds = Bounds(maxNodes: nat, maxDepth: nat, maxEvidence: nat, maxBytes: nat) {
    ghost predicate Admissible() {
      0 < maxNodes <= 256 && 0 < maxDepth <= 64 && 0 < maxEvidence <= 1000 && 4096 <= maxBytes <= 8 * 1024 * 1024
    }
  }

  datatype Node = Node(entity: Entity, evidence: seq<nat>, birthObserved: bool, stopObserved: bool,
                       claimsConflict: bool, readComplete: bool)

  datatype Answer = Answer(nodes: seq<Node>, edges: seq<Edge>, truncated: bool, backlog: nat,
                           evidenceRead: nat, complete: bool)

  datatype Refusal =
    | InvalidRequest | IndexAccountingMismatch | IndexMismatch | OutputTooLarge | HeadTooLarge | GrowthRefused

  /** Serialized sizes, which the byte bound is charged with; `base` is the empty answer. */
  datatype Sizes = Sizes(base: nat, evidence: Archived -> nat, edge: Edge -> nat, node: Node -> nat,
                         answer: Answer -> nat)

  datatype Pending = Pending(entity: Entity, path: seq<Entity>)

  /** The state of a traversal; `cut` says that some reading was stopped by the evidence or byte bound. */
  datatype Search = Search(pending: seq<Pending>, queued: set<Entity>, edges: seq<Edge>,
                           evidence: nat, consumed: nat, truncated: bool, cut: bool)

  /** The form of an entity identifier: a prefix and 64 lower-case hexadecimal digits. */
  ghost predicate IsEntityId(e: Entity) {
    |e| == 69 && e[..5] == "proc_" && forall i :: 5 <= i < 69 ==> '0' <= e[i] <= '9' || 'a' <= e[i] <= 'f'
  }

  method CheckRequest(root: Entity, b: Bounds) returns (ok: bool)
    ensures ok <==> IsEntityId(root) && b.Admissible()
  {
    if |root| != 69 || root[..5] != "proc_" { return false; }
    for i := 5 to |root|
      invariant forall k :: 5 <= k < i ==> '0' <= root[k] <= '9' || 'a' <= root[k] <= 'f'
    {
      if !('0' <= root[i] <= '9') && !('a' <= root[i] <= 'f') { return false; }
    }
    if b.maxNodes == 0 || b.maxNodes > 256 || b.maxDepth == 0 || b.maxDepth > 64 { return false; }
    if b.maxEvidence == 0 || b.maxEvidence > 1000 { return false; }
    return b.maxBytes >= 4096 && b.maxBytes <= 8 * 1024 * 1024;
  }

  /** The index query of one entity: matching rows that join the archive, oldest first. */
  function Matching(archive: seq<Archived>, index: Index, e: Entity): (rows: seq<nat>)
    ensures forall k :: 0 <= k < |rows| ==>
      rows[k] < |archive| && rows[k] in index && index[rows[k]].entity == Sha256(e)
  {
    if archive == [] then [] else
      var last := |archive| - 1;
      Matching(archive[..last], index, e) + if last in index && index[last].entity == Sha256(e) then [last] else []
  }

  ghost function Bare(edges: seq<Edge>): seq<Claim> {
    seq(|edges|, i requires 0 <= i < |edges| => edges[i].claim)
  }

  ghost function Entities(nodes: seq<Node>): seq<Entity> {
    seq(|nodes|, i requires 0 <= i < |nodes| => nodes[i].entity)
  }

  // ----- Invariant of the search -----

  /** Every walk that leads to the entity holds more entities than the depth bound. */
  ghost predicate Far(arcs: set<(Entity, Entity)>, root: Entity, x: Entity, depth: nat) {
    forall p :: WalkBetween(arcs, p, root, x) ==> |p| > depth
  }

  ghost predicate TooDeep(arcs: set<(Entity, Entity)>, root: Entity, depth: nat) {
    exists x :: Connects(arcs, root, x) && Far(arcs, root, x, depth)
  }

  /** Some walk without repetition that leads to the entity exceeds the depth bound. */
  ghost predicate LongPath(arcs: set<(Entity, Entity)>, root: Entity, x: Entity, depth: nat) {
    exists p :: WalkBetween(arcs, p, root, x) && NoRepeats(p) && |p| > depth
  }

  ghost predicate ManyReachable(arcs: set<(Entity, Entity)>, root: Entity, n: nat) {
    exists s: set<Entity> :: |s| > n && forall x :: x in s ==> Connects(arcs, root, x)
  }

  /** Why a search may be truncated: a reading was cut, or a bound on the graph was in the way. */
  ghost predicate Explained(arcs: set<(Entity, Entity)>, root: Entity, b: Bounds, s: Search) {
    && (s.cut ==> s.truncated)
    && (s.truncated ==> s.cut || TooDeep(arcs, root, b.maxDepth) || ManyReachable(arcs, root, b.maxNodes))
  }

  ghost predicate EdgeKnown(arcs: set<(Entity, Entity)>, root: Entity, c: Claim) {
    (c.child, c.parent) in arcs && Connects(arcs, root, c.child)
  }

  /** A queued entity carries the walk that led to it, over queued entities only and without repetition. */
  ghost predicate PathKnown(arcs: set<(Entity, Entity)>, root: Entity, queued: set<Entity>, p: Pending) {
    && WalkBetween(arcs, p.path, root, p.entity) && p.entity in queued && NoRepeats(p.path)
    && forall x :: x in p.path ==> x in queued
  }

  ghost function Names(pending: seq<Pending>): set<Entity> {
    if pending == [] then {} else Names(pending[..|pending| - 1]) + {pending[|pending| - 1].entity}
  }

  /** The worklist holds each queued entity exactly once, starting with the root. */
  ghost predicate Frontier(arcs: set<(Entity, Entity)>, root: Entity, pending: seq<Pending>, queued: set<Entity>) {
    && queued == Names(pending) && |queued| == |pending|
    && 0 < |pending| && pending[0].entity == root
    && forall i :: 0 <= i < |pending| ==> PathKnown(arcs, root, queued, pending[i])
  }

  /** No walk to the entity is shorter than its path. */
  ghost predicate Shortest(arcs: set<(Entity, Entity)>, root: Entity, p: Pending) {
    forall q :: WalkBetween(arcs, q, root, p.entity) ==> |p.path| <= |q|
  }

  /** Every parent claimed for a processed entity is queued, unless the depth bound kept it out. */
  ghost predicate Spread(arcs: set<(Entity, Entity)>, b: Bounds, queued: set<Entity>, p: Pending) {
    forall y :: (p.entity, y) in arcs ==> y in queued || |p.path| >= b.maxDepth
  }

  /** The search is breadth-first while the first `n` entries are processed: paths are shortest, their
      lengths never fall along the worklist and exceed that of the next entry by at most one. */
  ghost predicate Breadth(arcs: set<(Entity, Entity)>, root: Entity, b: Bounds, pending: seq<Pending>,
                          queued: set<Entity>, n: nat)
  {
    && n <= |pending|
    && (forall i, j :: 0 <= i < j < |pending| ==> |pending[i].path| <= |pending[j].path|)
    && (n < |pending| ==> forall j :: 0 <= j < |pending| ==> |pending[j].path| <= |pending[n].path| + 1)
    && (forall j :: 0 <= j < |pending| ==> Shortest(arcs, root, pending[j]))
    && (forall i :: 0 <= i < n ==> Spread(arcs, b, queued, pending[i]))
  }

  /** Nothing was cut and no parent was kept out by the node bound. */
  ghost predicate Unhindered(b: Bounds, s: Search) {
    !s.cut && |s.pending| < b.maxNodes
  }

  /** What the search keeps, with `n` worklist entries processed. */
  ghost predicate Searching(arcs: set<(Entity, Entity)>, root: Entity, b: Bounds, s: Search, n: nat) {
    && Frontier(arcs, root, s.pending, s.queued)
    && |s.pending| <= b.maxNodes && s.evidence <= b.maxEvidence && s.consumed <= b.maxBytes
    && (forall i :: 0 <= i < |s.pending| ==> |s.pending[i].path| <= b.maxDepth)
    && (forall i :: 0 <= i < |s.edges| ==> EdgeKnown(arcs, root, s.edges[i].claim))
    && Explained(arcs, root, b, s)
    && (Unhindered(b, s) ==> Breadth(arcs, root, b, s.pending, s.queued, n))
  }

  /** A claimed parent is queued, or the search is truncated and a bound kept this parent out: the node
      bound, or the depth bound, beyond which every walk to it leads unless a reading was cut. */
  ghost predicate Placed(arcs: set<(Entity, Entity)>, root: Entity, b: Bounds, s: Search, x: Entity) {
    x in s.queued || (s.truncated && (|s.pending| >= b.maxNodes || KeptOut(arcs, root, b, s.cut, x)))
  }

  ghost predicate KeptOut(arcs: set<(Entity, Entity)>, root: Entity, b: Bounds, cut: bool, x: Entity) {
    LongPath(arcs, root, x, b.maxDepth) && (cut || Far(arcs, root, x, b.maxDepth))
  }

  /** The search went on from `s` to `t`. */
  ghost predicate Later(s: Search, t: Search) {
    s.pending <= t.pending && s.queued <= t.queued && (s.truncated ==> t.truncated) && (s.cut ==> t.cut)
  }

  lemma PlacedStays(arcs: set<(Entity, Entity)>, root: Entity, b: Bounds, s: Search, t: Search, x: Entity)
    requires Placed(arcs, root, b, s, x) && Later(s, t)
    ensures Placed(arcs, root, b, t, x)
  {
  }

  lemma {:induction false} NamedBy(pending: seq<Pending>, x: Entity) returns (i: nat)
    requires x in Names(pending)
    ensures i < |pending| && pending[i].entity == x
  {
    if pending[|pending| - 1].entity == x {
      i := |pending| - 1;
    } else {
      i := NamedBy(pending[..|pending| - 1], x);
    }
  }

  lemma {:induction false} NamesSize(pending: seq<Pending>)
    ensures |Names(pending)| <= |pending|
  {
    if pending != [] { NamesSize(pending[..|pending| - 1]); }
  }

  /** Entities queued once each: the next one is not among those before it. */
  lemma {:induction false} DistinctNames(pending: seq<Pending>, k: nat)
    requires k < |pending| && |Names(pending)| == |pending|
    ensures pending[k].entity !in Names(pending[..k])
    ensures Names(pending[..k + 1]) == Names(pending[..k]) + {pending[k].entity}
  {
    var last := |pending| - 1;
    NamesSize(pending[..last]);
    if k == last {
      assert pending[..k + 1] == pending;
    } else {
      DistinctNames(pending[..last], k);
      assert pending[..last][..k] == pending[..k] && pending[..last][..k + 1] == pending[..k + 1];
    }
  }

  lemma FrontierConnects(arcs: set<(Entity, Entity)>, root: Entity, pending: seq<Pending>, queued: set<Entity>,
                         x: Entity)
    requires Frontier(arcs, root, pending, queued) && x in queued
    ensures Connects(arcs, root, x)
  {
    var i := NamedBy(pending, x);
    assert PathKnown(arcs, root, queued, pending[i]);
  }

  lemma FrontierGrows(arcs: set<(Entity, Entity)>, root: Entity, pending: seq<Pending>, queued: set<Entity>, p: Pending)
    requires Frontier(arcs, root, pending, queued) && p.entity !in queued
    requires WalkBetween(arcs, p.path, root, p.entity) && NoRepeats(p.path)
    requires forall x :: x in p.path ==> x in queued || x == p.entity
    ensures Frontier(arcs, root, pending + [p], queued + {p.entity})
  {
    var more, all := pending + [p], queued + {p.entity};
    assert more[..|pending|] == pending;
    forall i | 0 <= i < |more| ensures PathKnown(arcs, root, all, more[i]) {
      if i < |pending| { assert PathKnown(arcs, root, queued, pending[i]); }
    }
  }

  lemma TooMany(arcs: set<(Entity, Entity)>, root: Entity, pending: seq<Pending>, queued: set<Entity>, x: Entity)
    requires Frontier(arcs, root, pending, queued) && x !in queued && Connects(arcs, root, x)
    ensures ManyReachable(arcs, root, |pending|)
  {
    var many := queued + {x};
    forall y | y in many ensures Connects(arcs, root, y) {
      if y != x { FrontierConnects(arcs, root, pending, queued, y); }
    }
    assert |many| > |pending|;
  }

  /** A claimed parent is queued once, unless a depth or node bound forbids it. */
  function Enqueue(s: Search, current: Pending, parent: Entity, b: Bounds): Search {
    if parent in s.queued then s
    else if |current.path| < b.maxDepth && |s.pending| < b.maxNodes then
      s.(queued := s.queued + {parent}, pending := s.pending + [Pending(parent, current.path + [parent])])
    else s.(truncated := true)
  }

  /** Breadth-first order: an entity with a walk no longer than the path of the entry being processed
      is already queued. */
  lemma {:induction false} NearIsQueued(arcs: set<(Entity, Entity)>, root: Entity, b: Bounds, pending: seq<Pending>,
                                        queued: set<Entity>, n: nat, q: seq<Entity>)
    requires Frontier(arcs, root, pending, queued) && Breadth(arcs, root, b, pending, queued, n) && n < |pending|
    requires Walk(arcs, q) && q[0] == root && |q| <= |pending[n].path| <= b.maxDepth
    ensures q[|q| - 1] in queued
    decreases |q|
  {
    if |q| == 1 {
      assert PathKnown(arcs, root, queued, pending[0]);
    } else {
      var shorter, y := q[..|q| - 1], q[|q| - 2];
      forall k: nat | k + 1 < |shorter| ensures Linked(arcs, shorter, k) { assert Linked(arcs, q, k); }
      NearIsQueued(arcs, root, b, pending, queued, n, shorter);
      var i := NamedBy(pending, y);
      assert WalkBetween(arcs, shorter, root, y) && Shortest(arcs, root, pending[i]);
      assert i < n && Spread(arcs, b, queued, pending[i]);
      assert Linked(arcs, q, |q| - 2);
    }
  }

  /** A parent not queued yet is farther from the root than the entry that claims it. */
  lemma NewIsFarther(arcs: set<(Entity, Entity)>, root: Entity, b: Bounds, pending: seq<Pending>,
                     queued: set<Entity>, n: nat, parent: Entity)
    requires Frontier(arcs, root, pending, queued) && Breadth(arcs, root, b, pending, queued, n) && n < |pending|
    requires |pending[n].path| <= b.maxDepth && parent !in queued
    ensures Far(arcs, root, parent, |pending[n].path|)
  {
    hide Frontier, Breadth;
    forall q | WalkBetween(arcs, q, root, parent) ensures |q| > |pending[n].path| {
      if |q| <= |pending[n].path| { NearIsQueued(arcs, root, b, pending, queued, n, q); }
    }
  }

  lemma BreadthGrows(arcs: set<(Entity, Entity)>, root: Entity, b: Bounds, pending: seq<Pending>,
                     queued: set<Entity>, n: nat, p: Pending)
    requires Breadth(arcs, root, b, pending, queued, n) && n < |pending|
    requires |p.path| == |pending[n].path| + 1 && Far(arcs, root, p.entity, |pending[n].path|)
    ensures Breadth(arcs, root, b, pending + [p], queued + {p.entity}, n)
  {
    var more := pending + [p];
    forall j | 0 <= j < |more| ensures Shortest(arcs, root, more[j]) {
      if j < |pending| { assert Shortest(arcs, root, pending[j]); }
    }
    forall i | 0 <= i < n ensures Spread(arcs, b, queued + {p.entity}, more[i]) {
      assert Spread(arcs, b, queued, pending[i]);
    }
  }

  /** The next entry is processed: its claimed parents have their place. */
  lemma BreadthNext(arcs: set<(Entity, Entity)>, root: Entity, b: Bounds, pending: seq<Pending>,
                    queued: set<Entity>, n: nat)
    requires Breadth(arcs, root, b, pending, queued, n) && n < |pending| && Spread(arcs, b, queued, pending[n])
    ensures Breadth(arcs, root, b, pending, queued, n + 1)
  {
    hide Spread, Shortest;
  }

  lemma EnqueueKeeps(arcs: set<(Entity, Entity)>, root: Entity, b: Bounds, s: Search, n: nat, parent: Entity)
    requires Searching(arcs, root, b, s, n) && n < |s.pending| && (s.pending[n].entity, parent) in arcs
    ensures var t := Enqueue(s, s.pending[n], parent, b);
      Searching(arcs, root, b, t, n) && Later(s, t) && Placed(arcs, root, b, t, parent)
  {
    hide Frontier, Breadth, NoRepeats;
    var current := s.pending[n];
    EntryKnown(arcs, root, s.pending, s.queued, n);
    if parent !in s.queued {
      var path := current.path + [parent];
      StepWalk(arcs, current.path, root, current.entity, parent);
      LongerPath(current.path, parent);
      assert Connects(arcs, root, parent);
      if Unhindered(b, s) { NewIsFarther(arcs, root, b, s.pending, s.queued, n, parent); }
      if |s.pending| >= b.maxNodes {
        TooMany(arcs, root, s.pending, s.queued, parent);
      } else if |current.path| < b.maxDepth {
        FrontierGrows(arcs, root, s.pending, s.queued, Pending(parent, path));
        if Unhindered(b, s) { BreadthGrows(arcs, root, b, s.pending, s.queued, n, Pending(parent, path)); }
      } else {
        assert LongPath(arcs, root, parent, b.maxDepth);
      }
    }
  }

  lemma LongerPath(path: seq<Entity>, x: Entity)
    ensures NoRepeats(path) && x !in path ==> NoRepeats(path + [x])
  {
  }

  // ----- What a reading costs -----

  ghost function Larger(a: nat, b: nat): nat {
    if a < b then b else a
  }

  /** What one evidence row is charged: the copied original, its evidence entry and its edge under
      the longer of the two cycle marks, and the separators. */
  ghost function RowCharge(r: Archived, sizes: Sizes): nat {
    var claim := ClaimOf(r.fact);
    var edge := if claim == [] then 0
      else Larger(sizes.edge(Edge(claim[0], true)), sizes.edge(Edge(claim[0], false)));
    r.bytes + sizes.evidence(r) + edge + 2
  }

  ghost function RowsCharge(archive: seq<Archived>, sizes: Sizes, rows: seq<nat>): nat
    requires Within(archive, rows)
  {
    if rows == [] then 0 else
      RowsCharge(archive, sizes, rows[..|rows| - 1]) + RowCharge(archive[rows[|rows| - 1]], sizes)
  }

  /** How many evidence rows the nodes list. */
  ghost function Count(nodes: seq<Node>): nat {
    if nodes == [] then 0 else Count(nodes[..|nodes| - 1]) + |nodes[|nodes| - 1].evidence|
  }

  ghost predicate AllWithin(archive: seq<Archived>, nodes: seq<Node>) {
    forall i :: 0 <= i < |nodes| ==> Within(archive, nodes[i].evidence)
  }

  /** What an answer with these nodes is charged: the empty answer, the rows and the nodes. */
  ghost function Cost(archive: seq<Archived>, sizes: Sizes, nodes: seq<Node>): nat
    requires AllWithin(archive, nodes)
  {
    if nodes == [] then sizes.base else
      var last := nodes[|nodes| - 1];
      Cost(archive, sizes, nodes[..|nodes| - 1]) + RowsCharge(archive, sizes, last.evidence) + sizes.node(last)
  }

  lemma RowsStep(archive: seq<Archived>, sizes: Sizes, rows: seq<nat>, row: nat)
    requires Within(archive, rows) && row < |archive|
    ensures Within(archive, rows + [row])
    ensures RowsCharge(archive, sizes, rows + [row]) ==
      RowsCharge(archive, sizes, rows) + RowCharge(archive[row], sizes)
  {
    assert (rows + [row])[..|rows|] == rows;
  }

  lemma NodesStep(archive: seq<Archived>, sizes: Sizes, nodes: seq<Node>, n: Node)
    requires AllWithin(archive, nodes) && Within(archive, n.evidence)
    ensures AllWithin(archive, nodes + [n]) && Count(nodes + [n]) == Count(nodes) + |n.evidence|
    ensures Cost(archive, sizes, nodes + [n]) ==
      Cost(archive, sizes, nodes) + RowsCharge(archive, sizes, n.evidence) + sizes.node(n)
  {
    assert (nodes + [n])[..|nodes|] == nodes;
  }

  ghost predicate Rising(rows: seq<nat>) {
    forall i, j :: 0 <= i < j < |rows| ==> rows[i] < rows[j]
  }

  /** Something a query may read: different reachable entities, each with some of its evidence rows,
      each row once, and the summary those rows give. */
  ghost predicate IsReading(archive: seq<Archived>, index: Index, root: Entity, nodes: seq<Node>) {
    && (forall i :: 0 <= i < |nodes| ==> Readable(archive, index, root, nodes[i]))
    && (forall i, j :: 0 <= i < j < |nodes| ==> nodes[i].entity != nodes[j].entity)
  }

  ghost predicate Readable(archive: seq<Archived>, index: Index, root: Entity, n: Node) {
    Summarized(archive, n) && Rising(n.evidence) && Connects(Seen(archive, index), root, n.entity)
  }

  lemma ReadingGrows(archive: seq<Archived>, index: Index, root: Entity, nodes: seq<Node>, n: Node)
    requires IsReading(archive, index, root, nodes) && Readable(archive, index, root, n)
    requires forall i :: 0 <= i < |nodes| ==> nodes[i].entity != n.entity
    ensures IsReading(archive, index, root, nodes + [n])
  {
  }

  ghost predicate Exceeds(archive: seq<Archived>, b: Bounds, sizes: Sizes, nodes: seq<Node>) {
    AllWithin(archive, nodes) && (Count(nodes) >= b.maxEvidence || Cost(archive, sizes, nodes) > b.maxBytes)
  }

  /** The reachable evidence is too much for the bounds: some reading of it exhausts one. */
  ghost predicate Heavy(archive: seq<Archived>, index: Index, root: Entity, b: Bounds, sizes: Sizes) {
    exists nodes :: IsReading(archive, index, root, nodes) && Exceeds(archive, b, sizes, nodes)
  }

  /** The evidence of an entity was not read to its end, after so many rows and bytes: the evidence
      bound is reached, or the next row does not fit. */
  ghost predicate Stopped(archive: seq<Archived>, index: Index, b: Bounds, sizes: Sizes, e: Entity, rows: seq<nat>,
                          count: nat, cost: nat)
  {
    var all := Matching(archive, index, e);
    && |rows| < |all| && rows == all[..|rows|] && Within(archive, rows)
    && (|| count + |rows| >= b.maxEvidence
        || (IsEvidence(archive[all[|rows|]].fact, e)
            && cost + RowsCharge(archive, sizes, rows) + RowCharge(archive[all[|rows|]], sizes) > b.maxBytes))
  }

  ghost predicate StoppedAfter(archive: seq<Archived>, index: Index, b: Bounds, sizes: Sizes, before: seq<Node>,
                               n: Node) {
    && AllWithin(archive, before)
    && Stopped(archive, index, b, sizes, n.entity, n.evidence, Count(before), Cost(archive, sizes, before))
  }

  /** A node lists all its indexed evidence, or says it does not and a bound stopped it there. */
  ghost predicate Done(archive: seq<Archived>, index: Index, b: Bounds, sizes: Sizes, before: seq<Node>, n: Node) {
    && (n.readComplete ==> n.evidence == Matching(archive, index, n.entity))
    && (!n.readComplete ==> StoppedAfter(archive, index, b, sizes, before, n))
  }

  ghost predicate AllDone(archive: seq<Archived>, index: Index, b: Bounds, sizes: Sizes, nodes: seq<Node>) {
    forall i :: 0 <= i < |nodes| ==> Done(archive, index, b, sizes, nodes[..i], nodes[i])
  }

  lemma DoneGrows(archive: seq<Archived>, index: Index, b: Bounds, sizes: Sizes, nodes: seq<Node>, n: Node)
    requires AllDone(archive, index, b, sizes, nodes) && Done(archive, index, b, sizes, nodes, n)
    ensures AllDone(archive, index, b, sizes, nodes + [n])
  {
    hide Done;
    var more := nodes + [n];
    forall i | 0 <= i < |more| ensures Done(archive, index, b, sizes, more[..i], more[i]) {
      if i < |nodes| {
        assert more[..i] == nodes[..i];
      } else {
        assert more[..i] == nodes;
      }
    }
  }

  lemma {:induction false} MatchingRises(archive: seq<Archived>, index: Index, e: Entity)
    ensures Rising(Matching(archive, index, e))
  {
    if archive != [] { MatchingRises(archive[..|archive| - 1], index, e); }
  }

  /** The node some rows of an entity give. */
  ghost function Sample(archive: seq<Archived>, e: Entity, rows: seq<nat>): (n: Node)
    requires forall k :: 0 <= k < |rows| ==> rows[k] < |archive| && IsEvidence(archive[rows[k]].fact, e)
    ensures n.entity == e && n.evidence == rows && Summarized(archive, n)
  {
    Node(e, rows, (exists k :: 0 <= k < |rows| && SaysBirth(archive[rows[k]].fact)),
         (exists k :: 0 <= k < |rows| && SaysStop(archive[rows[k]].fact)), |ReportedParents(archive, rows)| > 1, true)
  }

  /** A reading that was stopped by a bound shows that the evidence is too much for the bounds. */
  lemma StoppedIsHeavy(archive: seq<Archived>, index: Index, root: Entity, b: Bounds, sizes: Sizes, nodes: seq<Node>,
                       e: Entity, rows: seq<nat>, cost: nat)
    requires IsReading(archive, index, root, nodes) && AllWithin(archive, nodes) && cost <= Cost(archive, sizes, nodes)
    requires Connects(Seen(archive, index), root, e) && forall i :: 0 <= i < |nodes| ==> nodes[i].entity != e
    requires forall k :: 0 <= k < |rows| ==> rows[k] < |archive| && IsEvidence(archive[rows[k]].fact, e)
    requires Stopped(archive, index, b, sizes, e, rows, Count(nodes), cost)
    ensures Heavy(archive, index, root, b, sizes)
  {
    hide Cost, Count, RowsCharge, RowCharge, Matching, Summarized, Seen;
    var all := Matching(archive, index, e);
    MatchingRises(archive, index, e);
    var next := all[|rows|];
    var more := if Count(nodes) + |rows| >= b.maxEvidence then rows else rows + [next];
    assert all[..|rows| + 1] == rows + [next];
    var n := Sample(archive, e, more);
    RowsStep(archive, sizes, rows, next);
    NodesStep(archive, sizes, nodes, n);
    ReadingGrows(archive, index, root, nodes, n);
    assert Exceeds(archive, b, sizes, nodes + [n]);
  }

  // ----- Reading one entity's evidence -----

  /** Everything the rows claim has been recorded as edges, and every claimed parent has its place. */
  ghost predicate Recorded(archive: seq<Archived>, index: Index, root: Entity, b: Bounds, rows: seq<nat>,
                           before: seq<Edge>,
                           s: Search)
    requires Within(archive, rows)
  {
    && Bare(s.edges) == Bare(before) + ClaimsAt(archive, rows)
    && ParentsPlaced(archive, index, root, b, rows, s)
  }

  ghost predicate ParentsPlaced(archive: seq<Archived>, index: Index, root: Entity, b: Bounds, rows: seq<nat>,
                                s: Search)
    requires Within(archive, rows)
  {
    forall c :: c in ClaimsAt(archive, rows) ==> Placed(Seen(archive, index), root, b, s, c.parent)
  }

  lemma ParentsStayPlaced(archive: seq<Archived>, index: Index, root: Entity, b: Bounds, rows: seq<nat>, s: Search,
                          t: Search)
    requires Within(archive, rows) && ParentsPlaced(archive, index, root, b, rows, s) && Later(s, t)
    ensures ParentsPlaced(archive, index, root, b, rows, t)
  {
    hide Placed, Seen, ClaimsAt;
    forall c | c in ClaimsAt(archive, rows) ensures Placed(Seen(archive, index), root, b, t, c.parent) {
      PlacedStays(Seen(archive, index), root, b, s, t, c.parent);
    }
  }

  lemma PrefixStep<T>(s: seq<T>, k: nat)
    requires k < |s|
    ensures s[..k + 1] == s[..k] + [s[k]]
  {
  }

  lemma BareAppend(edges: seq<Edge>, more: seq<Edge>)
    ensures Bare(edges + more) == Bare(edges) + Bare(more)
  {
  }

  lemma SeenByRow(archive: seq<Archived>, index: Index, r: nat, child: Entity, parent: Entity)
    requires r < |archive| && r in index && index[r].entity == Sha256(child)
    requires IsEvidence(archive[r].fact, child) && archive[r].fact.parent == Some(parent)
    ensures (child, parent) in Seen(archive, index)
  {
    var c := Claim(child, parent, archive[r].fact.recordId);
    assert ClaimOf(archive[r].fact) == [c];
    assert r in index && c in ClaimOf(archive[r].fact);
  }

  /** A charged row keeps the search invariant: its edge is a genuine claim. */
  lemma ChargeKeeps(arcs: set<(Entity, Entity)>, root: Entity, b: Bounds, s: Search, n: nat, charge: nat,
                    edges: seq<Edge>)
    requires Searching(arcs, root, b, s, n) && s.evidence < b.maxEvidence && charge <= b.maxBytes - s.consumed
    requires forall i :: 0 <= i < |edges| ==> EdgeKnown(arcs, root, edges[i].claim)
    ensures Searching(arcs, root, b,
              s.(consumed := s.consumed + charge, evidence := s.evidence + 1, edges := s.edges + edges), n)
  {
  }

  /** Stopping for the evidence or the byte bound keeps the search invariant. */
  lemma CutKeeps(arcs: set<(Entity, Entity)>, root: Entity, b: Bounds, s: Search, n: nat)
    requires Searching(arcs, root, b, s, n)
    ensures s.evidence <= b.maxEvidence && s.consumed <= b.maxBytes
    ensures var t := s.(truncated := true, cut := true); Searching(arcs, root, b, t, n) && Later(s, t)
  {
  }

  lemma NothingRecorded(archive: seq<Archived>, index: Index, root: Entity, b: Bounds, s: Search)
    ensures Recorded(archive, index, root, b, [], s.edges, s)
  {
  }

  lemma RecordedGrows(archive: seq<Archived>, index: Index, root: Entity, b: Bounds, done: seq<nat>, row: nat,
                      before: seq<Edge>,
                      s: Search, edges: seq<Edge>, t: Search)
    requires Within(archive, done) && row < |archive|
    requires Recorded(archive, index, root, b, done, before, s) && Bare(edges) == ClaimOf(archive[row].fact)
    requires t.edges == s.edges + edges && Later(s, t)
    requires forall c :: c in ClaimOf(archive[row].fact) ==> Placed(Seen(archive, index), root, b, t, c.parent)
    ensures Recorded(archive, index, root, b, done + [row], before, t)
  {
    hide Placed, Seen, Later;
    assert (done + [row])[..|done|] == done;
    BareAppend(s.edges, edges);
    ParentsStayPlaced(archive, index, root, b, done, s, t);
  }

  /** The search after a row of `current` with this edge has been charged. */
  function Charge(s: Search, charge: nat, current: Pending, edge: seq<Edge>, b: Bounds): Search
    requires |edge| <= 1
  {
    var t := s.(consumed := s.consumed + charge, evidence := s.evidence + 1, edges := s.edges + edge);
    if edge == [] || edge[0].cycle then t else Enqueue(t, current, edge[0].claim.parent, b)
  }

  lemma ChargeSearching(arcs: set<(Entity, Entity)>, root: Entity, b: Bounds, s: Search, n: nat, charge: nat,
                        edge: seq<Edge>)
    requires Searching(arcs, root, b, s, n) && n < |s.pending|
    requires s.evidence < b.maxEvidence && charge <= b.maxBytes - s.consumed && |edge| <= 1
    requires edge != [] ==> edge[0].claim.child == s.pending[n].entity
    requires edge != [] ==> (s.pending[n].entity, edge[0].claim.parent) in arcs
    requires edge != [] && edge[0].cycle ==> edge[0].claim.parent in s.pending[n].path
    ensures var t := Charge(s, charge, s.pending[n], edge, b);
      && Searching(arcs, root, b, t, n) && Later(s, t) && t.cut == s.cut
      && t.evidence == s.evidence + 1 && t.consumed == s.consumed + charge && t.edges == s.edges + edge
      && (edge != [] ==> Placed(arcs, root, b, t, edge[0].claim.parent))
  {
    hide Frontier, Explained, Breadth;
    var t := s.(consumed := s.consumed + charge, evidence := s.evidence + 1, edges := s.edges + edge);
    EntryKnown(arcs, root, s.pending, s.queued, n);
    assert forall i :: 0 <= i < |edge| ==> EdgeKnown(arcs, root, edge[i].claim);
    ChargeKeeps(arcs, root, b, s, n, charge, edge);
    if edge != [] && !edge[0].cycle {
      EnqueueKeeps(arcs, root, b, t, n, edge[0].claim.parent);
    }
  }

  /** One evidence row that passed the identity check: it is charged, recorded as an edge and
      its parent queued, or the reading is cut because the row does not fit. */
  method TakeRow(archive: seq<Archived>, ghost index: Index, ghost root: Entity, ghost n: nat, current: Pending,
                 row: nat, ghost done: seq<nat>, b: Bounds, sizes: Sizes, ghost before: seq<Edge>, s0: Search)
    returns (fits: bool, s: Search)
    requires row < |archive| && IsEvidence(archive[row].fact, current.entity) && Within(archive, done)
    requires row in index && index[row].entity == Sha256(current.entity)
    requires Searching(Seen(archive, index), root, b, s0, n) && n < |s0.pending| && s0.pending[n] == current
    requires s0.evidence < b.maxEvidence && Recorded(archive, index, root, b, done, before, s0)
    ensures Searching(Seen(archive, index), root, b, s, n) && Later(s0, s)
    ensures fits ==> Recorded(archive, index, root, b, done + [row], before, s)
    ensures fits ==> s.evidence == s0.evidence + 1 && s.cut == s0.cut
    ensures fits ==> s.consumed <= s0.consumed + RowCharge(archive[row], sizes)
    ensures !fits ==> s == s0.(truncated := true, cut := true)
    ensures !fits ==> s0.consumed + RowCharge(archive[row], sizes) > b.maxBytes
  {
    hide Searching, Recorded, Seen, PathKnown, Placed;
    var fact := archive[row].fact;
    var edge := if fact.parent.None? then []
      else [Edge(Claim(current.entity, fact.parent.value, fact.recordId), fact.parent.value in current.path)];
    var edgeSize := if edge == [] then 0 else sizes.edge(edge[0]);
    var cost := archive[row].bytes + sizes.evidence(archive[row]) + edgeSize + 2;
    assert Bare(edge) == ClaimOf(fact) && cost <= RowCharge(archive[row], sizes);
    CutKeeps(Seen(archive, index), root, b, s0, n);
    if cost > Minus(b.maxBytes, s0.consumed) {
      return false, s0.(truncated := true, cut := true);
    }
    if fact.parent.Some? { SeenByRow(archive, index, row, current.entity, fact.parent.value); }
    s := Charge(s0, cost, current, edge, b);
    ChargeSearching(Seen(archive, index), root, b, s0, n, cost, edge);
    RecordedGrows(archive, index, root, b, done, row, before, s0, edge, s);
    return true, s;
  }

  ghost predicate SaysStop(f: Fact) {
    f.Interpreted? && f.stop
  }

  ghost predicate SaysBirth(f: Fact) {
    f.Interpreted? && !f.stop
  }

  /** The distinct parent identities the rows report. */
  ghost function ReportedParents(archive: seq<Archived>, rows: seq<nat>): set<string>
    requires Within(archive, rows)
  {
    set k | 0 <= k < |rows| && archive[rows[k]].fact.Interpreted? && archive[rows[k]].fact.parentIdentity.Some?
      :: archive[rows[k]].fact.parentIdentity.value
  }

  /** A node's summary follows from the evidence it lists, and from nothing else. */
  ghost predicate Summarized(archive: seq<Archived>, n: Node) {
    && Within(archive, n.evidence)
    && (forall k :: 0 <= k < |n.evidence| ==> IsEvidence(archive[n.evidence[k]].fact, n.entity))
    && (n.birthObserved <==> exists k :: 0 <= k < |n.evidence| && SaysBirth(archive[n.evidence[k]].fact))
    && (n.stopObserved <==> exists k :: 0 <= k < |n.evidence| && SaysStop(archive[n.evidence[k]].fact))
    && (n.claimsConflict <==> |ReportedParents(archive, n.evidence)| > 1)
  }

  /** The summary of an entity while its evidence is being read. */
  datatype Summary = Summary(evidence: seq<nat>, birth: bool, stopped: bool, parents: set<string>) {
    function Add(row: nat, f: Fact): Summary
      requires f.Interpreted?
    {
      Summary(evidence + [row], birth || !f.stop, stopped || f.stop,
              if f.parentIdentity.Some? then parents + {f.parentIdentity.value} else parents)
    }

    function Close(e: Entity, complete: bool): Node {
      Node(e, evidence, birth, stopped, |parents| > 1, complete)
    }
  }

  ghost predicate Accurate(archive: seq<Archived>, e: Entity, m: Summary) {
    Summarized(archive, m.Close(e, true)) && m.parents == ReportedParents(archive, m.evidence)
  }

  lemma AddAccurate(archive: seq<Archived>, e: Entity, m: Summary, row: nat)
    requires Accurate(archive, e, m) && row < |archive| && IsEvidence(archive[row].fact, e)
    ensures Accurate(archive, e, m.Add(row, archive[row].fact))
  {
    hide ReportedParents;
    var t := m.Add(row, archive[row].fact);
    assert forall k :: 0 <= k < |m.evidence| ==> t.evidence[k] == m.evidence[k];
    assert t.evidence[|m.evidence|] == row;
    AddReported(archive, m.evidence, row);
  }

  lemma AddReported(archive: seq<Archived>, rows: seq<nat>, row: nat)
    requires Within(archive, rows) && row < |archive| && archive[row].fact.Interpreted?
    ensures Within(archive, rows + [row])
    ensures var p := archive[row].fact.parentIdentity;
      ReportedParents(archive, rows + [row]) == ReportedParents(archive, rows) + if p.Some? then {p.value} else {}
  {
    var more := rows + [row];
    assert forall k :: 0 <= k < |rows| ==> more[k] == rows[k];
    assert more[|rows|] == row;
  }

  /** The node for the evidence that was read. */
  method Summarize(archive: seq<Archived>, e: Entity, evidence: seq<nat>, complete: bool) returns (node: Node)
    requires forall k :: 0 <= k < |evidence| ==> evidence[k] < |archive| && IsEvidence(archive[evidence[k]].fact, e)
    ensures node.entity == e && node.evidence == evidence && node.readComplete == complete && Summarized(archive, node)
  {
    var m := Summary([], false, false, {});
    for k := 0 to |evidence|
      invariant m.evidence == evidence[..k] && Accurate(archive, e, m)
    {
      PrefixStep(evidence, k);
      AddAccurate(archive, e, m, evidence[k]);
      m := m.Add(evidence[k], archive[evidence[k]].fact);
    }
    assert evidence[..|evidence|] == evidence;
    node := m.Close(e, complete);
  }

  /** Reads the evidence rows of one entity. A row that the index attributes to the entity but
      whose own record does not confirm it refuses the whole query. Every row is read in order
      until a bound stops the reading; every claim read becomes an edge and its parent is placed. */
  method ReadEvidence(archive: seq<Archived>, index: Index, ghost root: Entity, ghost n: nat, current: Pending,
                      b: Bounds, sizes: Sizes, s0: Search)
    returns (confirmed: bool, evidence: seq<nat>, complete: bool, s: Search)
    requires Searching(Seen(archive, index), root, b, s0, n) && n < |s0.pending| && s0.pending[n] == current
    ensures IndexSound(archive, index) ==> confirmed
    ensures Searching(Seen(archive, index), root, b, s, n) && Later(s0, s)
    ensures forall j :: 0 <= j < |evidence| ==>
      evidence[j] < |archive| && IsEvidence(archive[evidence[j]].fact, current.entity)
    ensures Recorded(archive, index, root, b, evidence, s0.edges, s) && s.evidence == s0.evidence + |evidence|
    ensures s.consumed <= s0.consumed + RowsCharge(archive, sizes, evidence)
    ensures confirmed && complete ==> evidence == Matching(archive, index, current.entity) && s.cut == s0.cut
    ensures confirmed && !complete ==> s.cut
    ensures confirmed && !complete ==>
      Stopped(archive, index, b, sizes, current.entity, evidence, s0.evidence, s0.consumed)
  {
    hide Searching, Recorded, Seen, Matching, PathKnown, RowCharge, RowsCharge, Stopped, IndexSound, DigestOf;
    CutKeeps(Seen(archive, index), root, b, s0, n);
    NoRowsCharge(archive, sizes);
    NothingRecorded(archive, index, root, b, s0);
    ghost var arcs := Seen(archive, index);
    var all := Matching(archive, index, current.entity);
    var limit := Minus(b.maxEvidence, s0.evidence) + 1;
    var rows := if limit < |all| then all[..limit] else all;
    s := s0;
    evidence, complete := [], true;
    var k := 0;
    while k < |rows|
      invariant 0 <= k <= |rows| && s.evidence == s0.evidence + k <= b.maxEvidence && complete && s.cut == s0.cut
      invariant Searching(arcs, root, b, s, n) && Later(s0, s)
      invariant evidence == rows[..k]
      invariant forall j :: 0 <= j < k ==>
        evidence[j] < |archive| && IsEvidence(archive[evidence[j]].fact, current.entity)
      invariant Recorded(archive, index, root, b, evidence, s0.edges, s)
      invariant s.consumed <= s0.consumed + RowsCharge(archive, sizes, evidence)
    {
      var row := rows[k];
      assert row == all[k] && evidence == all[..k];
      PrefixStep(rows, k);
      StopsHere(archive, index, b, sizes, current.entity, k, s0.evidence, s0.consumed);
      if s.evidence >= b.maxEvidence {
        CutKeeps(arcs, root, b, s, n);
        CutRecorded(archive, index, root, b, evidence, s0.edges, s);
        return true, evidence, false, s.(truncated := true, cut := true);
      }
      var fact := archive[row].fact;
      SoundConfirms(archive, index, current.entity, row);
      if !IsEvidence(fact, current.entity) || index[row].parent != DigestOf(fact.parent) {
        return false, evidence, false, s;
      }
      RowsStep(archive, sizes, evidence, row);
      var fits, t := TakeRow(archive, index, root, n, current, row, evidence, b, sizes, s0.edges, s);
      if !fits {
        CutRecorded(archive, index, root, b, evidence, s0.edges, s);
        return true, evidence, false, t;
      }
      s := t;
      evidence := evidence + [row];
      k := k + 1;
    }
    assert rows[..|rows|] == rows;
    return true, evidence, complete, s;
  }

  lemma NoRowsCharge(archive: seq<Archived>, sizes: Sizes)
    ensures RowsCharge(archive, sizes, []) == 0
  {
  }

  /** A sound index row that matches an entity is confirmed by its record. */
  lemma SoundConfirms(archive: seq<Archived>, index: Index, e: Entity, row: nat)
    requires row in index && row < |archive| && index[row].entity == Sha256(e)
    ensures IndexSound(archive, index) ==>
      IsEvidence(archive[row].fact, e) && index[row].parent == DigestOf(archive[row].fact.parent)
  {
  }

  lemma StopsHere(archive: seq<Archived>, index: Index, b: Bounds, sizes: Sizes, e: Entity, k: nat, count: nat,
                  cost: nat)
    requires k < |Matching(archive, index, e)| && Within(archive, Matching(archive, index, e)[..k])
    ensures var all := Matching(archive, index, e);
      (|| count + k >= b.maxEvidence
       || (IsEvidence(archive[all[k]].fact, e)
           && cost + RowsCharge(archive, sizes, all[..k]) + RowCharge(archive[all[k]], sizes) > b.maxBytes)) ==>
      Stopped(archive, index, b, sizes, e, all[..k], count, cost)
  {
    hide Matching, RowsCharge, RowCharge;
    assert Matching(archive, index, e)[..k] == Matching(archive, index, e)[..|Matching(archive, index, e)[..k]|];
  }

  lemma CutRecorded(archive: seq<Archived>, index: Index, root: Entity, b: Bounds, rows: seq<nat>, before: seq<Edge>,
                    s: Search)
    requires Within(archive, rows) && Recorded(archive, index, root, b, rows, before, s)
    ensures Recorded(archive, index, root, b, rows, before, s.(truncated := true, cut := true))
  {
    ParentsStayPlaced(archive, index, root, b, rows, s, s.(truncated := true, cut := true));
  }

  // ----- The whole traversal -----

  /** The nodes read so far against the worklist they were read from. */
  ghost predicate Covered(archive: seq<Archived>, index: Index, root: Entity, b: Bounds, s: Search, nodes: seq<Node>) {
    && |nodes| <= |s.pending| && AllWithin(archive, nodes)
    && (forall i :: 0 <= i < |nodes| ==> nodes[i].entity == s.pending[i].entity)
    && (forall i :: 0 <= i < |nodes| ==> ParentsPlaced(archive, index, root, b, nodes[i].evidence, s))
    && (forall i :: 0 <= i < |nodes| ==> nodes[i].readComplete || s.cut)
    && Bare(s.edges) == ClaimsRead(archive, nodes)
  }

  ghost function ClaimsRead(archive: seq<Archived>, nodes: seq<Node>): seq<Claim>
    requires AllWithin(archive, nodes)
  {
    if nodes == [] then [] else
      ClaimsRead(archive, nodes[..|nodes| - 1]) + ClaimsAt(archive, nodes[|nodes| - 1].evidence)
  }

  lemma CoveredGrows(archive: seq<Archived>, index: Index, root: Entity, b: Bounds, s: Search, nodes: seq<Node>,
                     node: Node,
                     t: Search)
    requires Covered(archive, index, root, b, s, nodes) && |nodes| < |s.pending| && Later(s, t)
    requires node.entity == s.pending[|nodes|].entity && Within(archive, node.evidence) && (node.readComplete || t.cut)
    requires Recorded(archive, index, root, b, node.evidence, s.edges, t)
    ensures Covered(archive, index, root, b, t, nodes + [node])
  {
    hide Placed, Seen, ClaimsAt, ParentsPlaced;
    var more := nodes + [node];
    assert more[..|nodes|] == nodes;
    forall i | 0 <= i < |more| ensures ParentsPlaced(archive, index, root, b, more[i].evidence, t) {
      if i < |nodes| { ParentsStayPlaced(archive, index, root, b, nodes[i].evidence, s, t); }
    }
  }

  /** A sound index as large as the archive lists exactly the evidence of every entity. */
  lemma IndexTotal(archive: seq<Archived>, index: Index)
    requires IndexSound(archive, index) && |index| == |archive|
    ensures forall i: nat :: i < |archive| ==> i in index
  {
    assert |index.Keys| == |index|;
    AllPresent(index.Keys, |archive|);
  }

  lemma {:induction false} AllPresent(keys: set<nat>, n: nat)
    requires forall k :: k in keys ==> k < n
    ensures |keys| <= n && (|keys| == n ==> forall i: nat :: i < n ==> i in keys)
  {
    if n == 0 {
      assert keys == {};
    } else {
      AllPresent(keys - {n - 1}, n - 1);
    }
  }

  /** The index has a row for every archived record, and each says what its record says. */
  ghost predicate Indexed(archive: seq<Archived>, index: Index) {
    forall i: nat :: i < |archive| ==> i in index && index[i] == IndexRowFor(archive[i].fact)
  }

  lemma {:induction false} MatchingIsEvidence(archive: seq<Archived>, index: Index, e: Entity)
    requires Indexed(archive, index)
    ensures Matching(archive, index, e) == Evidence(archive, e)
  {
    if archive != [] {
      MatchingIsEvidence(archive[..|archive| - 1], index, e);
    }
  }

  ghost predicate ReadInFull(archive: seq<Archived>, index: Index, nodes: seq<Node>) {
    forall i :: 0 <= i < |nodes| ==> nodes[i].evidence == Matching(archive, index, nodes[i].entity)
  }

  lemma {:induction false} ClaimsReadAreAll(archive: seq<Archived>, index: Index, nodes: seq<Node>)
    requires Indexed(archive, index) && AllWithin(archive, nodes) && ReadInFull(archive, index, nodes)
    ensures ClaimsRead(archive, nodes) == ClaimsAbout(archive, Entities(nodes))
  {
    hide Matching, Evidence, ClaimsAt;
    if nodes != [] {
      var last := |nodes| - 1;
      ClaimsReadAreAll(archive, index, nodes[..last]);
      MatchingIsEvidence(archive, index, nodes[last].entity);
      assert Entities(nodes)[..last] == Entities(nodes[..last]);
    }
  }

  /** A claim of a listed row is among the claims of the rows. */
  lemma {:induction false} ClaimListed(archive: seq<Archived>, rows: seq<nat>, r: nat, c: Claim)
    requires Within(archive, rows) && r in rows && c in ClaimOf(archive[r].fact)
    ensures c in ClaimsAt(archive, rows)
  {
    if rows[|rows| - 1] != r { ClaimListed(archive, rows[..|rows| - 1], r, c); }
  }

  /** An indexed claim of an entity is among the claims of the rows the index leads to. */
  lemma SeenIsRead(archive: seq<Archived>, index: Index, x: Entity, y: Entity) returns (c: Claim)
    requires (x, y) in Seen(archive, index)
    ensures c.parent == y && c in ClaimsAt(archive, Matching(archive, index, x))
  {
    hide Matching, ClaimsAt, ClaimOf;
    var i: nat, d: Claim :| i in index && i < |archive| && d in ClaimOf(archive[i].fact)
      && index[i].entity == Sha256(d.child) && (d.child, d.parent) == (x, y);
    MatchingListed(archive, index, x, i);
    ClaimListed(archive, Matching(archive, index, x), i, d);
    c := d;
  }

  lemma {:induction false} MatchingListed(archive: seq<Archived>, index: Index, e: Entity, i: nat)
    requires i < |archive| && i in index && index[i].entity == Sha256(e)
    ensures i in Matching(archive, index, e)
  {
    if i < |archive| - 1 { MatchingListed(archive[..|archive| - 1], index, e, i); }
  }

  /** When everything queued was read without truncation, the queued set is closed under the
      indexed parent claims. */
  lemma QueuedClosed(archive: seq<Archived>, index: Index, root: Entity, b: Bounds, s: Search, nodes: seq<Node>)
    requires ReadInFull(archive, index, nodes) && Covered(archive, index, root, b, s, nodes)
    requires |nodes| == |s.pending| && !s.truncated && s.queued == Names(s.pending)
    ensures Closed(Seen(archive, index), s.queued)
  {
    hide Seen, Matching, ClaimsAt, ClaimsRead;
    forall x, y | (x, y) in Seen(archive, index) && x in s.queued ensures y in s.queued {
      var i := NamedBy(s.pending, x);
      assert nodes[i].entity == x && ParentsPlaced(archive, index, root, b, nodes[i].evidence, s);
      var c := SeenIsRead(archive, index, x, y);
      assert Placed(Seen(archive, index), root, b, s, c.parent);
    }
  }

  /** Over an index of everything, the claims it leads to are all claims. */
  lemma SeenIsClaimed(archive: seq<Archived>, index: Index)
    requires Indexed(archive, index)
    ensures Seen(archive, index) == Claimed(archive)
  {
    forall x, y ensures (x, y) in Seen(archive, index) <==> (x, y) in Claimed(archive) {
      if (x, y) in Claimed(archive) {
        var r, c :| r in archive && c in ClaimOf(r.fact) && (c.child, c.parent) == (x, y);
        var k: nat :| k < |archive| && archive[k] == r;
        assert k in index && c in ClaimOf(archive[k].fact) && index[k].entity == Sha256(c.child);
      }
    }
    SamePairs(Seen(archive, index), Claimed(archive));
  }

  lemma SamePairs(a: set<(Entity, Entity)>, b: set<(Entity, Entity)>)
    requires forall x, y :: (x, y) in a <==> (x, y) in b
    ensures a == b
  {
    forall p ensures p in a <==> p in b { assert p == (p.0, p.1); }
  }

  /** The meaning of a complete answer. */
  ghost predicate Exact(archive: seq<Archived>, root: Entity, nodes: seq<Node>, edges: seq<Edge>) {
    && (forall x :: Connects(Claimed(archive), root, x) <==> x in Entities(nodes))
    && (forall i :: 0 <= i < |nodes| ==> nodes[i].evidence == Evidence(archive, nodes[i].entity))
    && Bare(edges) == ClaimsAbout(archive, Entities(nodes))
  }

  lemma {:induction false} NamesListed(s: seq<Pending>, nodes: seq<Node>, x: Entity)
    requires |nodes| == |s| && forall i :: 0 <= i < |nodes| ==> nodes[i].entity == s[i].entity
    ensures x in Names(s) <==> x in Entities(nodes)
  {
    if s != [] {
      var last := |s| - 1;
      NamesListed(s[..last], nodes[..last], x);
      assert Entities(nodes) == Entities(nodes[..last]) + [nodes[last].entity];
    }
  }

  lemma AllRead(archive: seq<Archived>, index: Index, root: Entity, b: Bounds, sizes: Sizes, s: Search,
                nodes: seq<Node>)
    requires Covered(archive, index, root, b, s, nodes) && AllDone(archive, index, b, sizes, nodes) && !s.cut
    ensures ReadInFull(archive, index, nodes)
  {
    forall i | 0 <= i < |nodes| ensures nodes[i].evidence == Matching(archive, index, nodes[i].entity) {
      assert Done(archive, index, b, sizes, nodes[..i], nodes[i]);
    }
  }

  /** Every reachable entity is within the depth bound, and there are no more than the node bound. */
  ghost predicate Compact(arcs: set<(Entity, Entity)>, root: Entity, b: Bounds) {
    !TooDeep(arcs, root, b.maxDepth) && !ManyReachable(arcs, root, b.maxNodes)
  }

  /** A search that queued everything reachable found it within the bounds. */
  lemma QueuedIsCompact(arcs: set<(Entity, Entity)>, root: Entity, b: Bounds, s: Search, n: nat)
    requires Searching(arcs, root, b, s, n) && forall x :: Connects(arcs, root, x) ==> x in s.queued
    ensures Compact(arcs, root, b)
  {
    hide Breadth, Explained;
    forall x | Connects(arcs, root, x) ensures !Far(arcs, root, x, b.maxDepth) {
      var i := NamedBy(s.pending, x);
      EntryKnown(arcs, root, s.pending, s.queued, i);
    }
    forall many: set<Entity> | forall x :: x in many ==> Connects(arcs, root, x) ensures |many| <= b.maxNodes {
      SubsetSize(s.queued, many);
    }
  }

  lemma CompleteIsExact(archive: seq<Archived>, index: Index, root: Entity, b: Bounds, sizes: Sizes, s: Search,
                        nodes: seq<Node>)
    requires IndexSound(archive, index) && |index| == |archive|
    requires Searching(Seen(archive, index), root, b, s, |nodes|) && Covered(archive, index, root, b, s, nodes)
    requires AllDone(archive, index, b, sizes, nodes) && |nodes| == |s.pending| && !s.truncated
    ensures Exact(archive, root, nodes, s.edges) && Compact(Claimed(archive), root, b)
  {
    hide Matching, Evidence, ClaimsAt, ClaimsRead, Claimed, Seen, AllDone, Breadth, Compact;
    var arcs := Claimed(archive);
    IndexTotal(archive, index);
    SeenIsClaimed(archive, index);
    AllRead(archive, index, root, b, sizes, s, nodes);
    QueuedClosed(archive, index, root, b, s, nodes);
    EntryKnown(arcs, root, s.pending, s.queued, 0);
    forall x ensures Connects(arcs, root, x) <==> x in s.queued {
      if x in s.queued { FrontierConnects(arcs, root, s.pending, s.queued, x); }
      if Connects(arcs, root, x) { ClosedReach(arcs, s.queued, root, x); }
    }
    QueuedIsCompact(arcs, root, b, s, |nodes|);
    forall x ensures Connects(arcs, root, x) <==> x in Entities(nodes) { NamesListed(s.pending, nodes, x); }
    forall i | 0 <= i < |nodes| ensures nodes[i].evidence == Evidence(archive, nodes[i].entity) {
      MatchingIsEvidence(archive, index, nodes[i].entity);
    }
    ClaimsReadAreAll(archive, index, nodes);
  }

  ghost function NodeNames(nodes: seq<Node>): set<Entity> {
    if nodes == [] then {} else NodeNames(nodes[..|nodes| - 1]) + {nodes[|nodes| - 1].entity}
  }

  lemma {:induction false} NodesNamePrefix(pending: seq<Pending>, nodes: seq<Node>)
    requires |nodes| <= |pending| && forall i :: 0 <= i < |nodes| ==> nodes[i].entity == pending[i].entity
    ensures NodeNames(nodes) == Names(pending[..|nodes|])
  {
    if nodes != [] {
      var last := |nodes| - 1;
      NodesNamePrefix(pending, nodes[..last]);
      assert pending[..last + 1][..last] == pending[..last];
    }
  }

  lemma {:induction false} NodeNamed(nodes: seq<Node>, i: nat)
    requires i < |nodes|
    ensures nodes[i].entity in NodeNames(nodes)
  {
    if i < |nodes| - 1 { NodeNamed(nodes[..|nodes| - 1], i); }
  }

  /** The next worklist entry has not been read before. */
  lemma NextIsNew(pending: seq<Pending>, nodes: seq<Node>)
    requires |nodes| < |pending| == |Names(pending)|
    requires forall i :: 0 <= i < |nodes| ==> nodes[i].entity == pending[i].entity
    ensures pending[|nodes|].entity !in NodeNames(nodes)
    ensures forall i :: 0 <= i < |nodes| ==> nodes[i].entity != pending[|nodes|].entity
  {
    NodesNamePrefix(pending, nodes);
    DistinctNames(pending, |nodes|);
    forall i | 0 <= i < |nodes| ensures nodes[i].entity != pending[|nodes|].entity { NodeNamed(nodes, i); }
  }

  /** What holds of the search and everything it has read, whether or not the last node fits. */
  ghost predicate Reading(archive: seq<Archived>, index: Index, root: Entity, b: Bounds, sizes: Sizes, s: Search,
                          nodes: seq<Node>) {
    && Searching(Seen(archive, index), root, b, s, |nodes|) && Covered(archive, index, root, b, s, nodes)
    && IsReading(archive, index, root, nodes) && AllDone(archive, index, b, sizes, nodes)
    && s.evidence == Count(nodes) && (s.cut ==> Heavy(archive, index, root, b, sizes))
  }

  /** What was consumed is covered by the charges of what was read, and a cut shows in the nodes. */
  ghost predicate Paid(archive: seq<Archived>, sizes: Sizes, s: Search, nodes: seq<Node>) {
    AllWithin(archive, nodes) && s.consumed <= Cost(archive, sizes, nodes) && (s.cut ==> !AllReadToEnd(nodes))
  }

  ghost predicate AllReadToEnd(nodes: seq<Node>) {
    forall i :: 0 <= i < |nodes| ==> nodes[i].readComplete
  }

  lemma SpendKeeps(archive: seq<Archived>, index: Index, root: Entity, b: Bounds, sizes: Sizes, s: Search,
                   nodes: seq<Node>, spent: nat)
    requires Reading(archive, index, root, b, sizes, s, nodes) && spent <= b.maxBytes - s.consumed
    ensures Reading(archive, index, root, b, sizes, s.(consumed := s.consumed + spent), nodes)
  {
    hide Heavy, AllDone, IsReading, Frontier, Explained, Seen, ClaimsRead, Breadth;
    var t := s.(consumed := s.consumed + spent);
    forall i | 0 <= i < |nodes| ensures ParentsPlaced(archive, index, root, b, nodes[i].evidence, t) {
      ParentsStayPlaced(archive, index, root, b, nodes[i].evidence, s, t);
    }
    assert Explained(Seen(archive, index), root, b, t) by { ExplainedSpends(Seen(archive, index), root, b, s, t); }
  }

  lemma ExplainedSpends(arcs: set<(Entity, Entity)>, root: Entity, b: Bounds, s: Search, t: Search)
    requires Explained(arcs, root, b, s) && t.cut == s.cut && t.truncated == s.truncated
    ensures Explained(arcs, root, b, t)
  {
  }

  /** What reading one entity's evidence says about the node made of it. */
  ghost predicate Fresh(archive: seq<Archived>, index: Index, b: Bounds, sizes: Sizes, s: Search, n: Node, t: Search) {
    && Summarized(archive, n) && Later(s, t) && t.evidence == s.evidence + |n.evidence|
    && (n.readComplete ==> t.cut == s.cut && n.evidence == Matching(archive, index, n.entity))
    && (!n.readComplete ==> t.cut && Stopped(archive, index, b, sizes, n.entity, n.evidence, s.evidence, s.consumed))
  }

  /** A node whose evidence was just read joins the reading. */
  lemma NodeJoins(archive: seq<Archived>, index: Index, root: Entity, b: Bounds, sizes: Sizes, s: Search,
                  nodes: seq<Node>, n: Node, t: Search)
    requires Reading(archive, index, root, b, sizes, s, nodes) && Paid(archive, sizes, s, nodes)
    requires |nodes| < |s.pending|
    requires n.entity == s.pending[|nodes|].entity && Fresh(archive, index, b, sizes, s, n, t)
    requires Searching(Seen(archive, index), root, b, t, |nodes|)
    requires Recorded(archive, index, root, b, n.evidence, s.edges, t)
    ensures Reading(archive, index, root, b, sizes, t, nodes + [n]) && (t.cut ==> !AllReadToEnd(nodes + [n]))
    ensures AllWithin(archive, nodes + [n])
    ensures Cost(archive, sizes, nodes + [n]) ==
      Cost(archive, sizes, nodes) + RowsCharge(archive, sizes, n.evidence) + sizes.node(n)
  {
    hide Seen, Matching, Recorded, Explained, Heavy, Cost, Count, RowsCharge, RowCharge, AllDone, ClaimsRead, Placed,
      ParentsPlaced, IsReading, Stopped, Frontier, Done, Summarized;
    NodeReadable(archive, index, root, b, sizes, s, nodes, n, t);
    EntryProcessed(archive, index, root, b, sizes, s, |nodes|, n, t);
    CutShows(nodes, n, s.cut, t.cut);
    NodesStep(archive, sizes, nodes, n);
    CoveredGrows(archive, index, root, b, s, nodes, n, t);
    NodeDone(archive, index, root, b, sizes, s, nodes, n, t);
    DoneGrows(archive, index, b, sizes, nodes, n);
  }

  lemma CutShows(nodes: seq<Node>, n: Node, before: bool, after: bool)
    requires before ==> !AllReadToEnd(nodes)
    requires n.readComplete ==> after == before
    ensures after ==> !AllReadToEnd(nodes + [n])
  {
    var more := nodes + [n];
    if after && n.readComplete {
      var i :| 0 <= i < |nodes| && !nodes[i].readComplete;
      assert !more[i].readComplete;
    } else {
      assert more[|nodes|] == n;
    }
  }

  /** Reading an entry's evidence to the end processes the entry; a cut ends the claim of breadth. */
  lemma EntryProcessed(archive: seq<Archived>, index: Index, root: Entity, b: Bounds, sizes: Sizes, s: Search, k: nat,
                       n: Node, t: Search)
    requires Searching(Seen(archive, index), root, b, t, k) && k < |s.pending| && n.entity == s.pending[k].entity
    requires Fresh(archive, index, b, sizes, s, n, t) && Recorded(archive, index, root, b, n.evidence, s.edges, t)
    ensures Searching(Seen(archive, index), root, b, t, k + 1)
  {
    hide Seen, Frontier, Breadth, Explained, Matching, ClaimsAt, Stopped, Summarized, Spread;
    if Unhindered(b, t) {
      EntrySpread(archive, index, root, b, t, k, n.evidence);
      BreadthNext(Seen(archive, index), root, b, t.pending, t.queued, k);
    }
  }

  lemma EntrySpread(archive: seq<Archived>, index: Index, root: Entity, b: Bounds, t: Search, k: nat, rows: seq<nat>)
    requires Searching(Seen(archive, index), root, b, t, k) && k < |t.pending| && Unhindered(b, t)
    requires rows == Matching(archive, index, t.pending[k].entity)
    requires Within(archive, rows) && ParentsPlaced(archive, index, root, b, rows, t)
    ensures Spread(Seen(archive, index), b, t.queued, t.pending[k])
  {
    hide Seen, Frontier, Breadth, Explained, Matching, ClaimsAt, LongPath;
    var arcs, p := Seen(archive, index), t.pending[k];
    EntryKnown(arcs, root, t.pending, t.queued, k);
    forall y | (p.entity, y) in arcs ensures y in t.queued || |p.path| >= b.maxDepth {
      var c := SeenIsRead(archive, index, p.entity, y);
      assert Placed(arcs, root, b, t, c.parent);
      StepWalk(arcs, p.path, root, p.entity, y);
    }
  }

  lemma NodeReadable(archive: seq<Archived>, index: Index, root: Entity, b: Bounds, sizes: Sizes, s: Search,
                     nodes: seq<Node>, n: Node, t: Search)
    requires Reading(archive, index, root, b, sizes, s, nodes) && |nodes| < |s.pending|
    requires n.entity == s.pending[|nodes|].entity && Fresh(archive, index, b, sizes, s, n, t)
    ensures IsReading(archive, index, root, nodes + [n]) && Within(archive, n.evidence)
    ensures Connects(Seen(archive, index), root, n.entity) && forall i :: 0 <= i < |nodes| ==>
      nodes[i].entity != n.entity
  {
    hide Seen, Searching, Covered, AllDone, Heavy, Count, IsReading, Fresh, Summarized, Rising, Names;
    PendingFits(archive, index, root, b, sizes, s, nodes);
    NextIsNew(s.pending, nodes);
    EntryConnects(archive, index, root, b, s, |nodes|, |nodes|);
    FreshRises(archive, index, b, sizes, s, n, t);
    ReadingGrows(archive, index, root, nodes, n);
  }

  lemma EntryConnects(archive: seq<Archived>, index: Index, root: Entity, b: Bounds, s: Search, n: nat, k: nat)
    requires Searching(Seen(archive, index), root, b, s, n) && k < |s.pending|
    ensures Connects(Seen(archive, index), root, s.pending[k].entity)
  {
    hide Seen;
    EntryKnown(Seen(archive, index), root, s.pending, s.queued, k);
  }

  lemma FreshRises(archive: seq<Archived>, index: Index, b: Bounds, sizes: Sizes, s: Search, n: Node, t: Search)
    requires Fresh(archive, index, b, sizes, s, n, t)
    ensures Rising(n.evidence) && Summarized(archive, n) && Within(archive, n.evidence)
  {
    hide Matching, RowsCharge, RowCharge;
    MatchingRises(archive, index, n.entity);
  }

  lemma NodeDone(archive: seq<Archived>, index: Index, root: Entity, b: Bounds, sizes: Sizes, s: Search,
                 nodes: seq<Node>, n: Node, t: Search)
    requires Reading(archive, index, root, b, sizes, s, nodes) && Paid(archive, sizes, s, nodes)
    requires Fresh(archive, index, b, sizes, s, n, t) && Connects(Seen(archive, index), root, n.entity)
    requires forall i :: 0 <= i < |nodes| ==> nodes[i].entity != n.entity
    ensures Done(archive, index, b, sizes, nodes, n) && (t.cut ==> Heavy(archive, index, root, b, sizes))
  {
    hide Seen, Matching, Searching, Covered, Heavy, Cost, Count, RowsCharge, RowCharge, AllDone, IsReading, Stopped;
    if !n.readComplete {
      StoppedIsHeavy(archive, index, root, b, sizes, nodes, n.entity, n.evidence, s.consumed);
      StoppedLater(archive, index, b, sizes, n.entity, n.evidence, s.evidence, s.consumed, Cost(archive, sizes, nodes));
    }
  }

  lemma StoppedLater(archive: seq<Archived>, index: Index, b: Bounds, sizes: Sizes, e: Entity, rows: seq<nat>,
                     count: nat, cost: nat, more: nat)
    requires Stopped(archive, index, b, sizes, e, rows, count, cost) && cost <= more
    ensures Stopped(archive, index, b, sizes, e, rows, count, more)
  {
  }

  /** One worklist entry: its evidence is read and its node charged. */
  method VisitNode(archive: seq<Archived>, index: Index, ghost root: Entity, b: Bounds, sizes: Sizes, nodes: seq<Node>,
                   s0: Search)
    returns (confirmed: bool, fits: bool, node: Node, s: Search)
    requires Reading(archive, index, root, b, sizes, s0, nodes) && Paid(archive, sizes, s0, nodes)
    requires |nodes| < |s0.pending|
    ensures IndexSound(archive, index) ==> confirmed
    ensures confirmed ==> Reading(archive, index, root, b, sizes, s, nodes + [node]) && Later(s0, s)
    ensures confirmed ==> node.entity == s0.pending[|nodes|].entity
    ensures confirmed && fits ==> Paid(archive, sizes, s, nodes + [node])
    ensures confirmed && !fits ==> s.truncated && s.cut
    ensures confirmed && !fits ==>
      AllWithin(archive, nodes + [node]) && Cost(archive, sizes, nodes + [node]) > b.maxBytes
  {
    hide Recorded, Seen, Summarized, Explained, Heavy, Cost, Count, RowsCharge, RowCharge, Matching, IsReading,
      AllDone,
      Frontier, ClaimsRead, Placed, ParentsPlaced, Stopped;
    var current := s0.pending[|nodes|];
    var evidence, complete, t;
    confirmed, evidence, complete, t := ReadEvidence(archive, index, root, |nodes|, current, b, sizes, s0);
    node := Summarize(archive, current.entity, evidence, complete);
    if !confirmed { return false, false, node, s0; }
    NodeJoins(archive, index, root, b, sizes, s0, nodes, node, t);
    if sizes.node(node) > Minus(b.maxBytes, t.consumed) {
      CutReading(archive, index, root, b, sizes, t, nodes + [node]);
      return true, false, node, t.(truncated := true, cut := true);
    }
    SpendKeeps(archive, index, root, b, sizes, t, nodes + [node], sizes.node(node));
    return true, true, node, t.(consumed := t.consumed + sizes.node(node));
  }

  lemma EntryKnown(arcs: set<(Entity, Entity)>, root: Entity, pending: seq<Pending>, queued: set<Entity>, k: nat)
    requires Frontier(arcs, root, pending, queued) && k < |pending|
    ensures PathKnown(arcs, root, queued, pending[k])
  {
  }

  /** A node that does not fit cuts the search, and shows that the evidence is too much. */
  lemma CutReading(archive: seq<Archived>, index: Index, root: Entity, b: Bounds, sizes: Sizes, s: Search,
                   nodes: seq<Node>)
    requires Reading(archive, index, root, b, sizes, s, nodes) && AllWithin(archive, nodes)
    requires Cost(archive, sizes, nodes) > b.maxBytes
    ensures Reading(archive, index, root, b, sizes, s.(truncated := true, cut := true), nodes)
  {
    hide Cost, Count, AllDone, IsReading, Seen, ClaimsRead, Placed, ParentsPlaced;
    var t := s.(truncated := true, cut := true);
    CutKeeps(Seen(archive, index), root, b, s, |nodes|);
    forall i | 0 <= i < |nodes| ensures ParentsPlaced(archive, index, root, b, nodes[i].evidence, t) {
      ParentsStayPlaced(archive, index, root, b, nodes[i].evidence, s, t);
    }
    assert Exceeds(archive, b, sizes, nodes);
  }

  function Start(root: Entity, base: nat): Search {
    Search([Pending(root, [root])], {root}, [], 0, base, false, false)
  }

  lemma Starts(archive: seq<Archived>, index: Index, root: Entity, b: Bounds, sizes: Sizes)
    requires b.Admissible() && sizes.base <= b.maxBytes
    ensures Reading(archive, index, root, b, sizes, Start(root, sizes.base), [])
    ensures Paid(archive, sizes, Start(root, sizes.base), [])
  {
    var start := Pending(root, [root]);
    assert WalkBetween(Seen(archive, index), start.path, root, root);
    assert Shortest(Seen(archive, index), root, start);
    assert Start(root, sizes.base).pending[..0] == [];
  }

  lemma PendingFits(archive: seq<Archived>, index: Index, root: Entity, b: Bounds, sizes: Sizes, s: Search,
                    nodes: seq<Node>)
    requires Reading(archive, index, root, b, sizes, s, nodes)
    ensures |nodes| <= |s.pending| <= b.maxNodes && 0 < |s.pending| == |Names(s.pending)|
    ensures s.evidence == Count(nodes)
    ensures forall i :: 0 <= i < |nodes| ==> nodes[i].entity == s.pending[i].entity
  {
  }

  /** The worklist loop: entities are read in queue order, each once. At the end everything queued
      was read, or the evidence bound is reached, or the last node read did not fit. */
  method Traverse(archive: seq<Archived>, index: Index, root: Entity, b: Bounds, sizes: Sizes)
    returns (confirmed: bool, nodes: seq<Node>, visited: nat, s: Search, ghost dropped: seq<Node>)
    requires b.Admissible() && sizes.base <= b.maxBytes
    ensures IndexSound(archive, index) ==> confirmed
    ensures confirmed ==> Reading(archive, index, root, b, sizes, s, nodes + dropped)
    ensures confirmed ==> |dropped| <= 1 && visited == |nodes + dropped| > 0
    ensures confirmed && dropped != [] ==>
      AllWithin(archive, nodes + dropped) && Cost(archive, sizes, nodes + dropped) > b.maxBytes
    ensures confirmed && dropped != [] ==> s.truncated && s.cut
    ensures confirmed && dropped == [] ==> visited == |s.pending| || s.evidence >= b.maxEvidence
    ensures confirmed ==> Count((nodes + dropped)[..visited - 1]) < b.maxEvidence
    ensures confirmed && dropped == [] && s.cut ==> !AllReadToEnd(nodes)
  {
    hide Reading, Paid, Cost, Names, NodeNames, AllReadToEnd;
    s, nodes, dropped, confirmed := Start(root, sizes.base), [], [], true;
    Starts(archive, index, root, b, sizes);
    var seen: set<Entity> := {};
    NoNames();
    var cursor := 0;
    while cursor < |s.pending|
      invariant 0 <= cursor <= |s.pending| && |nodes| == cursor == |seen|
      invariant Reading(archive, index, root, b, sizes, s, nodes) && Paid(archive, sizes, s, nodes)
      invariant seen == NodeNames(nodes) && 0 < |s.pending| <= b.maxNodes && s.evidence < b.maxEvidence
      invariant s.evidence == Count(nodes) && (nodes != [] ==> Count(nodes[..|nodes| - 1]) < b.maxEvidence)
      decreases b.maxNodes - cursor
    {
      var current := s.pending[cursor];
      PendingFits(archive, index, root, b, sizes, s, nodes);
      NextIsNew(s.pending, nodes);
      if current.entity !in seen {
        if |seen| >= b.maxNodes { s := s.(truncated := true); break; }
        seen := seen + {current.entity};
        var fits, node, t;
        confirmed, fits, node, t := VisitNode(archive, index, root, b, sizes, nodes, s);
        if !confirmed { return false, nodes, |seen|, s, []; }
        s := t;
        PendingFits(archive, index, root, b, sizes, s, nodes + [node]);
        NamesStep(nodes, node);
        if !fits { return true, nodes, |seen|, s, [node]; }
        nodes := nodes + [node];
        assert nodes + [] == nodes;
        PaidShows(archive, sizes, s, nodes);
        if s.evidence >= b.maxEvidence { return true, nodes, |seen|, s, []; }
      }
      cursor := cursor + 1;
    }
    assert nodes + [] == nodes;
    PaidShows(archive, sizes, s, nodes);
    return true, nodes, |seen|, s, [];
  }

  lemma PaidShows(archive: seq<Archived>, sizes: Sizes, s: Search, nodes: seq<Node>)
    requires Paid(archive, sizes, s, nodes)
    ensures s.cut ==> !AllReadToEnd(nodes)
  {
  }

  lemma NoNames()
    ensures NodeNames([]) == {}
  {
  }

  lemma NamesStep(nodes: seq<Node>, n: Node)
    ensures NodeNames(nodes + [n]) == NodeNames(nodes) + {n.entity}
  {
    assert (nodes + [n])[..|nodes|] == nodes;
  }

  /** Where the account of an answer ends: the node that did not fit, the evidence bound, or every
      claimed parent among the nodes or kept out. */
  ghost predicate Ended(archive: seq<Archived>, index: Index, root: Entity, b: Bounds, sizes: Sizes, a: Answer,
                        dropped: seq<Node>)
  {
    if dropped != [] then AllWithin(archive, a.nodes + dropped) && Cost(archive, sizes, a.nodes + dropped) > b.maxBytes
    else a.evidenceRead >= b.maxEvidence || forall c :: c in Bare(a.edges) ==>
      c.parent in Entities(a.nodes) || Excluded(Seen(archive, index), root, b, a, c.parent)
  }

  /** A parent is no node of a truncated answer: there are as many nodes as allowed, or the depth bound
      keeps it out. Then a path to it without repetition exceeds the depth; and unless some node admits
      that its evidence was not read to the end, so does every walk to it. */
  ghost predicate Excluded(arcs: set<(Entity, Entity)>, root: Entity, b: Bounds, a: Answer, x: Entity) {
    a.truncated && (|a.nodes| == b.maxNodes || KeptOut(arcs, root, b, !AllReadToEnd(a.nodes), x))
  }

  /** An answer accounts for itself: what was read starts at the root, lists different reachable
      entities with all their indexed evidence or the bound that stopped it, its edges are exactly
      the claims read, and it ends where a bound says it must. */
  ghost predicate Accounts(archive: seq<Archived>, index: Index, root: Entity, b: Bounds, sizes: Sizes, a: Answer,
                           dropped: seq<Node>) {
    var all := a.nodes + dropped;
    && |dropped| <= 1 && 0 < |all| <= b.maxNodes && all[0].entity == root
    && IsReading(archive, index, root, all) && AllDone(archive, index, b, sizes, all) && AllWithin(archive, all)
    && a.evidenceRead == Count(all) <= b.maxEvidence && Bare(a.edges) == ClaimsRead(archive, all)
    && Ended(archive, index, root, b, sizes, a, dropped) && Count(all[..|all| - 1]) < b.maxEvidence
  }

  /** What every answer of the query promises. */
  ghost predicate Truthful(archive: seq<Archived>, index: Index, root: Entity, b: Bounds, sizes: Sizes, a: Answer) {
    && (exists dropped :: Accounts(archive, index, root, b, sizes, a, dropped))
    && (forall i :: 0 <= i < |a.edges| ==> EdgeKnown(Seen(archive, index), root, a.edges[i].claim))
    && (forall i :: 0 <= i < |a.edges| ==>
        (a.edges[i].cycle <==> OnCycle(Arcs(a.edges), a.edges[i].claim.child, a.edges[i].claim.parent)))
    && a.backlog == |archive| - |index| && (a.complete <==> !a.truncated && a.backlog == 0)
    && (a.complete && IndexSound(archive, index) ==>
        Exact(archive, root, a.nodes, a.edges) && Compact(Claimed(archive), root, b))
    && (!a.complete ==> a.backlog > 0 || !Modest(archive, index, root, b, sizes))
  }

  /** The indexed ancestry fits the bounds: every reachable entity has a walk within the depth, there are
      no more of them than the node bound, and no reading of their evidence exhausts the evidence or
      the byte bound. */
  ghost predicate Modest(archive: seq<Archived>, index: Index, root: Entity, b: Bounds, sizes: Sizes) {
    Compact(Seen(archive, index), root, b) && !Heavy(archive, index, root, b, sizes)
  }

  lemma EndsWhere(archive: seq<Archived>, index: Index, root: Entity, b: Bounds, sizes: Sizes, s: Search, a: Answer)
    requires Reading(archive, index, root, b, sizes, s, a.nodes) && |a.nodes| == |s.pending|
    requires a.truncated == s.truncated && Bare(a.edges) == Bare(s.edges) && (s.cut ==> !AllReadToEnd(a.nodes))
    ensures Ended(archive, index, root, b, sizes, a, [])
  {
    hide AllDone, IsReading, Heavy, Seen, Names, Explained, Count, ClaimsAt, ClaimsRead, LongPath, Far, Breadth,
      AllReadToEnd;
    forall c | c in Bare(a.edges)
      ensures c.parent in Entities(a.nodes) || Excluded(Seen(archive, index), root, b, a, c.parent)
    {
      var i := ClaimReadAt(archive, a.nodes, c);
      assert ParentsPlaced(archive, index, root, b, a.nodes[i].evidence, s);
      assert Placed(Seen(archive, index), root, b, s, c.parent);
      NamesListed(s.pending, a.nodes, c.parent);
    }
  }

  lemma {:induction false} ClaimReadAt(archive: seq<Archived>, nodes: seq<Node>, c: Claim) returns (i: nat)
    requires AllWithin(archive, nodes) && c in ClaimsRead(archive, nodes)
    ensures i < |nodes| && c in ClaimsAt(archive, nodes[i].evidence)
  {
    var last := |nodes| - 1;
    if c in ClaimsAt(archive, nodes[last].evidence) {
      i := last;
    } else {
      i := ClaimReadAt(archive, nodes[..last], c);
    }
  }

  /** What the traversal read accounts for the answer made of it. */
  lemma AnswerAccounts(archive: seq<Archived>, index: Index, root: Entity, b: Bounds, sizes: Sizes, s: Search,
                       a: Answer, dropped: seq<Node>)
    requires Reading(archive, index, root, b, sizes, s, a.nodes + dropped) && |dropped| <= 1 && 0 < |a.nodes + dropped|
    requires dropped != [] ==>
      AllWithin(archive, a.nodes + dropped) && Cost(archive, sizes, a.nodes + dropped) > b.maxBytes
    requires dropped == [] ==> |a.nodes| == |s.pending| || s.evidence >= b.maxEvidence
    requires dropped == [] && s.cut ==> !AllReadToEnd(a.nodes)
    requires Count((a.nodes + dropped)[..|a.nodes + dropped| - 1]) < b.maxEvidence
    requires a.truncated == (s.truncated || |a.nodes + dropped| < |s.pending|)
    requires Bare(a.edges) == Bare(s.edges) && a.evidenceRead == s.evidence
    ensures Accounts(archive, index, root, b, sizes, a, dropped)
  {
    hide AllDone, IsReading, Heavy, Seen, Names, Explained, Count, ClaimsRead, Cost, EdgeKnown, Ended, Breadth,
      AllReadToEnd;
    if dropped == [] {
      assert a.nodes + dropped == a.nodes;
      if s.evidence < b.maxEvidence { EndsWhere(archive, index, root, b, sizes, s, a); }
    }
    EndedOtherwise(archive, index, root, b, sizes, a, dropped);
  }

  lemma EndedOtherwise(archive: seq<Archived>, index: Index, root: Entity, b: Bounds, sizes: Sizes, a: Answer,
                       dropped: seq<Node>)
    ensures var all := a.nodes + dropped;
      dropped != [] && AllWithin(archive, all) && Cost(archive, sizes, all) > b.maxBytes ==>
        Ended(archive, index, root, b, sizes, a, dropped)
    ensures dropped == [] && a.evidenceRead >= b.maxEvidence ==> Ended(archive, index, root, b, sizes, a, dropped)
  {
  }

  /** A truncated traversal ran into a bound that really was in the way. */
  lemma TruncatedIsImmodest(archive: seq<Archived>, index: Index, root: Entity, b: Bounds, sizes: Sizes, s: Search,
                            nodes: seq<Node>)
    requires Reading(archive, index, root, b, sizes, s, nodes)
    requires s.truncated || s.evidence >= b.maxEvidence
    ensures !Modest(archive, index, root, b, sizes)
  {
    hide AllDone, Seen, Frontier, Count, Cost, ClaimsRead, Breadth;
    if s.evidence >= b.maxEvidence { assert Exceeds(archive, b, sizes, nodes); }
  }

  /** The ancestry query. Every answer accounts for itself: it is what the bounds allow to be read,
      and nothing else; its edges are claims of reachable entities with exact cycle marks; a complete
      one over a sound index is exact; and without a backlog, when no reading of the evidence exhausts
      the evidence or byte bound, an answer is complete if and only if every reachable entity is
      within the depth and the node bound. A refusal for size means that such an answer is too large. */
  method ProcessAncestry(archive: seq<Archived>, index: Index, root: Entity, b: Bounds, sizes: Sizes)
    returns (r: Result<Answer, Refusal>)
    requires sizes.base <= 4096
    ensures r == Failure(InvalidRequest) <==> !IsEntityId(root) || !b.Admissible()
    ensures r.Failure? ==> r.error in {InvalidRequest, IndexAccountingMismatch, IndexMismatch, OutputTooLarge}
    ensures IndexSound(archive, index) ==> r != Failure(IndexMismatch) && r != Failure(IndexAccountingMismatch)
    ensures r.Success? ==> Truthful(archive, index, root, b, sizes, r.value) && sizes.answer(r.value) <= b.maxBytes
    ensures r == Failure(OutputTooLarge) ==>
      exists a :: Truthful(archive, index, root, b, sizes, a) && sizes.answer(a) > b.maxBytes
    ensures r.Success? && |index| == |archive| && Modest(archive, index, root, b, sizes) ==> r.value.complete
    ensures r.Success? && |index| == |archive| && IndexSound(archive, index) ==>
      (!Heavy(archive, index, root, b, sizes) ==> (r.value.complete <==> Compact(Claimed(archive), root, b)))
  {
    hide Reading, Accounts, Exact, IsReading, Cost, Count, IndexSound, EdgeKnown, OnCycle, Seen, Compact, Heavy,
      AllReadToEnd, IsEntityId;
    if |index| == |archive| && IndexSound(archive, index) { SeenIsAll(archive, index); }
    var ok := CheckRequest(root, b);
    if !ok { return Failure(InvalidRequest); }
    if |index| > |archive| {
      NotSound(archive, index);
      return Failure(IndexAccountingMismatch);
    }
    var backlog := |archive| - |index|;
    var confirmed, nodes, visited, s, dropped := Traverse(archive, index, root, b, sizes);
    if !confirmed { return Failure(IndexMismatch); }
    var truncated := s.truncated || visited < |s.pending|;
    var edges := MarkCycles(s.edges);
    assert Bare(edges) == Bare(s.edges);
    var answer := Answer(nodes, edges, truncated, backlog, s.evidence, !truncated && backlog == 0);
    AnswerAccounts(archive, index, root, b, sizes, s, answer, dropped);
    AnswerIsExact(archive, index, root, b, sizes, s, answer, dropped);
    if truncated { TruncatedIsImmodest(archive, index, root, b, sizes, s, nodes + dropped); }
    assert Truthful(archive, index, root, b, sizes, answer);
    if sizes.answer(answer) > b.maxBytes { return Failure(OutputTooLarge); }
    return Success(answer);
  }

  lemma SeenIsAll(archive: seq<Archived>, index: Index)
    requires IndexSound(archive, index) && |index| == |archive|
    ensures Seen(archive, index) == Claimed(archive)
  {
    IndexTotal(archive, index);
    SeenIsClaimed(archive, index);
  }

  lemma NotSound(archive: seq<Archived>, index: Index)
    requires |index| > |archive|
    ensures !IndexSound(archive, index)
  {
    if IndexSound(archive, index) {
      assert |index.Keys| == |index|;
      AllPresent(index.Keys, |archive|);
    }
  }

  lemma AnswerIsExact(archive: seq<Archived>, index: Index, root: Entity, b: Bounds, sizes: Sizes, s: Search, a: Answer,
                      dropped: seq<Node>)
    requires Reading(archive, index, root, b, sizes, s, a.nodes + dropped) && (dropped != [] ==> s.cut)
    requires a.truncated == (s.truncated || |a.nodes + dropped| < |s.pending|) && Bare(a.edges) == Bare(s.edges)
    requires |a.edges| == |s.edges|
    ensures forall i :: 0 <= i < |a.edges| ==> EdgeKnown(Seen(archive, index), root, a.edges[i].claim)
    ensures !a.truncated && |index| == |archive| && IndexSound(archive, index) ==>
      Exact(archive, root, a.nodes, a.edges) && Compact(Claimed(archive), root, b)
  {
    hide AllDone, IsReading, Heavy, Seen, Claimed, Names, Count, ClaimsRead, EdgeKnown, IndexSound, Frontier, Breadth,
      Compact;
    forall i | 0 <= i < |a.edges| ensures EdgeKnown(Seen(archive, index), root, a.edges[i].claim) {
      assert Bare(a.edges)[i] == Bare(s.edges)[i];
    }
    if !a.truncated && |index| == |archive| && IndexSound(archive, index) {
      assert a.nodes + dropped == a.nodes;
      CompleteIsExact(archive, index, root, b, sizes, s, a.nodes);
    }
  }

  // ----- Backfilling the index -----

  /** The archive positions without an index row, oldest first. */
  function Unindexed(archive: seq<Archived>, index: Index): seq<nat> {
    if archive == [] then [] else
      var last := |archive| - 1;
      Unindexed(archive[..last], index) + if last in index then [] else [last]
  }

  lemma {:induction false} UnindexedMembers(archive: seq<Archived>, index: Index)
    ensures ToIndex(archive, index, Unindexed(archive, index))
    ensures forall i: nat :: i < |archive| ==> (i in Unindexed(archive, index) <==> i !in index)
  {
    if archive != [] { UnindexedMembers(archive[..|archive| - 1], index); }
  }

  ghost predicate OldestUnindexed(archive: seq<Archived>, index: Index, i: nat) {
    i < |archive| && i !in index && forall j: nat :: j < i ==> j in index
  }

  lemma HeadIsOldest(archive: seq<Archived>, index: Index)
    requires Unindexed(archive, index) != []
    ensures OldestUnindexed(archive, index, Unindexed(archive, index)[0])
  {
    hide Unindexed;
    UnindexedMembers(archive, index);
    var todo := Unindexed(archive, index);
    forall j: nat | j < todo[0] ensures j in index {
      assert forall k :: 0 <= k < |todo| ==> todo[k] >= todo[0];
    }
  }

  /** Backfilling goes from old to new: a position indexed by it has no older one without a row. */
  lemma BackfillsOldest(archive: seq<Archived>, index: Index, n: nat, i: nat, j: nat)
    requires n <= |Unindexed(archive, index)| && Within(archive, Unindexed(archive, index)) && j < i < |archive|
    requires i !in index && i in Backfilled(archive, index, Unindexed(archive, index), n)
    ensures j in Backfilled(archive, index, Unindexed(archive, index), n)
  {
    hide Unindexed, Backfilled;
    var todo := Unindexed(archive, index);
    UnindexedMembers(archive, index);
    BackfilledKeys(archive, index, todo, n, i);
    BackfilledKeys(archive, index, todo, n, j);
    if j !in index {
      var k :| 0 <= k < n && todo[k] == i;
      var m :| 0 <= m < |todo| && todo[m] == j;
      assert m < k;
    }
  }

  lemma {:induction false} BackfilledKeys(archive: seq<Archived>, index: Index, rows: seq<nat>, n: nat, i: nat)
    requires n <= |rows| && Within(archive, rows)
    ensures i in Backfilled(archive, index, rows, n) <==> i in index || exists k :: 0 <= k < n && rows[k] == i
  {
    if n > 0 { BackfilledKeys(archive, index, rows, n - 1, i); }
  }

  /** Positions to index: in the archive, not indexed yet, oldest first. */
  ghost predicate ToIndex(archive: seq<Archived>, index: Index, rows: seq<nat>) {
    && (forall k :: 0 <= k < |rows| ==> rows[k] < |archive| && rows[k] !in index)
    && (forall i, j :: 0 <= i < j < |rows| ==> rows[i] < rows[j])
  }

  /** The index after the first `n` of the given originals were indexed by what they say. */
  ghost function Backfilled(archive: seq<Archived>, index: Index, rows: seq<nat>, n: nat): Index
    requires n <= |rows| && Within(archive, rows)
  {
    if n == 0 then index else
      Backfilled(archive, index, rows, n - 1)[rows[n - 1] := IndexRowFor(archive[rows[n - 1]].fact)]
  }

  lemma {:induction false} BackfillKeeps(archive: seq<Archived>, index: Index, rows: seq<nat>, n: nat)
    requires n <= |rows| && ToIndex(archive, index, rows) && IndexSound(archive, index)
    ensures var built := Backfilled(archive, index, rows, n);
      && IndexSound(archive, built) && |built| == |index| + n
      && (forall i :: i in index ==> i in built && built[i] == index[i])
      && (forall k :: n <= k < |rows| ==> rows[k] !in built)
  {
    if n > 0 { BackfillKeeps(archive, index, rows, n - 1); }
  }

  /** What reading the first `n` of these originals takes, each with its separator. */
  ghost function OriginalBytes(archive: seq<Archived>, rows: seq<nat>, n: nat): nat
    requires Within(archive, rows) && n <= |rows|
  {
    if n == 0 then 0 else OriginalBytes(archive, rows, n - 1) + archive[rows[n - 1]].bytes + 1
  }

  /** So many of the rows are read within the bounds, and one more would not be. */
  ghost predicate MostThatFit(archive: seq<Archived>, rows: seq<nat>, count: nat, maxEvents: nat, maxBytes: nat) {
    && Within(archive, rows) && count <= |rows| && count <= maxEvents
    && OriginalBytes(archive, rows, count) <= maxBytes
    && (count < |rows| && count < maxEvents ==> OriginalBytes(archive, rows, count + 1) > maxBytes)
  }

  /** Indexes rows in order while they fit and growth is admitted; an oversized first row is refused
      rather than skipped. */
  method Backfill(archive: seq<Archived>, index: Index, todo: seq<nat>, maxEvents: nat, maxBytes: nat,
                  admits: nat -> bool)
    returns (r: Result<Index, Refusal>, count: nat)
    requires Within(archive, todo) && todo != [] && maxEvents > 0
    ensures r.Failure? ==>
      r.error == HeadTooLarge || (r.error == GrowthRefused && exists k: nat :: k < |todo| && !admits(k))
    ensures r == Failure(HeadTooLarge) <==> archive[todo[0]].bytes + 1 > maxBytes
    ensures r.Success? ==> count > 0 && MostThatFit(archive, todo, count, maxEvents, maxBytes)
    ensures r.Success? ==> r.value == Backfilled(archive, index, todo, count)
    ensures r.Success? ==> forall k: nat :: k < count ==> admits(k)
  {
    hide Backfilled;
    count := 0;
    var built, bytes: nat := index, 0;
    BackfillSteps(archive, index, todo, 0);
    while count < |todo| && count < maxEvents
      invariant 0 <= count <= |todo| && count <= maxEvents && bytes == OriginalBytes(archive, todo, count) <= maxBytes
      invariant count > 0 ==> archive[todo[0]].bytes + 1 <= maxBytes
      invariant built == Backfilled(archive, index, todo, count) && forall k: nat :: k < count ==> admits(k)
    {
      var row := todo[count];
      var size := archive[row].bytes + 1;
      if size > Minus(maxBytes, bytes) {
        if count == 0 { return Failure(HeadTooLarge), 0; }
        break;
      }
      if !admits(count) { return Failure(GrowthRefused), 0; }
      BackfillSteps(archive, index, todo, count + 1);
      built := built[row := IndexRowFor(archive[row].fact)];
      bytes := bytes + size;
      count := count + 1;
    }
    return Success(built), count;
  }

  /** Backfill indexes the oldest unindexed originals, as many as fit the bounds, correctly and
      without touching existing rows. It makes progress whenever anything is left, and refuses
      rather than skip an original that is too large. `admits` is growth admission, row by row. */
  method RebuildIndex(archive: seq<Archived>, index: Index, maxEvents: nat, maxBytes: nat, admits: nat -> bool)
    returns (r: Result<Index, Refusal>, count: nat)
    requires IndexSound(archive, index)
    ensures r == Failure(InvalidRequest) <==> !(0 < maxEvents <= 1000 && 0 < maxBytes <= 8 * 1024 * 1024)
    ensures r != Failure(InvalidRequest) ==>
      (r == Failure(HeadTooLarge) <==>
       exists i: nat :: OldestUnindexed(archive, index, i) && archive[i].bytes + 1 > maxBytes)
    ensures r == Failure(GrowthRefused) ==> exists k: nat :: k < |Unindexed(archive, index)| && !admits(k)
    ensures r.Failure? ==> r.error in {InvalidRequest, HeadTooLarge, GrowthRefused}
    ensures r.Success? ==> IndexSound(archive, r.value) && |r.value| == |index| + count && index.Items <= r.value.Items
    ensures r.Success? ==> MostThatFit(archive, Unindexed(archive, index), count, maxEvents, maxBytes)
    ensures r.Success? ==> r.value == Backfilled(archive, index, Unindexed(archive, index), count)
    ensures r.Success? ==> forall i: nat, j: nat :: j < i && i in r.value && i !in index ==> j in r.value
    ensures r.Success? ==> forall k: nat :: k < count ==> admits(k)
    ensures r.Success? && count == 0 ==> |index| == |archive|
  {
    hide Unindexed, Backfilled, OriginalBytes, IndexSound;
    if !(0 < maxEvents <= 1000 && 0 < maxBytes <= 8 * 1024 * 1024) { return Failure(InvalidRequest), 0; }
    UnindexedMembers(archive, index);
    var todo := Unindexed(archive, index);
    if todo == [] {
      AllIndexed(archive, index);
      BackfillSteps(archive, index, todo, 0);
      NoOriginals(archive, todo);
      return Success(index), 0;
    }
    HeadIsOldest(archive, index);
    assert forall i: nat :: OldestUnindexed(archive, index, i) ==> i == todo[0];
    r, count := Backfill(archive, index, todo, maxEvents, maxBytes, admits);
    if r.Success? {
      BackfillKeeps(archive, index, todo, count);
      IndexWithin(archive, r.value);
      forall i: nat, j: nat | j < i && i in r.value && i !in index ensures j in r.value {
        BackfillsOldest(archive, index, count, i, j);
      }
    }
  }

  lemma IndexWithin(archive: seq<Archived>, index: Index)
    requires IndexSound(archive, index)
    ensures forall i :: i in index ==> i < |archive|
  {
  }

  lemma NoOriginals(archive: seq<Archived>, rows: seq<nat>)
    requires Within(archive, rows)
    ensures OriginalBytes(archive, rows, 0) == 0
  {
  }

  lemma BackfillSteps(archive: seq<Archived>, index: Index, rows: seq<nat>, n: nat)
    requires n <= |rows| && Within(archive, rows)
    ensures Backfilled(archive, index, rows, n) == if n == 0 then index else
      Backfilled(archive, index, rows, n - 1)[rows[n - 1] := IndexRowFor(archive[rows[n - 1]].fact)]
  {
  }

  lemma AllIndexed(archive: seq<Archived>, index: Index)
    requires IndexSound(archive, index) && forall i: nat :: i < |archive| ==> i in index
    ensures |index| == |archive|
  {
    assert |index.Keys| == |index|;
    FullKeys(index.Keys, |archive|);
  }

  lemma {:induction false} FullKeys(keys: set<nat>, n: nat)
    requires (forall k :: k in keys ==> k < n) && forall i: nat :: i < n ==> i in keys
    ensures |keys| == n
  {
    if n == 0 {
      assert keys == {};
    } else {
      FullKeys(keys - {n - 1}, n - 1);
    }
  }
}
