/** The two-generation cache of process images by process GUID. */
module ImageCache {
  import opened Common

  type Guid = string

  datatype Identity = Identity(pid: nat, guid: Guid, executable: Option<string>, user: Option<string>)

  datatype Creation = Creation(terminated: bool, guid: Option<Guid>, pid: nat, executable: Option<string>,
                               user: Option<string>)

  datatype Context = Context(pid: nat, guid: Option<Guid>, executable: Option<string>, cached: Option<Identity>)

  const UNKNOWN_PROCESS: string := "<unknown process>"

  predicate Resolved(executable: Option<string>) {
    executable.Some? && executable.value != "" && executable.value != UNKNOWN_PROCESS
  }

  /** The text names an image: it is neither missing, nor empty, nor the placeholder for an unknown process. */
  ghost predicate NamesImage(executable: Option<string>) {
    match executable
    case None => false
    case Some(text) => |text| > 0 && text != "<unknown process>"
  }

  // ----- What an unbounded cache would know -----

  /** Every identity remembered, oldest first. */
  type History = seq<Identity>

  /** The latest identity remembered for a GUID. */
  ghost function Latest(h: History, g: Guid): Option<Identity> {
    if h == [] then None
    else if h[|h| - 1].guid == g then Some(h[|h| - 1])
    else Latest(h[..|h| - 1], g)
  }

  /** The distinct GUIDs remembered after the last mention of `g`. */
  ghost function Since(h: History, g: Guid): set<Guid> {
    if h == [] then {}
    else if h[|h| - 1].guid == g then {}
    else Since(h[..|h| - 1], g) + {h[|h| - 1].guid}
  }

  ghost function Guids(h: History): set<Guid> {
    if h == [] then {} else Guids(h[..|h| - 1]) + {h[|h| - 1].guid}
  }

  lemma {:induction false} LatestExactly(h: History, g: Guid)
    ensures Latest(h, g).Some? <==> g in Guids(h)
    ensures Latest(h, g).Some? ==> Latest(h, g).value.guid == g
  {
    if h != [] { LatestExactly(h[..|h| - 1], g); }
  }

  lemma {:induction false} LatestSplit(a: History, b: History, g: Guid)
    ensures Latest(a + b, g) == if Latest(b, g).Some? then Latest(b, g) else Latest(a, g)
    ensures Latest(b, g).None? ==> Since(a + b, g) == Since(a, g) + Guids(b)
  {
    if b == [] {
      assert a + b == a;
    } else {
      var c := b[..|b| - 1];
      LatestSplit(a, c, g);
      assert (a + b)[..|a + b| - 1] == a + c;
    }
  }

  /** The maps are the last two generations: `hot` what was remembered since the last rotation,
      `cold` what was remembered in the generation before it, which was full. */
  ghost predicate Generations(h: History, hot: map<Guid, Identity>, cold: map<Guid, Identity>, older: History,
                              previous: History, current: History, capacity: nat) {
    && h == older + previous + current
    && Remembers(hot, current) && Remembers(cold, previous)
    && |hot| <= capacity && |cold| <= capacity
    && (older != [] ==> |Guids(previous)| == capacity) && (previous == [] ==> older == [])
    && (previous != [] ==> |Guids(previous)| == capacity)
  }

  ghost predicate Remembers(m: map<Guid, Identity>, h: History) {
    forall g :: (g in m <==> Latest(h, g).Some?) && (g in m ==> Latest(h, g) == Some(m[g]))
  }

  lemma RememberMore(m: map<Guid, Identity>, h: History, i: Identity)
    requires Remembers(m, h)
    ensures Remembers(m[i.guid := i], h + [i])
  {
    assert (h + [i])[..|h|] == h;
  }

  lemma RemembersNothing()
    ensures Remembers(map[], [])
  {
  }

  lemma GuidsNone(h: History)
    ensures h == [] ==> |Guids(h)| == 0
  {
  }

  lemma RemembersKeys(m: map<Guid, Identity>, h: History)
    requires Remembers(m, h)
    ensures m.Keys == Guids(h)
  {
    forall g ensures g in m.Keys <==> g in Guids(h) { LatestExactly(h, g); }
  }

  /** The GUID is among the most recent ones and was last remembered for this PID with an image. */
  ghost predicate StillKnown(h: History, g: Guid, pid: nat, capacity: nat) {
    && Latest(h, g).Some? && |Since(h, g)| < capacity
    && Latest(h, g).value.pid == pid && NamesImage(Latest(h, g).value.executable)
  }

  /** What a process event adds to the history: a creation with an id, nothing otherwise. */
  ghost function Remembered(e: Creation): History {
    if e.terminated || e.guid.None? || e.guid.value == "" then []
    else [Identity(e.pid, e.guid.value, e.executable, e.user)]
  }

  class ProcessImageCache {
    const capacity: nat
    var hot: map<Guid, Identity>
    var cold: map<Guid, Identity>
    ghost var history: History
    ghost var older: History
    ghost var previous: History
    ghost var current: History

    ghost predicate Valid()
      reads this
    {
      capacity > 0 && Generations(history, hot, cold, older, previous, current, capacity)
    }

    constructor (generationCapacity: nat)
      ensures Valid() && history == [] && capacity == if generationCapacity > 1 then generationCapacity else 1
    {
      capacity := if generationCapacity > 1 then generationCapacity else 1;
      hot, cold, history, older, previous, current := map[], map[], [], [], [], [];
    }

    /** Remembers a process creation. A termination, or an event without a GUID, is not one. */
    method Remember(e: Creation)
      requires Valid()
      modifies this
      ensures Valid()
      ensures history == old(history) + Remembered(e)
    {
      hide Remembers, Guids, Latest;
      if e.terminated || e.guid.None? || e.guid.value == "" { return; }
      var g := e.guid.value;
      var identity := Identity(e.pid, g, e.executable, e.user);
      if |hot| >= capacity && g !in hot {
        RemembersKeys(hot, current);
        assert |hot.Keys| == |hot|;
        older, previous, current := older + previous, current, [];
        cold := hot;
        hot := map[];
        assert history == older + previous + current;
        RemembersNothing();
        GuidsNone(previous);
      }
      RememberMore(hot, current, identity);
      if g in hot {
        assert hot[g := identity].Keys == hot.Keys;
        assert |hot[g := identity]| == |hot|;
      }
      assert older + previous + current + [identity] == older + previous + (current + [identity]);
      hot := hot[g := identity];
      current := current + [identity];
      history := history + [identity];
    }

    /** Looks a GUID up in the newer generation first. Whatever is found is the latest identity ever
        remembered for it, and every GUID among the `capacity` most recently remembered distinct
        ones is found. */
    method Find(g: Guid) returns (r: Option<Identity>)
      requires Valid()
      ensures r.Some? ==> r == Latest(history, g)
      ensures Latest(history, g).Some? && |Since(history, g)| < capacity ==> r.Some?
      ensures |hot| + |cold| <= 2 * capacity
    {
      Split(history, hot, cold, older, previous, current, capacity, g);
      if g in hot { return Some(hot[g]); }
      if g in cold { return Some(cold[g]); }
      return None;
    }

    /** Attaches the remembered identity to an event whose image the source could not resolve. The
        GUID and the PID must both match, and the event's own fields stay as they are. */
    method Enrich(c: Context) returns (enriched: bool, out: Context)
      requires Valid()
      ensures out == c.(cached := out.cached) && (!enriched ==> out == c)
      ensures enriched ==>
        out.cached.Some? && !NamesImage(c.executable) && c.guid.Some? && out.cached == Latest(history, c.guid.value)
      ensures enriched ==> c.guid.value != "" && out.cached.value.pid == c.pid
      ensures enriched ==> NamesImage(out.cached.value.executable)
      ensures !NamesImage(c.executable) && c.guid.Some? && c.guid.value != "" ==>
        (StillKnown(history, c.guid.value, c.pid, capacity) ==> enriched)
    {
      if Resolved(c.executable) || c.guid.None? || c.guid.value == "" { return false, c; }
      var found := Find(c.guid.value);
      if found.None? || found.value.pid != c.pid || !Resolved(found.value.executable) { return false, c; }
      return true, c.(cached := found);
    }
  }

  /** Where a GUID's latest mention is, and how much was remembered since. */
  lemma Split(h: History, hot: map<Guid, Identity>, cold: map<Guid, Identity>, older: History, previous: History,
              current: History, capacity: nat, g: Guid)
    requires Generations(h, hot, cold, older, previous, current, capacity)
    ensures g in hot ==> Latest(h, g) == Some(hot[g])
    ensures g !in hot && g in cold ==> Latest(h, g) == Some(cold[g])
    ensures g !in hot && g !in cold && Latest(h, g).Some? ==> |Since(h, g)| >= capacity
  {
    LatestSplit(older + previous, current, g);
    LatestSplit(older, previous, g);
    if g !in hot && g !in cold && Latest(h, g).Some? {
      SubsetSize(Since(h, g), Guids(previous));
    }
  }
}
