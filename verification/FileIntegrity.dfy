/** The file-integrity baseline: a bounded depth-first walk over a directory graph that may hold
    aliases and cycles and may change under the walk, and the shared hashing budget. */
module FileIntegrity {
  import opened Common

  type Identity = string

  datatype Limits = Limits(recursive: bool, maxDepth: nat, maxDirectories: nat, maxCandidates: nat)

  datatype Directory = Directory(relative: string, depth: nat, identity: Identity)

  /** One name found in a directory, and what opening it shows. */
  datatype Found =
    | Dots
    | Found(relative: string, safe: bool, reparseHint: bool, opens: bool, reparse: bool, insideParent: bool,
            directory: bool, identity: Identity, insideRoot: bool)

  /** What visiting a directory meets: the root may have been replaced, the directory may refuse to
      reopen or be another one, listing may find nothing, fail, or yield names and then end or break off. */
  datatype Visit =
    | RootChanged | ReopenRefused | IdentityChanged | ListFailed | NothingFound
    | Listing(names: seq<Found>, ended: bool)

  datatype Record =
    | Begin
    | Gap(reason: string)
    | Skip(relative: string)
    | RefusedCandidate
    | FailedCandidate(relative: string)
    | Candidate(relative: string)
    | Manifest(coverageComplete: bool, candidates: nat, directories: nat)

  /** A record that admits missing coverage. */
  predicate Degrades(r: Record) {
    r.Gap? || r.Skip? || r.RefusedCandidate? || r.FailedCandidate?
  }

  ghost predicate Clean(records: seq<Record>) {
    forall i :: 0 <= i < |records| ==> !Degrades(records[i])
  }

  /** The state of a walk; `asked` counts how often it has looked for a stop request. */
  datatype Walk = Walk(stack: seq<Directory>, visited: set<Identity>, candidates: nat, coverage: bool,
                       records: seq<Record>, asked: nat)

  /** How the walk goes on: normally, ended early by a bound or a broken listing, or stopped. */
  datatype Verdict = GoOn | EndedEarly | Halted

  // ----- What the walk keeps -----

  ghost function Identities(stack: seq<Directory>): set<Identity> {
    if stack == [] then {} else Identities(stack[..|stack| - 1]) + {stack[|stack| - 1].identity}
  }

  lemma {:induction false} IdentityIn(stack: seq<Directory>, i: nat)
    requires i < |stack|
    ensures stack[i].identity in Identities(stack)
  {
    if i < |stack| - 1 { IdentityIn(stack[..|stack| - 1], i); }
  }

  ghost predicate DistinctIdentities(stack: seq<Directory>) {
    forall i, j :: 0 <= i < j < |stack| ==> stack[i].identity != stack[j].identity
  }

  /** What was found so far, and the directories taken up so far in order. */
  datatype Trail = Trail(names: seq<Found>, taken: seq<Identity>)

  /** Directories are visited once: those taken up and those waiting are all different. */
  ghost predicate Once(w: Walk, t: Trail, limits: Limits) {
    && DistinctIdentities(w.stack) && NoRepeats(t.taken)
    && (forall i, j :: 0 <= i < |w.stack| && 0 <= j < |t.taken| ==> w.stack[i].identity != t.taken[j])
    && (forall x :: x in w.visited <==> x in Identities(w.stack) || x in t.taken)
    && |w.visited| <= limits.maxDirectories && w.candidates <= limits.maxCandidates
    && (forall i :: 0 <= i < |w.stack| ==> w.stack[i].depth <= limits.maxDepth)
  }

  /** Every name found is accounted for while coverage is still claimed. */
  ghost predicate Accounted(f: Found, w: Walk, limits: Limits) {
    f.Found? ==> Candidate(f.relative) in w.records && (limits.recursive && f.directory ==> f.identity in w.visited)
  }

  ghost predicate Covers(w: Walk, t: Trail, limits: Limits) {
    && (w.coverage <==> Clean(w.records))
    && (w.coverage ==> forall i :: 0 <= i < |t.names| ==> Accounted(t.names[i], w, limits))
  }

  /** One record durably accepted, after one look for a stop request. */
  ghost function Emit(w: Walk, r: Record): Walk {
    w.(records := w.records + [r], coverage := w.coverage && !Degrades(r), asked := w.asked + 1)
  }

  lemma EmitCovers(w: Walk, t: Trail, limits: Limits, r: Record)
    requires Covers(w, t, limits)
    ensures Covers(Emit(w, r), t, limits)
  {
    var e := Emit(w, r);
    assert e.records[|w.records|] == r;
    if e.coverage {
      forall i | 0 <= i < |t.names| ensures Accounted(t.names[i], e, limits) {
        assert Accounted(t.names[i], w, limits);
      }
    } else if w.coverage {
      assert Degrades(e.records[|w.records|]);
    } else {
      var k :| 0 <= k < |w.records| && Degrades(w.records[k]);
      assert e.records[k] == w.records[k];
    }
  }

  lemma EmitOnce(w: Walk, t: Trail, limits: Limits, r: Record)
    requires Once(w, t, limits)
    ensures Once(Emit(w, r), t, limits)
  {
  }

  /** A name whose coverage was given up, or that is not a candidate at all, needs nothing more. */
  lemma NameCovered(w: Walk, t: Trail, limits: Limits, f: Found)
    requires Covers(w, t, limits) && (w.coverage ==> Accounted(f, w, limits))
    ensures Covers(w, t.(names := t.names + [f]), limits)
  {
  }

  function Push(w: Walk, d: Directory): Walk {
    w.(stack := w.stack + [d], visited := w.visited + {d.identity})
  }

  lemma PushOnce(w: Walk, t: Trail, limits: Limits, d: Directory)
    requires Once(w, t, limits) && d.identity !in w.visited && |w.visited| < limits.maxDirectories
    requires d.depth <= limits.maxDepth
    ensures Once(Push(w, d), t, limits)
  {
    hide Identities;
    assert Identities(w.stack + [d]) == Identities(w.stack) + {d.identity} by { IdentitiesAppend(w.stack, d); }
    forall i | 0 <= i < |w.stack| ensures w.stack[i].identity != d.identity { IdentityIn(w.stack, i); }
    assert d.identity !in t.taken;
  }

  lemma IdentitiesAppend(stack: seq<Directory>, d: Directory)
    ensures Identities(stack + [d]) == Identities(stack) + {d.identity}
  {
    assert (stack + [d])[..|stack|] == stack;
  }

  lemma PushCovers(w: Walk, t: Trail, limits: Limits, d: Directory)
    requires Covers(w, t, limits)
    ensures Covers(Push(w, d), t, limits)
  {
    if w.coverage {
      forall i | 0 <= i < |t.names| ensures Accounted(t.names[i], Push(w, d), limits) {
        assert Accounted(t.names[i], w, limits);
      }
    }
  }

  lemma PopOnce(w: Walk, t: Trail, limits: Limits)
    requires Once(w, t, limits) && w.stack != []
    ensures var last := |w.stack| - 1;
      Once(w.(stack := w.stack[..last]), t.(taken := t.taken + [w.stack[last].identity]), limits)
  {
    var last := w.stack[|w.stack| - 1];
    var rest := w.stack[..|w.stack| - 1];
    assert w.stack == rest + [last];
  }

  /** Nobody asks the walk to stop. */
  ghost predicate Unstopped(stop: nat -> bool) {
    forall n :: !stop(n)
  }

  /** The first so many looks found no stop request. */
  ghost predicate Silent(stop: nat -> bool, looks: nat) {
    forall n: nat :: n < looks ==> !stop(n)
  }

  lemma SilentMore(stop: nat -> bool, looks: nat)
    ensures Silent(stop, looks) && !stop(looks) ==> Silent(stop, looks + 1)
  {
  }

  /** The walk gave up on its own, with a gap record as its last word. */
  ghost predicate EndsInGap(records: seq<Record>) {
    records != [] && records[|records| - 1].Gap?
  }

  /** Hands one record to durable acceptance, which a stop request ends. `stop` says, look by look,
      whether a stop is requested. */
  method Accept(w: Walk, r: Record, stop: nat -> bool) returns (ok: bool, e: Walk)
    ensures (ok <==> !stop(w.asked)) && (ok ==> e == Emit(w, r)) && (!ok ==> e == w.(asked := w.asked + 1))
    ensures ok && Silent(stop, w.asked) ==> Silent(stop, e.asked)
  {
    ok := !stop(w.asked);
    e := w.(asked := w.asked + 1);
    if ok { e := e.(records := w.records + [r], coverage := w.coverage && !Degrades(r)); }
  }

  lemma AskKeeps(w: Walk, t: Trail, limits: Limits, n: nat)
    requires Once(w, t, limits) && Covers(w, t, limits)
    ensures Once(w.(asked := n), t, limits) && Covers(w.(asked := n), t, limits)
  {
    if w.coverage {
      forall i | 0 <= i < |t.names| ensures Accounted(t.names[i], w.(asked := n), limits) {
        assert Accounted(t.names[i], w, limits);
      }
    }
  }

  // ----- Bounds that end a walk early -----

  ghost function CountFound(names: seq<Found>): nat {
    if names == [] then 0 else CountFound(names[..|names| - 1]) + if names[|names| - 1].Found? then 1 else 0
  }

  /** A name that opens as what it seems to be, where it seems to be. */
  ghost predicate Sound(f: Found) {
    f.Found? && f.safe && !f.reparseHint && f.opens && !f.reparse && f.insideParent
  }

  /** A directory the walk may descend into. */
  ghost predicate Enterable(f: Found) {
    Sound(f) && f.directory && f.insideRoot
  }

  /** The record a name leaves: refused when it is unsafe, failed when it does not open, skipped when it is a
      reparse point or resolves elsewhere, and a candidate otherwise. */
  ghost predicate Tells(f: Found, r: Record) {
    && f.Found?
    && (r == RefusedCandidate <==> !f.safe)
    && (r == FailedCandidate(f.relative) <==> f.safe && !f.reparseHint && !f.opens)
    && (r == Skip(f.relative) <==> f.safe && (f.reparseHint || (f.opens && (f.reparse || !f.insideParent))))
    && (r == Candidate(f.relative) <==>
        f.safe && !f.reparseHint && f.opens && !f.reparse && f.insideParent)
  }

  ghost predicate Told(f: Found, records: seq<Record>) {
    f.Found? ==> exists r :: r in records && Tells(f, r)
  }

  /** Every name has left its record. */
  ghost predicate AllTold(names: seq<Found>, records: seq<Record>) {
    forall i :: 0 <= i < |names| ==> Told(names[i], records)
  }

  lemma ToldMore(names: seq<Found>, before: seq<Record>, f: Found, after: seq<Record>)
    requires AllTold(names, before) && before <= after
    requires f.Found? ==> after != [] && Tells(f, after[|after| - 1])
    ensures AllTold(names + [f], after)
  {
    forall i | 0 <= i < |names + [f]| ensures Told((names + [f])[i], after) {
      if i < |names| { assert Told(names[i], before); }
    }
  }

  lemma ToldStays(names: seq<Found>, before: seq<Record>, after: seq<Record>)
    requires AllTold(names, before) && before <= after
    ensures AllTold(names, after)
  {
    forall i | 0 <= i < |names| ensures Told(names[i], after) { assert Told(names[i], before); }
  }

  /** The root and every directory named so far that may be descended into. */
  ghost function KnownIds(root: Identity, names: seq<Found>): set<Identity> {
    {root} + set f | f in names && Enterable(f) :: f.identity
  }

  /** The names are more candidates, or name more directories, than the bounds allow. */
  ghost predicate Overflow(names: seq<Found>, root: Identity, limits: Limits) {
    CountFound(names) > limits.maxCandidates || (limits.recursive && |KnownIds(root, names)| > limits.maxDirectories)
  }

  /** The walk has counted every name considered and knows the root and directories named by then. */
  ghost predicate Tallied(w: Walk, names: seq<Found>, root: Identity) {
    w.candidates == CountFound(names) && root in w.visited && w.visited <= KnownIds(root, names)
  }

  /** Why a name costs the walk its coverage: it is unsafe, a reparse point, cannot be opened or resolves
      elsewhere, or it is a directory to descend into that is outside the root, known by then, or too deep. */
  ghost predicate Flawed(d: Directory, f: Found, known: set<Identity>, limits: Limits) {
    && f.Found?
    && (|| !Sound(f)
        || (f.directory && limits.recursive && (!f.insideRoot || f.identity in known || d.depth + 1 > limits.maxDepth)))
  }

  /** While coverage is claimed in recursive mode, every directory named is known. */
  lemma NamedIsKnown(w: Walk, t: Trail, limits: Limits, root: Identity)
    requires Covers(w, t, limits) && Tallied(w, t.names, root) && w.coverage && limits.recursive
    ensures w.visited == KnownIds(root, t.names)
  {
    forall x | x in KnownIds(root, t.names) ensures x in w.visited {
      if x != root {
        var f :| f in t.names && Enterable(f) && f.identity == x;
        assert Accounted(f, w, limits);
      }
    }
  }

  lemma CountStep(names: seq<Found>, f: Found)
    ensures CountFound(names + [f]) == CountFound(names) + if f.Found? then 1 else 0
  {
    assert (names + [f])[..|names|] == names;
  }

  lemma KnownStep(root: Identity, names: seq<Found>, f: Found)
    ensures KnownIds(root, names + [f]) == KnownIds(root, names) + if Enterable(f) then {f.identity} else {}
  {
    var more := names + [f];
    forall x
      ensures x in KnownIds(root, more) <==>
        x in KnownIds(root, names) + if Enterable(f) then {f.identity} else {}
    {
      assert f in more;
      assert forall g :: g in more <==> g in names || g == f;
    }
  }

  lemma {:induction false} OverflowGrows(names: seq<Found>, more: seq<Found>, root: Identity, limits: Limits)
    requires Overflow(names, root, limits)
    ensures Overflow(names + more, root, limits)
    decreases |more|
  {
    if more == [] {
      assert names + more == names;
    } else {
      CountStep(names, more[0]);
      KnownStep(root, names, more[0]);
      SubsetSize(KnownIds(root, names + [more[0]]), KnownIds(root, names));
      OverflowGrows(names + [more[0]], more[1..], root, limits);
      assert names + [more[0]] + more[1..] == names + more;
    }
  }

  /** The stack grew only by directories this listing names, one level deeper. */
  ghost predicate PushedFrom(current: Directory, names: seq<Found>, before: seq<Directory>, after: seq<Directory>) {
    && before <= after
    && forall i :: |before| <= i < |after| ==> NamedIn(current, names, after[i])
  }

  ghost predicate NamedIn(current: Directory, names: seq<Found>, d: Directory) {
    exists f :: f in names && f.Found? && f.directory && d == Directory(f.relative, current.depth + 1, f.identity)
  }

  /** A directory is put on the stack exactly when it is inside the root, new, within the depth and fits; if not, a
      record says why: it was skipped, or a bound was reached. */
  ghost predicate DescentFits(current: Directory, f: Found, limits: Limits, before: Walk, after: Walk)
    requires f.Found?
  {
    if !f.insideRoot || f.identity in before.visited then
      after.stack == before.stack && after.records == before.records + [Skip(f.relative)]
    else if current.depth >= limits.maxDepth then
      after.stack == before.stack && after.records == before.records + [Gap("maximum_directory_depth_reached")]
    else
      && after.stack == before.stack + [Directory(f.relative, current.depth + 1, f.identity)]
      && after.records == before.records
  }

  /** One directory found in recursive mode: pushed unless it is outside the root, already known,
      too deep or one too many, and then a record says so. */
  method Descend(current: Directory, f: Found, ghost root: Identity, limits: Limits, stop: nat -> bool, w0: Walk,
                 ghost t: Trail)
    returns (v: Verdict, w: Walk)
    requires Sound(f) && f.directory && Once(w0, t, limits) && Covers(w0, t, limits)
    requires root in w0.visited && w0.visited <= KnownIds(root, t.names) && limits.recursive
    requires w0.coverage ==> w0.visited == KnownIds(root, t.names)
    ensures Once(w, t, limits) && Covers(w, t, limits) && w0.records <= w.records && w.candidates == w0.candidates
    ensures |w.stack| - |w.visited| == |w0.stack| - |w0.visited| && (w.coverage ==> w0.coverage)
    ensures PushedFrom(current, [f], w0.stack, w.stack)
    ensures root in w.visited && w.visited <= KnownIds(root, t.names + [f])
    ensures v == GoOn && w0.coverage ==>
      (w.coverage <==> f.insideRoot && f.identity !in KnownIds(root, t.names) && current.depth + 1 <= limits.maxDepth)
    ensures v == GoOn && w.coverage ==> f.identity in w.visited
    ensures v == GoOn ==> DescentFits(current, f, limits, w0, w)
    ensures w.asked >= w0.asked
    ensures v == GoOn && Silent(stop, w0.asked) ==> Silent(stop, w.asked)
    ensures v == EndedEarly ==> EndsInGap(w.records) && Overflow(t.names + [f], root, limits)
    ensures v == Halted ==> !Unstopped(stop)
  {
    hide Once, Covers, KnownIds, Silent;
    var r;
    KnownStep(root, t.names, f);
    if !f.insideRoot || f.identity in w0.visited {
      r := Skip(f.relative);
    } else if current.depth + 1 > limits.maxDepth {
      r := Gap("maximum_directory_depth_reached");
    } else if |w0.visited| >= limits.maxDirectories {
      r := Gap("maximum_directory_count_reached");
      SubsetSize(KnownIds(root, t.names + [f]), w0.visited + {f.identity});
    } else {
      var d := Directory(f.relative, current.depth + 1, f.identity);
      PushOnce(w0, t, limits, d);
      PushCovers(w0, t, limits, d);
      assert NamedIn(current, [f], d);
      return GoOn, Push(w0, d);
    }
    EmitOnce(w0, t, limits, r);
    EmitCovers(w0, t, limits, r);
    AskKeeps(w0, t, limits, w0.asked + 1);
    var ok;
    ok, w := Accept(w0, r, stop);
    v := if !ok then Halted else if r == Gap("maximum_directory_count_reached") then EndedEarly else GoOn;
  }

  /** One name of a listing. Unless the walk ends here, the name is accounted for or coverage is
      given up with a record that says so; if it ends here, a bound is exceeded or a stop requested. */
  method Consider(current: Directory, f: Found, ghost root: Identity, limits: Limits, stop: nat -> bool, w0: Walk,
                  ghost t: Trail)
    returns (v: Verdict, w: Walk)
    requires Once(w0, t, limits) && Covers(w0, t, limits) && Tallied(w0, t.names, root)
    ensures w0.records <= w.records && |w.stack| - |w.visited| == |w0.stack| - |w0.visited|
    ensures (w.coverage ==> w0.coverage)
    ensures Once(w, t, limits) && Covers(w, t, limits) && PushedFrom(current, [f], w0.stack, w.stack)
    ensures v == GoOn ==> Covers(w, t.(names := t.names + [f]), limits) && Tallied(w, t.names + [f], root)
    ensures v == GoOn ==> (w.coverage <==> w0.coverage && !Flawed(current, f, KnownIds(root, t.names), limits))
    ensures v == GoOn && f.Found? ==> w.records != [] && Tells(f, w.records[|w.records| - 1])
    ensures w.asked > w0.asked
    ensures v == GoOn && Silent(stop, w0.asked) ==> Silent(stop, w.asked)
    ensures v == EndedEarly ==> EndsInGap(w.records) && Overflow(t.names + [f], root, limits)
    ensures v == Halted ==> !Unstopped(stop)
  {
    hide Once, Covers, KnownIds, CountFound, NamedIn, Silent;
    SilentMore(stop, w0.asked);
    CountStep(t.names, f);
    KnownStep(root, t.names, f);
    AskKeeps(w0, t, limits, w0.asked + 1);
    if stop(w0.asked) { return Halted, w0.(asked := w0.asked + 1); }
    w := w0.(asked := w0.asked + 1);
    if f.Dots? {
      NameCovered(w, t, limits, f);
      return GoOn, w;
    }
    var ok, r;
    AskKeeps(w, t, limits, w.asked + 1);
    if w.candidates + 1 > limits.maxCandidates {
      r := Gap("baseline_candidate_count_bound_exceeded");
      EmitOnce(w, t, limits, r);
      EmitCovers(w, t, limits, r);
      ok, w := Accept(w, r, stop);
      return if ok then EndedEarly else Halted, w;
    }
    CountOnce(w, t, limits);
    w := w.(candidates := w.candidates + 1);
    if !f.safe {
      r := RefusedCandidate;
    } else if f.reparseHint {
      r := Skip(f.relative);
    } else if !f.opens {
      r := FailedCandidate(f.relative);
    } else if f.reparse || !f.insideParent {
      r := Skip(f.relative);
    } else {
      if f.directory && limits.recursive {
        if w0.coverage { NamedIsKnown(w0, t, limits, root); }
        v, w := Descend(current, f, root, limits, stop, w, t);
        if v != GoOn { return; }
      }
      r := Candidate(f.relative);
    }
    v, w := Report(f, r, limits, stop, w, t);
  }

  /** The record that settles one name. */
  method Report(f: Found, r: Record, limits: Limits, stop: nat -> bool, w0: Walk, ghost t: Trail)
    returns (v: Verdict, w: Walk)
    requires Once(w0, t, limits) && Covers(w0, t, limits) && f.Found?
    requires Degrades(r) || r == Candidate(f.relative)
    requires Degrades(r) || (w0.coverage && limits.recursive && f.directory ==> f.identity in w0.visited)
    ensures w0.records <= w.records && w.stack == w0.stack && w.visited == w0.visited && w.candidates == w0.candidates
    ensures (w.coverage ==> w0.coverage) && Once(w, t, limits) && Covers(w, t, limits)
    ensures v == GoOn ==> Covers(w, t.(names := t.names + [f]), limits)
    ensures v == GoOn ==> (w.coverage <==> w0.coverage && !Degrades(r)) && w.records == w0.records + [r]
    ensures v != EndedEarly && (v == Halted ==> !Unstopped(stop)) && w.asked > w0.asked
    ensures v == GoOn && Silent(stop, w0.asked) ==> Silent(stop, w.asked)
  {
    hide Once, Covers, Silent;
    EmitOnce(w0, t, limits, r);
    EmitCovers(w0, t, limits, r);
    AskKeeps(w0, t, limits, w0.asked + 1);
    var ok;
    ok, w := Accept(w0, r, stop);
    if !ok { return Halted, w; }
    assert w.records[|w0.records|] == r;
    NameCovered(w, t, limits, f);
    return GoOn, w;
  }

  lemma CountOnce(w: Walk, t: Trail, limits: Limits)
    requires Once(w, t, limits) && Covers(w, t, limits) && w.candidates + 1 <= limits.maxCandidates
    ensures Once(w.(candidates := w.candidates + 1), t, limits) && Covers(w.(candidates := w.candidates + 1), t, limits)
  {
    if w.coverage {
      forall i | 0 <= i < |t.names| ensures Accounted(t.names[i], w.(candidates := w.candidates + 1), limits) {
        assert Accounted(t.names[i], w, limits);
      }
    }
  }

  /** Neither invariant looks at which names are in the trail's other parts. */
  lemma NamesOnce(w: Walk, t: Trail, limits: Limits, names: seq<Found>)
    requires Once(w, t, limits)
    ensures Once(w, t.(names := names), limits)
  {
  }

  ghost function NamesIn(v: Visit): seq<Found> {
    if v.Listing? then v.names else []
  }

  /** The directory was listed to its end and all its names are among those considered. */
  ghost predicate Explored(v: Visit, names: seq<Found>) {
    (v.NothingFound? || (v.Listing? && v.ended)) && forall f :: f in NamesIn(v) ==> f in names
  }

  /** One of the first `n` names of a directory is flawed, given the names considered before it. */
  ghost predicate HasFlaw(d: Directory, names: seq<Found>, n: nat, before: seq<Found>, root: Identity, limits: Limits)
    requires n <= |names|
  {
    exists k :: 0 <= k < n && FlawedAt(d, names, k, before, root, limits)
  }

  ghost predicate FlawedAt(d: Directory, names: seq<Found>, k: nat, before: seq<Found>, root: Identity, limits: Limits)
    requires k < |names|
  {
    Flawed(d, names[k], KnownIds(root, before + names[..k]), limits)
  }

  /** A directory costs the walk its coverage: it does not reopen, is another one, does not list, or one
      of its names is flawed. */
  ghost predicate Lapses(d: Directory, v: Visit, before: seq<Found>, root: Identity, limits: Limits) {
    || v.ReopenRefused? || v.IdentityChanged? || v.ListFailed?
    || HasFlaw(d, NamesIn(v), |NamesIn(v)|, before, root, limits)
  }

  lemma FlawStep(d: Directory, names: seq<Found>, n: nat, before: seq<Found>, root: Identity, limits: Limits)
    requires n < |names|
    ensures HasFlaw(d, names, n + 1, before, root, limits) <==>
      HasFlaw(d, names, n, before, root, limits) || Flawed(d, names[n], KnownIds(root, before + names[..n]), limits)
  {
    hide Flawed, KnownIds;
    if HasFlaw(d, names, n + 1, before, root, limits) {
      var k :| 0 <= k < n + 1 && FlawedAt(d, names, k, before, root, limits);
    }
    if Flawed(d, names[n], KnownIds(root, before + names[..n]), limits) {
      assert FlawedAt(d, names, n, before, root, limits);
    }
  }

  /** The names considered so far plus what one directory shows exceed a bound, or the directory's
      listing broke off, or the root is no longer the configured one. */
  ghost predicate Stops(v: Visit, names: seq<Found>, root: Identity, limits: Limits) {
    v.RootChanged? || (v.Listing? && !v.ended) || Overflow(names + NamesIn(v), root, limits)
  }

  /** One directory taken off the stack: its names are considered in order, or a record says that
      it was not listed. */
  method Enumerate(current: Directory, visit: Visit, ghost root: Identity, limits: Limits, stop: nat -> bool, w0: Walk,
                   ghost t0: Trail)
    returns (v: Verdict, w: Walk, ghost t: Trail)
    requires Once(w0, t0, limits) && Covers(w0, t0, limits) && Tallied(w0, t0.names, root)
    ensures w0.records <= w.records && |w.stack| - |w.visited| == |w0.stack| - |w0.visited|
    ensures (w.coverage ==> w0.coverage)
    ensures t.taken == t0.taken && PushedFrom(current, NamesIn(visit), w0.stack, w.stack)
    ensures v == GoOn ==> Once(w, t, limits) && Covers(w, t, limits) && Tallied(w, t.names, root)
    ensures v == GoOn ==> t.names == t0.names + NamesIn(visit) && (w.coverage ==> Explored(visit, t.names))
    ensures v == GoOn ==> (w.coverage <==> w0.coverage && !Lapses(current, visit, t0.names, root, limits))
    ensures v == GoOn && AllTold(t0.names, w0.records) ==> AllTold(t.names, w.records)
    ensures v == GoOn ==> w.asked >= w0.asked + |NamesIn(visit)|
    ensures v == GoOn && Silent(stop, w0.asked) ==> Silent(stop, w.asked)
    ensures v != GoOn && Unstopped(stop) ==> EndsInGap(w.records) && Stops(visit, t0.names, root, limits)
  {
    hide Once, Covers, Tallied, Overflow, PushedFrom, Flawed, KnownIds, FlawedAt, AllTold, Tells, Silent;
    t := t0;
    var ok;
    NothingPushed(current, NamesIn(visit), w0.stack);
    if visit.NothingFound? {
      assert t0.names + [] == t0.names;
      return GoOn, w0, t;
    }
    if !visit.Listing? {
      var r := Gap("directory_not_enumerated");
      EmitOnce(w0, t, limits, r);
      EmitCovers(w0, t, limits, r);
      EmitTallied(w0, t.names, root, r);
      assert t0.names + [] == t0.names;
      ok, w := Accept(w0, r, stop);
      if AllTold(t0.names, w0.records) { ToldStays(t0.names, w0.records, w.records); }
      v := if !ok || visit.RootChanged? then Halted else GoOn;
      return;
    }
    w := w0;
    assert t0.names + visit.names[..0] == t0.names;
    for i := 0 to |visit.names|
      invariant Once(w, t, limits) && Covers(w, t, limits) && Tallied(w, t.names, root)
      invariant w0.records <= w.records && PushedFrom(current, visit.names, w0.stack, w.stack)
      invariant w.coverage <==> w0.coverage && !HasFlaw(current, visit.names, i, t0.names, root, limits)
      invariant |w.stack| - |w.visited| == |w0.stack| - |w0.visited| && t == t0.(names := t0.names + visit.names[..i])
      invariant AllTold(t0.names, w0.records) ==> AllTold(t.names, w.records)
      invariant w.asked >= w0.asked + i && (Silent(stop, w0.asked) ==> Silent(stop, w.asked))
    {
      ghost var before, records := w.stack, w.records;
      FlawStep(current, visit.names, i, t0.names, root, limits);
      v, w := Consider(current, visit.names[i], root, limits, stop, w, t);
      PushedMore(current, visit.names, i, w0.stack, before, w.stack);
      assert t0.names + visit.names[..i] + [visit.names[i]] == t0.names + visit.names[..i + 1];
      if v != GoOn {
        if v == EndedEarly {
          OverflowGrows(t.names + [visit.names[i]], visit.names[i + 1..], root, limits);
          assert t.names + [visit.names[i]] + visit.names[i + 1..] == t0.names + visit.names;
        }
        return;
      }
      NamesOnce(w, t, limits, t.names + [visit.names[i]]);
      if AllTold(t0.names, w0.records) { ToldMore(t.names, records, visit.names[i], w.records); }
      t := t.(names := t.names + [visit.names[i]]);
    }
    assert visit.names[..|visit.names|] == visit.names;
    if !visit.ended {
      ok, w := Accept(w, Gap("directory_enumeration_incomplete"), stop);
      v := if ok then EndedEarly else Halted;
      return;
    }
    return GoOn, w, t;
  }

  lemma NothingPushed(current: Directory, names: seq<Found>, stack: seq<Directory>)
    ensures PushedFrom(current, names, stack, stack)
  {
  }

  lemma PushedMore(current: Directory, names: seq<Found>, i: nat, first: seq<Directory>, before: seq<Directory>,
                   after: seq<Directory>)
    requires i < |names| && PushedFrom(current, names, first, before) && PushedFrom(current, [names[i]], before, after)
    ensures PushedFrom(current, names, first, after)
  {
    forall k | |first| <= k < |after| ensures NamedIn(current, names, after[k]) {
      if k < |before| { assert NamedIn(current, names, before[k]); } else {
        assert NamedIn(current, [names[i]], after[k]);
      }
    }
  }

  lemma EmitTallied(w: Walk, names: seq<Found>, root: Identity, r: Record)
    requires Tallied(w, names, root)
    ensures Tallied(Emit(w, r), names, root)
  {
  }

  lemma TakenCovers(w: Walk, t: Trail, limits: Limits)
    requires Covers(w, t, limits) && w.stack != []
    ensures var last := |w.stack| - 1;
      Covers(w.(stack := w.stack[..last]), t.(taken := t.taken + [w.stack[last].identity]), limits)
  {
    var p := w.(stack := w.stack[..|w.stack| - 1]);
    if w.coverage {
      forall i | 0 <= i < |t.names| ensures Accounted(t.names[i], p, limits) {
        assert Accounted(t.names[i], w, limits);
      }
    }
  }

  ghost function Ids(dirs: seq<Directory>): seq<Identity> {
    seq(|dirs|, i requires 0 <= i < |dirs| => dirs[i].identity)
  }

  /** All names the listings of the directories yield, in order. */
  ghost function AllNames(dirs: seq<Directory>, visit: Directory -> Visit): seq<Found> {
    if dirs == [] then [] else AllNames(dirs[..|dirs| - 1], visit) + NamesIn(visit(dirs[|dirs| - 1]))
  }

  lemma NamesOf(dirs: seq<Directory>, d: Directory, visit: Directory -> Visit)
    ensures AllNames(dirs + [d], visit) == AllNames(dirs, visit) + NamesIn(visit(d))
  {
    assert (dirs + [d])[..|dirs|] == dirs;
  }

  /** The directories are the root and directories named in listings of earlier ones, each one level
      deeper than the one that names it and within the depth bound. */
  ghost predicate Descends(dirs: seq<Directory>, rootIdentity: Identity, visit: Directory -> Visit, limits: Limits) {
    && (dirs != [] ==> dirs[0] == Directory("", 0, rootIdentity))
    && (forall i :: 0 < i < |dirs| ==> NamedEarlier(dirs[..i], visit, dirs[i]))
    && (forall i :: 0 <= i < |dirs| ==> dirs[i].depth <= limits.maxDepth)
  }

  ghost predicate NamedEarlier(dirs: seq<Directory>, visit: Directory -> Visit, d: Directory) {
    exists j :: 0 <= j < |dirs| && NamedIn(dirs[j], NamesIn(visit(dirs[j])), d)
  }

  /** Why a walk that nobody stopped ended early: the directories taken up hold more names or name more
      directories than the bounds allow, or one listing broke off, or the root was replaced. */
  ghost predicate Overwhelmed(dirs: seq<Directory>, rootIdentity: Identity, visit: Directory -> Visit, limits: Limits) {
    || Overflow(AllNames(dirs, visit), rootIdentity, limits)
    || exists i :: 0 <= i < |dirs| && Broke(visit(dirs[i]))
  }

  /** Some directory taken up costs the walk its coverage. */
  ghost predicate Blemished(dirs: seq<Directory>, rootIdentity: Identity, visit: Directory -> Visit, limits: Limits) {
    exists i :: 0 <= i < |dirs| && BlemishedAt(dirs, i, rootIdentity, visit, limits)
  }

  ghost predicate BlemishedAt(dirs: seq<Directory>, i: nat, rootIdentity: Identity, visit: Directory -> Visit,
                              limits: Limits)
    requires i < |dirs|
  {
    Lapses(dirs[i], visit(dirs[i]), AllNames(dirs[..i], visit), rootIdentity, limits)
  }

  lemma BlemishStep(dirs: seq<Directory>, d: Directory, rootIdentity: Identity, visit: Directory -> Visit,
                    limits: Limits)
    ensures Blemished(dirs + [d], rootIdentity, visit, limits) <==>
      || Blemished(dirs, rootIdentity, visit, limits)
      || Lapses(d, visit(d), AllNames(dirs, visit), rootIdentity, limits)
  {
    hide Lapses, AllNames;
    var more := dirs + [d];
    assert more[..|dirs|] == dirs;
    forall i | 0 <= i < |dirs|
      ensures BlemishedAt(more, i, rootIdentity, visit, limits) <==> BlemishedAt(dirs, i, rootIdentity, visit, limits)
    {
      assert more[..i] == dirs[..i];
    }
    if Lapses(d, visit(d), AllNames(dirs, visit), rootIdentity, limits) {
      assert BlemishedAt(more, |dirs|, rootIdentity, visit, limits);
    }
  }

  ghost predicate Broke(v: Visit) {
    v.RootChanged? || (v.Listing? && !v.ended)
  }

  /** Every directory still to be taken up is the root, or named by one already taken up. */
  ghost predicate StackKnown(w: Walk, dirs: seq<Directory>, rootIdentity: Identity, visit: Directory -> Visit) {
    forall i :: 0 <= i < |w.stack| ==>
      NamedEarlier(dirs, visit, w.stack[i]) || (dirs == [] && w.stack[i] == Directory("", 0, rootIdentity))
  }

  lemma StackStaysKnown(w: Walk, dirs: seq<Directory>, rootIdentity: Identity, visit: Directory -> Visit, after: Walk)
    requires StackKnown(w, dirs, rootIdentity, visit) && w.stack != [] && (dirs == [] ==> |w.stack| == 1)
    requires var current := w.stack[|w.stack| - 1];
      PushedFrom(current, NamesIn(visit(current)), w.stack[..|w.stack| - 1], after.stack)
    ensures StackKnown(after, dirs + [w.stack[|w.stack| - 1]], rootIdentity, visit)
  {
    hide NamedIn;
    var last := |w.stack| - 1;
    var current := w.stack[last];
    var more := dirs + [current];
    forall i | 0 <= i < |after.stack| ensures NamedEarlier(more, visit, after.stack[i]) {
      if i < last {
        assert after.stack[i] == w.stack[i];
        var j :| 0 <= j < |dirs| && NamedIn(dirs[j], NamesIn(visit(dirs[j])), w.stack[i]);
        assert more[j] == dirs[j];
      } else {
        assert more[|dirs|] == current && NamedIn(current, NamesIn(visit(current)), after.stack[i]);
      }
    }
  }

  lemma DescendsMore(dirs: seq<Directory>, rootIdentity: Identity, visit: Directory -> Visit, limits: Limits,
                     d: Directory)
    requires Descends(dirs, rootIdentity, visit, limits) && d.depth <= limits.maxDepth
    requires NamedEarlier(dirs, visit, d) || (dirs == [] && d == Directory("", 0, rootIdentity))
    ensures Descends(dirs + [d], rootIdentity, visit, limits)
  {
    hide NamedEarlier;
    var more := dirs + [d];
    forall i | 0 < i < |more| ensures NamedEarlier(more[..i], visit, more[i]) {
      if i < |dirs| { assert more[..i] == dirs[..i]; } else { assert more[..i] == dirs; }
    }
    if dirs == [] && d != Directory("", 0, rootIdentity) { NobodyNames(visit, d); }
  }

  lemma NobodyNames(visit: Directory -> Visit, d: Directory)
    ensures !NamedEarlier([], visit, d)
  {
  }

  ghost predicate AllExplored(dirs: seq<Directory>, visit: Directory -> Visit, names: seq<Found>) {
    forall i :: 0 <= i < |dirs| ==> Explored(visit(dirs[i]), names)
  }

  /** What a claim of complete coverage means, told by the file system alone: each directory was
      listed to its end, every name in them has its candidate record and, in recursive mode, every
      directory named in them is one of them. */
  ghost predicate WholeTree(records: seq<Record>, dirs: seq<Directory>, visit: Directory -> Visit, limits: Limits) {
    && Clean(records) && dirs != []
    && (forall i :: 0 <= i < |dirs| ==>
          visit(dirs[i]).NothingFound? || (visit(dirs[i]).Listing? && visit(dirs[i]).ended))
    && (forall i, f :: 0 <= i < |dirs| && f in NamesIn(visit(dirs[i])) && f.Found? ==>
        Candidate(f.relative) in records && (limits.recursive && f.directory ==> f.identity in Ids(dirs)))
  }

  lemma FinishedMeans(w: Walk, t: Trail, limits: Limits, dirs: seq<Directory>, visit: Directory -> Visit)
    requires Once(w, t, limits) && Covers(w, t, limits) && w.stack == [] && t.taken == Ids(dirs)
    requires dirs != [] && (w.coverage ==> AllExplored(dirs, visit, t.names))
    ensures w.coverage <==> Clean(w.records)
    ensures w.coverage ==> WholeTree(w.records, dirs, visit, limits)
    ensures |w.visited| <= limits.maxDirectories && w.candidates <= limits.maxCandidates
  {
    assert Identities(w.stack) == {};
    if w.coverage {
      forall i, f | 0 <= i < |dirs| && f in NamesIn(visit(dirs[i])) && f.Found?
        ensures Candidate(f.relative) in w.records && (limits.recursive && f.directory ==> f.identity in Ids(dirs))
      {
        assert Explored(visit(dirs[i]), t.names);
        assert f in t.names;
        assert Accounted(f, w, limits);
      }
      forall i | 0 <= i < |dirs|
        ensures visit(dirs[i]).NothingFound? || (visit(dirs[i]).Listing? && visit(dirs[i]).ended)
      {
        assert Explored(visit(dirs[i]), t.names);
      }
    }
  }

  lemma ExploreNext(dirs: seq<Directory>, current: Directory, visit: Directory -> Visit, names: seq<Found>,
                    more: seq<Found>)
    requires AllExplored(dirs, visit, names) && names <= more && Explored(visit(current), more)
    ensures AllExplored(dirs + [current], visit, more)
  {
    forall i | 0 <= i < |dirs| ensures Explored(visit(dirs[i]), more) { assert Explored(visit(dirs[i]), names); }
  }

  /** The baseline walk. It terminates on every directory graph and every behaviour of the file
      system and takes each directory identity up at most once, starting from the root, within the
      bounds. It ends with a manifest unless somebody stops it or a bound, a broken listing or a
      replaced root really is in the way; the manifest claims coverage exactly when no record
      admits a gap, exactly when no directory taken up or name in it is flawed, and then the claim is
      true of the whole tree below the root. */
  method Baseline(rootIdentity: Identity, limits: Limits, visit: Directory -> Visit, stop: nat -> bool)
    returns (records: seq<Record>, manifest: Option<Record>, ghost dirs: seq<Directory>, ghost looks: nat)
    requires limits.maxDirectories > 0
    ensures manifest.Some? ==> manifest.value.Manifest?
    ensures manifest.Some? ==> (manifest.value.coverageComplete <==> Clean(records))
    ensures manifest.Some? && manifest.value.coverageComplete ==> WholeTree(records, dirs, visit, limits)
    ensures manifest.Some? ==> (manifest.value.coverageComplete <==> !Blemished(dirs, rootIdentity, visit, limits))
    ensures NoRepeats(Ids(dirs)) && |dirs| <= limits.maxDirectories && Descends(dirs, rootIdentity, visit, limits)
    ensures manifest.Some? ==>
      dirs != [] && manifest.value.directories == |dirs| && manifest.value.candidates <= limits.maxCandidates
    ensures manifest.Some? ==> manifest.value.candidates == CountFound(AllNames(dirs, visit))
    ensures manifest.Some? ==> AllTold(AllNames(dirs, visit), records)
    ensures manifest.Some? ==> Silent(stop, looks) && looks > |dirs| + |AllNames(dirs, visit)|
    ensures manifest.None? && Unstopped(stop) ==> EndsInGap(records) && Overwhelmed(dirs, rootIdentity, visit, limits)
  {
    hide Once, Covers, AllExplored, Tallied, StackKnown, Descends, Overflow, Unstopped, AllNames, Blemished, Lapses,
      AllTold, CountFound, Silent;
    var w := Walk([Directory("", 0, rootIdentity)], {rootIdentity}, 0, true, [], 0);
    ghost var t := Trail([], []);
    dirs := [];
    BaselineStarts(rootIdentity, limits, visit);
    if stop(0) {
      NotUnstopped(stop, 0);
      return [], None, dirs, 1;
    }
    w := w.(records := [Begin], asked := 1);
    while w.stack != []
      invariant Once(w, t, limits) && Covers(w, t, limits) && Tallied(w, t.names, rootIdentity) && t.taken == Ids(dirs)
      invariant w.coverage ==> AllExplored(dirs, visit, t.names)
      invariant w.coverage <==> !Blemished(dirs, rootIdentity, visit, limits)
      invariant Descends(dirs, rootIdentity, visit, limits) && StackKnown(w, dirs, rootIdentity, visit)
      invariant t.names == AllNames(dirs, visit) && (dirs == [] ==> |w.stack| == 1)
      invariant AllTold(t.names, w.records) && Silent(stop, w.asked) && w.asked > |dirs| + |t.names|
      decreases limits.maxDirectories + |w.stack| - |w.visited|
    {
      VisitedBound(w, t, limits);
      SilentMore(stop, w.asked);
      NotUnstopped(stop, w.asked);
      if stop(w.asked) { return w.records, None, dirs, w.asked; }
      var current := w.stack[|w.stack| - 1];
      TopKnown(w, t, limits, dirs, rootIdentity, visit);
      DescendsMore(dirs, rootIdentity, visit, limits, current);
      PopOnce(w, t, limits);
      TakenCovers(w, t, limits);
      ghost var u, before, earlier := t.(taken := t.taken + [current.identity]), dirs, w;
      dirs := dirs + [current];
      NamesOf(before, current, visit);
      BlemishStep(before, current, rootIdentity, visit, limits);
      assert u.taken == Ids(dirs);
      w := w.(stack := w.stack[..|w.stack| - 1], asked := w.asked + 1);
      var v;
      Popped(earlier, w, u, limits, rootIdentity);
      VisitedBound(w, u, limits);
      v, w, t := Enumerate(current, visit(current), rootIdentity, limits, stop, w, u);
      if v != GoOn {
        Overwhelms(before, current, rootIdentity, visit, limits, u.names);
        return w.records, None, dirs, w.asked;
      }
      StackStaysKnown(earlier, before, rootIdentity, visit, w);
      if w.coverage { ExploreNext(before, current, visit, u.names, t.names); }
    }
    FinishedMeans(w, t, limits, dirs, visit);
    TalliedCount(w, t.names, rootIdentity);
    VisitedBound(w, t, limits);
    SilentMore(stop, w.asked);
    NotUnstopped(stop, w.asked);
    if stop(w.asked) { return w.records, None, dirs, w.asked; }
    return w.records, Some(Manifest(w.coverage, w.candidates, |w.visited|)), dirs, w.asked + 1;
  }

  lemma TalliedCount(w: Walk, names: seq<Found>, root: Identity)
    requires Tallied(w, names, root)
    ensures w.candidates == CountFound(names)
  {
  }

  lemma NotUnstopped(stop: nat -> bool, n: nat)
    ensures stop(n) ==> !Unstopped(stop)
  {
  }

  lemma TopKnown(w: Walk, t: Trail, limits: Limits, dirs: seq<Directory>, rootIdentity: Identity,
                 visit: Directory -> Visit)
    requires StackKnown(w, dirs, rootIdentity, visit) && w.stack != [] && Once(w, t, limits)
    ensures var d := w.stack[|w.stack| - 1];
      && d.depth <= limits.maxDepth
      && (NamedEarlier(dirs, visit, d) || (dirs == [] && d == Directory("", 0, rootIdentity)))
  {
    hide NamedEarlier, Identities;
  }

  /** Popping the top and looking for a stop request keeps what the walk keeps. */
  lemma Popped(w: Walk, p: Walk, t: Trail, limits: Limits, root: Identity)
    requires w.stack != [] && p == w.(stack := w.stack[..|w.stack| - 1], asked := p.asked)
    requires Once(w.(stack := p.stack), t, limits) && Covers(w.(stack := p.stack), t, limits)
    requires Tallied(w, t.names, root)
    ensures Once(p, t, limits) && Covers(p, t, limits) && Tallied(p, t.names, root)
  {
    AskKeeps(w.(stack := p.stack), t, limits, p.asked);
  }

  lemma Overwhelms(dirs: seq<Directory>, current: Directory, rootIdentity: Identity, visit: Directory -> Visit,
                   limits: Limits, names: seq<Found>)
    requires names == AllNames(dirs, visit)
    ensures Stops(visit(current), names, rootIdentity, limits) ==>
      Overwhelmed(dirs + [current], rootIdentity, visit, limits)
  {
    hide Overflow, AllNames;
    NamesOf(dirs, current, visit);
    assert (dirs + [current])[|dirs|] == current;
  }

  lemma VisitedBound(w: Walk, t: Trail, limits: Limits)
    requires Once(w, t, limits)
    ensures |t.taken| + |w.stack| == |w.visited| <= limits.maxDirectories && NoRepeats(t.taken)
  {
    CountIdentities(w.stack);
    CountTaken(t.taken);
    var taken := set x | x in t.taken;
    assert w.visited == Identities(w.stack) + taken;
    forall x | x in Identities(w.stack) ensures x !in taken {
      var i := WhichDirectory(w.stack, x);
    }
  }

  lemma {:induction false} WhichDirectory(stack: seq<Directory>, x: Identity) returns (i: nat)
    requires x in Identities(stack)
    ensures i < |stack| && stack[i].identity == x
  {
    if stack[|stack| - 1].identity == x {
      i := |stack| - 1;
    } else {
      i := WhichDirectory(stack[..|stack| - 1], x);
    }
  }

  lemma {:induction false} CountIdentities(stack: seq<Directory>)
    requires DistinctIdentities(stack)
    ensures |Identities(stack)| == |stack|
  {
    if stack != [] {
      var rest, last := stack[..|stack| - 1], stack[|stack| - 1].identity;
      CountIdentities(rest);
      if last in Identities(rest) {
        var i := WhichDirectory(rest, last);
      }
    }
  }

  lemma {:induction false} CountTaken(taken: seq<Identity>)
    requires NoRepeats(taken)
    ensures |set x | x in taken| == |taken|
  {
    if taken != [] {
      var rest, last := taken[..|taken| - 1], taken[|taken| - 1];
      CountTaken(rest);
      assert (set x | x in taken) == (set x | x in rest) + {last} by { assert taken == rest + [last]; }
    } else {
      assert (set x | x in taken) == {};
    }
  }

  lemma BaselineStarts(rootIdentity: Identity, limits: Limits, visit: Directory -> Visit)
    requires limits.maxDirectories > 0
    ensures var w := Walk([Directory("", 0, rootIdentity)], {rootIdentity}, 0, true, [Begin], 1);
      && Once(w, Trail([], []), limits) && Covers(w, Trail([], []), limits) && Tallied(w, [], rootIdentity)
      && StackKnown(w, [], rootIdentity, visit)
    ensures !Blemished([], rootIdentity, visit, limits)
    ensures AllExplored([], visit, []) && Descends([], rootIdentity, visit, limits) && AllNames([], visit) == []
    ensures AllTold([], [Begin])
    ensures forall stop: nat -> bool :: !stop(0) ==> Silent(stop, 1)
  {
    var stack := [Directory("", 0, rootIdentity)];
    assert stack[..0] == [];
  }

  // ----- The shared hashing budget -----

  datatype HashState = FileTooLarge | BudgetExceeded | PathChanged | Unavailable | ChangedDuringHash | Complete

  const CHUNK: nat := 64 * 1024

  /** What is left of a file after so many native reads of at most one chunk each. */
  ghost function Unread(size: nat, fetch: (nat, nat) -> nat, calls: nat): nat
    requires forall i, want :: fetch(i, want) <= want
  {
    if calls == 0 then size
    else Unread(size, fetch, calls - 1) - fetch(calls - 1, Wanted(Unread(size, fetch, calls - 1)))
  }

  ghost function Wanted(rest: nat): nat {
    if rest < 65536 then rest else 65536
  }

  /** So many reads were made, each after the path was found unchanged and each with some bytes. */
  ghost predicate ReadOn(size: nat, fetch: (nat, nat) -> nat, moves: nat -> bool, calls: nat)
    requires forall i, want :: fetch(i, want) <= want
  {
    forall k: nat :: k < calls ==>
      !moves(k) && Unread(size, fetch, k) > 0 && fetch(k, Wanted(Unread(size, fetch, k))) > 0
  }

  /** Hashes one file in chunks against the budget shared by the whole scan. `fetch` says what each
      native read of at most so many bytes returns, `moves` whether the path no longer matches before a read, and
      `stable` whether the file and its path are the same afterwards. Exactly the bytes read leave the budget,
      which is never overdrawn, and a digest is reported exactly for the whole unchanged file. */
  method HashFile(size: nat, maxFileBytes: nat, budget: nat, fetch: (nat, nat) -> nat, moves: nat -> bool, stable: bool)
    returns (state: HashState, bytesRead: nat, left: nat, calls: nat)
    requires forall i, want :: fetch(i, want) <= want
    ensures bytesRead + left == budget && bytesRead <= size
    ensures state == FileTooLarge <==> size > maxFileBytes
    ensures state == BudgetExceeded <==> size <= maxFileBytes && size > budget
    ensures state == FileTooLarge || state == BudgetExceeded ==> bytesRead == 0 && calls == 0
    ensures ReadOn(size, fetch, moves, calls) && bytesRead == size - Unread(size, fetch, calls)
    ensures state == Complete ==> stable && bytesRead == size && forall k: nat :: k < calls ==> !moves(k)
    ensures state == ChangedDuringHash ==> !stable && bytesRead == size
    ensures state == PathChanged ==> bytesRead < size && moves(calls)
    ensures state == Unavailable ==>
      bytesRead < size && !moves(calls) && fetch(calls, Wanted(Unread(size, fetch, calls))) == 0
  {
    bytesRead, left, calls := 0, budget, 0;
    if size > maxFileBytes { return FileTooLarge, 0, budget, 0; }
    if size > budget { return BudgetExceeded, 0, budget, 0; }
    var remaining: nat := size;
    while remaining != 0
      invariant remaining + bytesRead == size && bytesRead + left == budget && remaining <= left
      invariant remaining == Unread(size, fetch, calls) && ReadOn(size, fetch, moves, calls)
      decreases remaining
    {
      if moves(calls) { return PathChanged, bytesRead, left, calls; }
      var want := if CHUNK < remaining then CHUNK else remaining;
      var received := fetch(calls, want);
      if received == 0 { return Unavailable, bytesRead, left, calls; }
      remaining, left, bytesRead := remaining - received, left - received, bytesRead + received;
      calls := calls + 1;
    }
    state := if stable then Complete else ChangedDuringHash;
  }
}
