/** The fixed-capacity queue between native network-change callbacks and the draining consumer,
    with its loss accounting and its stop states. */
module NotificationRing {

  datatype Notification = Notification(sequence: nat, payload: string)

  class NotificationSource {
    const queue: array<Notification>
    var head: nat
    var size: nat
    var nextSequence: nat
    var accepted: nat
    var droppedFull: nat
    var rejectedStopping: nat
    var callbackErrors: nat
    /** How many of the three native subscriptions are open. */
    var handles: nat
    var started: bool
    var starting: bool
    var stopping: bool
    var stopped: bool
    var snapshotReady: bool
    var snapshots: seq<string>
    /** The sequence numbers drained so far. */
    ghost var drained: seq<nat>

    ghost function Queued(): seq<Notification>
      reads this, queue
      requires queue.Length > 0 && head < queue.Length && size <= queue.Length
    {
      Ring(queue[..], head, size)
    }

    /** Every callback is counted exactly once, and drained and queued numbers go up. */
    ghost predicate Valid()
      reads this, queue
    {
      && 0 < queue.Length && head < queue.Length && size <= queue.Length
      && nextSequence == accepted + droppedFull + rejectedStopping + callbackErrors
      && accepted == |drained| + size
      && Rising(drained + Numbers(Queued()), nextSequence)
      && handles <= 3 && (stopped ==> handles == 0)
    }

    ghost predicate Idle()
      reads this
    {
      !started && !starting && !stopping && !stopped && handles == 0
    }

    constructor (capacity: nat, none: Notification)
      requires 0 < capacity <= 65536
      ensures Valid() && Idle() && Queued() == [] && drained == [] && fresh(queue) && queue.Length == capacity
    {
      queue := new Notification[capacity](_ => none);
      head, size, nextSequence, accepted, droppedFull, rejectedStopping, callbackErrors := 0, 0, 0, 0, 0, 0, 0;
      handles, started, starting, stopping, stopped := 0, false, false, false, false;
      snapshotReady, snapshots, drained := false, [], [];
    }

    /** A native callback: refused while stopping, an error when its row is too large, dropped when
        the queue is full, otherwise queued last. */
    method OnChange(payload: string, rowFits: bool)
      requires Valid()
      modifies this, queue
      ensures Valid() && drained == old(drained) && stopping == old(stopping) && stopped == old(stopped)
      ensures nextSequence == old(nextSequence) + 1 && snapshots == old(snapshots)
      ensures snapshotReady == old(snapshotReady) && handles == old(handles)
      ensures started == old(started) && starting == old(starting)
      ensures var taken := !old(stopping) && !old(stopped) && rowFits && old(size) < queue.Length;
        Queued() == old(Queued()) + if taken then [Notification(nextSequence, payload)] else []
      ensures rejectedStopping == old(rejectedStopping) + if old(stopping) || old(stopped) then 1 else 0
      ensures callbackErrors == old(callbackErrors) + if !old(stopping) && !old(stopped) && !rowFits then 1 else 0
      ensures var full := !old(stopping) && !old(stopped) && rowFits && old(size) == queue.Length;
        droppedFull == old(droppedFull) + if full then 1 else 0
    {
      hide Ring, Rising;
      ghost var before := Queued();
      nextSequence := nextSequence + 1;
      RisingBelow(drained + Numbers(before), nextSequence - 1, nextSequence);
      if stopping || stopped { rejectedStopping := rejectedStopping + 1; return; }
      if !rowFits { callbackErrors := callbackErrors + 1; return; }
      if size >= queue.Length { droppedFull := droppedFull + 1; return; }
      var n := Notification(nextSequence, payload);
      Wraps(head, queue.Length, size);
      RingPut(queue[..], head, size, n);
      queue[(head + size) % queue.Length] := n;
      size := size + 1;
      accepted := accepted + 1;
      NumbersAppend(before, n);
      RisingAppend(drained + Numbers(before), nextSequence - 1, nextSequence);
      assert drained + Numbers(before) + [nextSequence] == drained + (Numbers(before) + [nextSequence]);
    }

    /** Takes at most so many items: waiting snapshots first, then notifications in order. */
    method Drain(maximum: nat) returns (first: seq<string>, rest: seq<Notification>)
      requires Valid()
      modifies this, queue
      ensures Valid()
      ensures !old(snapshotReady) || maximum == 0 ==> first == [] && rest == []
      ensures old(snapshots) == first + snapshots && old(Queued()) == rest + Queued()
      ensures drained == old(drained) + Numbers(rest)
      ensures |first| + |rest| <= maximum
      ensures (|first| + |rest| < maximum && old(snapshotReady) ==> snapshots == [] && Queued() == [])
      ensures rest != [] ==> snapshots == []
      ensures accepted == old(accepted) && nextSequence == old(nextSequence)
    {
      hide Ring, Rising;
      first, rest := [], [];
      if maximum == 0 || !snapshotReady { return; }
      while snapshots != [] && |first| < maximum
        invariant Valid() && old(snapshots) == first + snapshots && |first| <= maximum
        invariant Queued() == old(Queued()) && drained == old(drained) && accepted == old(accepted)
        invariant nextSequence == old(nextSequence)
        decreases |snapshots|
      {
        first := first + [snapshots[0]];
        snapshots := snapshots[1..];
      }
      ghost var waiting := snapshots;
      while size > 0 && |first| + |rest| < maximum
        invariant Valid() && snapshots == waiting && |first| + |rest| <= maximum
        invariant old(Queued()) == rest + Queued() && drained == old(drained) + Numbers(rest)
        invariant accepted == old(accepted) && nextSequence == old(nextSequence)
        invariant rest != [] ==> snapshots == []
        invariant snapshots != [] ==> |first| == maximum
        decreases size
      {
        var n := TakeFirst();
        NumbersAppend(rest, n);
        rest := rest + [n];
      }
      RingEmpty(queue[..], head);
    }

    /** Removes the oldest notification. */
    method TakeFirst() returns (n: Notification)
      requires Valid() && size > 0
      modifies this`head, this`size, this`drained, queue
      ensures Valid() && old(Queued()) == [n] + Queued() && drained == old(drained) + [n.sequence]
      ensures size == old(size) - 1
    {
      hide Ring, Rising;
      ghost var before := Queued();
      n := queue[head];
      RingTake(queue[..], head, size, Notification(0, ""));
      Wraps(head, queue.Length, 1);
      queue[head] := Notification(0, "");
      head := (head + 1) % queue.Length;
      size := size - 1;
      NumbersPrepend(n, Queued());
      assert drained + ([n.sequence] + Numbers(Queued())) == drained + [n.sequence] + Numbers(Queued());
      drained := drained + [n.sequence];
    }

    /** Callbacks that arrive while subscriptions are being cancelled. */
    method RefuseAll(during: seq<string>)
      requires Valid() && stopping
      modifies this, queue
      ensures Valid() && Queued() == old(Queued()) && drained == old(drained) && accepted == old(accepted)
      ensures rejectedStopping == old(rejectedStopping) + |during|
      ensures stopping && stopped == old(stopped) && handles == old(handles) && snapshots == old(snapshots)
      ensures started == old(started) && starting == old(starting) && snapshotReady == old(snapshotReady)
    {
      hide Ring, Rising, Numbers;
      for i := 0 to |during|
        invariant Valid() && Queued() == old(Queued()) && drained == old(drained) && accepted == old(accepted)
        invariant rejectedStopping == old(rejectedStopping) + i
        invariant stopping && stopped == old(stopped) && handles == old(handles) && snapshots == old(snapshots)
        invariant started == old(started) && starting == old(starting) && snapshotReady == old(snapshotReady)
      {
        var fits: bool := *;
        OnChange(during[i], fits);
      }
    }

    /** Starting, once: `subscribed` of the three subscriptions succeed. Either all stand and the initial
        table snapshots wait to be drained, or an exception interrupts taking the snapshots and the
        source stays in its starting state, or a subscription fails and those already open are
        cancelled, `left` of them without success; callbacks that arrive `during` that are refused, and
        then the source is stopped, or stuck stopping. */
    method Start(subscribed: nat, left: nat, interrupted: bool, initial: seq<string>, during: seq<string>)
      returns (ok: bool)
      requires Valid() && left <= subscribed <= 3
      modifies this, queue
      ensures Valid() && (ok <==> old(Idle()) && subscribed == 3 && !interrupted)
      ensures !ok ==> snapshots == old(snapshots) && started == old(started)
      ensures ok ==>
        started && !starting && !stopping && !stopped && handles == 3 && snapshotReady && snapshots == initial
      ensures !old(Idle()) ==>
        handles == old(handles) && starting == old(starting) && snapshotReady == old(snapshotReady)
      ensures !old(Idle()) ==> stopping == old(stopping) && stopped == old(stopped)
      ensures old(Idle()) && subscribed < 3 ==>
        !starting && snapshotReady && handles == left && stopped == (left == 0) && stopping == (left > 0)
      ensures old(Idle()) && subscribed == 3 && interrupted ==>
        starting && handles == 3 && !stopping && !stopped && !Idle()
      ensures Queued() == old(Queued()) && drained == old(drained) && accepted == old(accepted)
      ensures var refusing := old(Idle()) && subscribed < 3;
        rejectedStopping == old(rejectedStopping) + if refusing then |during| else 0
    {
      hide Ring, Rising, Numbers;
      if started || starting || stopping || stopped || handles > 0 { return false; }
      starting := true;
      handles := subscribed;
      if subscribed < 3 {
        stopping := true;
        RefuseAll(during);
        handles := left;
        starting, stopped := false, handles == 0;
        stopping := !stopped;
        snapshotReady := true;
        return false;
      }
      if interrupted { return false; }
      snapshots, snapshotReady := initial, true;
      starting, started := false, true;
      return true;
    }

    /** Stopping refuses callbacks from here on, also those that arrive `during` the cancellation; it completes only
        when every native cancellation does, so a stopped source has no subscription that could still call back. */
    method Stop(left: nat, during: seq<string>)
      requires Valid() && left <= handles
      modifies this, queue
      ensures Valid() && Queued() == old(Queued()) && drained == old(drained) && accepted == old(accepted)
      ensures (stopped <==> old(stopped) || left == 0) && handles == (if old(stopped) then 0 else left)
      ensures stopping == (if old(stopped) then old(stopping) else !stopped)
      ensures rejectedStopping == old(rejectedStopping) + if old(stopped) then 0 else |during|
    {
      if stopped { return; }
      stopping := true;
      RefuseAll(during);
      handles := left;
      stopped := handles == 0;
      stopping := !stopped;
    }
  }

  ghost function Numbers(s: seq<Notification>): seq<nat> {
    seq(|s|, i requires 0 <= i < |s| => s[i].sequence)
  }

  /** Strictly increasing numbers, none above a bound. */
  ghost predicate Rising(s: seq<nat>, bound: nat) {
    (forall i, j :: 0 <= i < j < |s| ==> s[i] < s[j]) && forall i :: 0 <= i < |s| ==> s[i] <= bound
  }

  lemma RisingBelow(s: seq<nat>, bound: nat, higher: nat)
    requires Rising(s, bound) && bound <= higher
    ensures Rising(s, higher)
  {
  }

  lemma RisingAppend(s: seq<nat>, bound: nat, n: nat)
    requires Rising(s, bound) && bound < n
    ensures Rising(s + [n], n)
  {
  }

  lemma NumbersAppend(s: seq<Notification>, n: Notification)
    ensures Numbers(s + [n]) == Numbers(s) + [n.sequence]
  {
  }

  lemma NumbersPrepend(n: Notification, s: seq<Notification>)
    ensures Numbers([n] + s) == [n.sequence] + Numbers(s)
  {
  }

  /** The slot at a distance from the head, wrapping once. */
  ghost function Slot(head: nat, distance: nat, capacity: nat): nat
    requires head < capacity && distance <= capacity
  {
    if head + distance < capacity then head + distance else head + distance - capacity
  }

  /** What a ring holds, oldest first. */
  ghost function Ring(cells: seq<Notification>, head: nat, size: nat): seq<Notification>
    requires head < |cells| && size <= |cells|
  {
    if size == 0 then [] else Ring(cells, head, size - 1) + [cells[Slot(head, size - 1, |cells|)]]
  }

  lemma Wraps(head: nat, capacity: nat, distance: nat)
    requires head < capacity && distance <= capacity
    ensures (head + distance) % capacity == Slot(head, distance, capacity)
  {
    if head + distance >= capacity { Reduces(head + distance - capacity, capacity); }
  }

  lemma Reduces(r: nat, capacity: nat)
    requires r < capacity
    ensures (r + capacity) % capacity == r
  {
  }

  /** Writing a slot the ring does not use changes nothing in it. */
  lemma {:induction false} RingKeeps(cells: seq<Notification>, head: nat, size: nat, at: nat, n: Notification)
    requires head < |cells| && size <= |cells| && at < |cells|
    requires forall i: nat :: i < size ==> Slot(head, i, |cells|) != at
    ensures Ring(cells[at := n], head, size) == Ring(cells, head, size)
  {
    if size > 0 {
      RingKeeps(cells, head, size - 1, at, n);
      assert Slot(head, size - 1, |cells|) != at;
    }
  }

  lemma RingEmpty(cells: seq<Notification>, head: nat)
    requires head < |cells|
    ensures Ring(cells, head, 0) == []
  {
  }

  lemma RingPut(cells: seq<Notification>, head: nat, size: nat, n: Notification)
    requires head < |cells| && size < |cells|
    ensures Ring(cells[Slot(head, size, |cells|) := n], head, size + 1) == Ring(cells, head, size) + [n]
  {
    RingKeeps(cells, head, size, Slot(head, size, |cells|), n);
  }

  lemma {:induction false} RingTake(cells: seq<Notification>, head: nat, size: nat, blank: Notification)
    requires head < |cells| && 0 < size <= |cells|
    ensures Ring(cells, head, size) == [cells[head]] + Ring(cells[head := blank], Slot(head, 1, |cells|), size - 1)
  {
    var next, after := Slot(head, 1, |cells|), cells[head := blank];
    if size == 1 {
      assert Ring(cells, head, 0) == [];
    } else {
      RingTake(cells, head, size - 1, blank);
      assert Slot(next, size - 2, |cells|) == Slot(head, size - 1, |cells|) != head;
      assert Ring(after, next, size - 1) == Ring(after, next, size - 2) + [cells[Slot(head, size - 1, |cells|)]];
    }
  }
}
