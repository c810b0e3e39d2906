/** The compare-and-swap protocol of one event source: a record and the cursor that follows it
    are accepted together, against the revision the client expects. Revision n is the state
    after n accepted entries. */
module SourceLog {

  datatype Entry<R, C> = Entry(record: R, cursor: C)

  /** What one commit attempt may do to the accepted entries: append its own entry at exactly
      the expected revision, or nothing; and it reports success only when its entry is the one
      accepted at that revision. A failure report leaves open whether the entry was appended. */
  ghost predicate Commits<R, C>(log: seq<Entry<R, C>>, e: Entry<R, C>, expected: nat, accepted: bool,
                                log': seq<Entry<R, C>>) {
    && (log' == log || (|log| == expected && log' == log + [e]))
    && (accepted ==> expected < |log'| && log'[expected] == e)
  }

  datatype Attempt<R, C> = Attempt(entry: Entry<R, C>, expected: nat, accepted: bool)

  /** Any interleaving of attempts by any number of clients, starting from nothing. */
  ghost predicate IsRun<R, C>(logs: seq<seq<Entry<R, C>>>, attempts: seq<Attempt<R, C>>) {
    && |logs| == |attempts| + 1 && logs[0] == []
    && forall i :: 0 <= i < |attempts| ==>
        Commits(logs[i], attempts[i].entry, attempts[i].expected, attempts[i].accepted, logs[i + 1])
  }

  lemma {:induction false} RunGrows<R, C>(logs: seq<seq<Entry<R, C>>>, attempts: seq<Attempt<R, C>>, i: nat, j: nat)
    requires IsRun(logs, attempts) && i <= j < |logs|
    ensures logs[i] <= logs[j]
  {
    if i < j {
      RunGrows(logs, attempts, i, j - 1);
      assert Commits(logs[j - 1], attempts[j - 1].entry, attempts[j - 1].expected, attempts[j - 1].accepted, logs[j]);
    }
  }

  /** Whatever a client was told was accepted stays accepted, at the revision it was told. */
  lemma AcceptedIsFinal<R, C>(logs: seq<seq<Entry<R, C>>>, attempts: seq<Attempt<R, C>>, i: nat, j: nat)
    requires IsRun(logs, attempts) && i < |attempts| && attempts[i].accepted && i < j < |logs|
    ensures attempts[i].expected < |logs[j]| && logs[j][attempts[i].expected] == attempts[i].entry
  {
    assert Commits(logs[i], attempts[i].entry, attempts[i].expected, attempts[i].accepted, logs[i + 1]);
    RunGrows(logs, attempts, i + 1, j);
  }

  /** Racing clients that expect the same revision cannot both be told yes for different entries. */
  lemma OneWinner<R, C>(logs: seq<seq<Entry<R, C>>>, attempts: seq<Attempt<R, C>>, i: nat, j: nat)
    requires IsRun(logs, attempts) && i < |attempts| && j < |attempts|
    requires attempts[i].accepted && attempts[j].accepted && attempts[i].expected == attempts[j].expected
    ensures attempts[i].entry == attempts[j].entry
  {
    AcceptedIsFinal(logs, attempts, i, |attempts|);
    AcceptedIsFinal(logs, attempts, j, |attempts|);
  }

  /** Revisions are 1..n without gaps: entry k was appended by exactly one attempt, which expected revision k. */
  lemma {:induction false} EveryRevisionHasItsAttempt<R, C>(logs: seq<seq<Entry<R, C>>>, attempts: seq<Attempt<R, C>>,
          k: nat)
    returns (i: nat)
    requires IsRun(logs, attempts) && k < |logs[|attempts|]|
    ensures i < |attempts| && attempts[i].expected == k && attempts[i].entry == logs[|attempts|][k]
    ensures |logs[i]| == k && |logs[i + 1]| == k + 1
    ensures forall j :: 0 <= j < |attempts| && j != i ==> !(|logs[j]| == k && |logs[j + 1]| == k + 1)
  {
    var n := |attempts| - 1;
    if n < 0 {
      assert false;
    } else {
      assert Commits(logs[n], attempts[n].entry, attempts[n].expected, attempts[n].accepted, logs[n + 1]);
      if k < |logs[n]| {
        i := EveryRevisionHasItsAttempt(logs[..n + 1], attempts[..n], k);
        assert attempts[i] == attempts[..n][i] && logs[i] == logs[..n + 1][i] && logs[i + 1] == logs[..n + 1][i + 1];
        forall j | 0 <= j < |attempts| && j != i ensures !(|logs[j]| == k && |logs[j + 1]| == k + 1) {
          if j < n { assert logs[j] == logs[..n + 1][j] && logs[j + 1] == logs[..n + 1][j + 1]; }
        }
      } else {
        i := n;
        forall j | 0 <= j < |attempts| && j != i ensures !(|logs[j]| == k && |logs[j + 1]| == k + 1) {
          RunGrows(logs, attempts, j + 1, n);
        }
      }
    }
  }

  /** A client that repeats an attempt after it was accepted, or after it took effect and was
      reported as failed, changes nothing, however the log has grown since. */
  lemma RetryIsIdempotent<R, C>(logs: seq<seq<Entry<R, C>>>, attempts: seq<Attempt<R, C>>, i: nat, j: nat)
    requires IsRun(logs, attempts) && i < j < |attempts| && (attempts[i].accepted || logs[i + 1] != logs[i])
    requires attempts[j].entry == attempts[i].entry && attempts[j].expected == attempts[i].expected
    ensures logs[j + 1] == logs[j]
  {
    var a, c := attempts[i], attempts[j];
    assert Commits(logs[i], a.entry, a.expected, a.accepted, logs[i + 1]);
    RunGrows(logs, attempts, i + 1, j);
    assert Commits(logs[j], c.entry, c.expected, c.accepted, logs[j + 1]);
  }

  lemma RunExtends<R, C>(logs: seq<seq<Entry<R, C>>>, attempts: seq<Attempt<R, C>>, a: Attempt<R, C>,
                         log: seq<Entry<R, C>>)
    requires IsRun(logs, attempts) && Commits(logs[|attempts|], a.entry, a.expected, a.accepted, log)
    ensures IsRun(logs + [log], attempts + [a])
  {
  }
}
