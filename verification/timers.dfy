/**
 The host's timer queue, as far as `setTimeout` is concerned: pending callbacks
 ordered by the absolute time they fall due, callbacks due at the same time
 kept in the order they were scheduled.
 */
module Timers {

  /** A callback `task` scheduled to run at absolute time `due` (milliseconds). */
  datatype Timer<T> = Timer(due: nat, task: T)

  /** Due times never decrease along the queue. */
  predicate Sorted<T>(q: seq<Timer<T>>)
  {
    forall i, j :: 0 <= i < j < |q| ==> q[i].due <= q[j].due
  }

  /** True when no pending callback falls due strictly before `time`. */
  predicate NoneDueBefore<T>(q: seq<Timer<T>>, time: nat)
  {
    forall k :: 0 <= k < |q| ==> time <= q[k].due
  }

  /** The number of leading timers that fall due no later than `due`. */
  function InsertionPoint<T>(q: seq<Timer<T>>, due: nat): (k: nat)
    ensures k <= |q|
    ensures forall j :: 0 <= j < k ==> q[j].due <= due
    ensures k < |q| ==> due < q[k].due
    ensures Sorted(q) ==> forall j :: k <= j < |q| ==> due < q[j].due
  {
    if |q| == 0 || due < q[0].due then 0
    else 1 + InsertionPoint(q[1..], due)
  }

  /**
   Adds `t` to the queue, behind every timer due no later than it (so equal
   due times fire first-in first-out) and ahead of every timer due later.
   */
  function Schedule<T>(q: seq<Timer<T>>, t: Timer<T>): (r: seq<Timer<T>>)
    ensures |r| == |q| + 1
    ensures multiset(r) == multiset(q) + multiset{t}
    ensures Sorted(q) ==> Sorted(r)
    ensures Sorted(q) ==> forall j :: 0 <= j < |q| && q[j].due <= t.due ==> r[j] == q[j]
    ensures Sorted(q) ==> forall j :: 0 <= j < |q| && t.due < q[j].due ==> r[j + 1] == q[j]
  {
    var k := InsertionPoint(q, t.due);
    SpliceContents(q, t, k);
    SpliceIndices(q, t, k);
    SpliceSorted(q, t, k);
    q[..k] + [t] + q[k..]
  }

  /** Splicing `t` into the queue adds exactly `t` to its contents. */
  lemma SpliceContents<T>(q: seq<Timer<T>>, t: Timer<T>, k: nat)
    requires k <= |q|
    ensures multiset(q[..k] + [t] + q[k..]) == multiset(q) + multiset{t}
  {
    calc {
      multiset(q[..k] + [t] + q[k..]);
      multiset(q[..k] + [t]) + multiset(q[k..]);
      multiset(q[..k]) + multiset{t} + multiset(q[k..]);
      { assert q == q[..k] + q[k..]; }
      multiset(q) + multiset{t};
    }
  }

  /** Where each old timer lands once `t` is spliced in at position `k`. */
  lemma SpliceIndices<T>(q: seq<Timer<T>>, t: Timer<T>, k: nat)
    requires k <= |q|
    ensures (q[..k] + [t] + q[k..])[k] == t
    ensures forall j :: 0 <= j < k ==> (q[..k] + [t] + q[k..])[j] == q[j]
    ensures forall j :: k <= j < |q| ==> (q[..k] + [t] + q[k..])[j + 1] == q[j]
  {
  }

  /** Splicing `t` in at its insertion point keeps a sorted queue sorted. */
  lemma SpliceSorted<T>(q: seq<Timer<T>>, t: Timer<T>, k: nat)
    requires k == InsertionPoint(q, t.due)
    ensures Sorted(q) ==> Sorted(q[..k] + [t] + q[k..])
  {
    var r := q[..k] + [t] + q[k..];
    SpliceIndices(q, t, k);
    forall i, j | Sorted(q) && 0 <= i < j < |r| ensures r[i].due <= r[j].due {
      if i < k && k < j {
        assert r[i] == q[i] && r[j] == q[j - 1];
      } else if i == k {
        assert r[j] == q[j - 1];
      } else if j == k {
        assert r[i] == q[i];
      } else if j < k {
        assert r[i] == q[i] && r[j] == q[j];
      } else {
        assert r[i] == q[i - 1] && r[j] == q[j - 1];
      }
    }
  }

  /** The head of a sorted queue is the timer that falls due first. */
  lemma HeadFallsDueFirst<T>(q: seq<Timer<T>>)
    requires Sorted(q) && |q| > 0
    ensures NoneDueBefore(q, q[0].due)
  {
  }

  /** Scheduling into an empty queue, or behind the only timer, appends. */
  lemma ScheduleAppends<T>(q: seq<Timer<T>>, t: Timer<T>)
    requires |q| <= 1
    requires forall k :: 0 <= k < |q| ==> q[k].due <= t.due
    ensures Schedule(q, t) == q + [t]
  {
    assert InsertionPoint(q, t.due) == |q|;
  }
}
