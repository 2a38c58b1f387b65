// The order in which the scheduler hands out queued threads when it selects
// repeatedly and nothing is admitted in between. Each selection takes the
// entry at SelectIndex and removes it, exactly as FindNextThreadToRun's
// contract states; DrainOrder composes those steps.
module ServiceOrder {
  import opened Threads
  import opened Policy

  /** The entries of a ready list in the order repeated selection returns
      them; prios[i] is the priority of items[i]. */
  function DrainOrder<T>(code: int, items: seq<T>, prios: seq<int>): (r: seq<T>)
    requires |items| == |prios|
    ensures multiset(r) == multiset(items)
    decreases |items|
  {
    if items == [] then []
    else
      var k := SelectIndex(code, prios);
      [items[k]] + DrainOrder(code, RemoveAt(items, k), RemoveAt(prios, k))
  }

  /** Under codes up to 6 (first-come and SJF) the ready list is served from
      the head: threads leave in list order, so with appends only they leave
      in admission order. */
  lemma {:induction false} FifoDrain<T>(code: int, items: seq<T>, prios: seq<int>)
    requires |items| == |prios| && code <= 6
    ensures DrainOrder(code, items, prios) == items
    decreases |items|
  {
    if items != [] {
      RemoveAtFront(items);
      RemoveAtFront(prios);
      FifoDrain(code, items[1..], prios[1..]);
    }
  }

  ghost predicate NonDecreasing(s: seq<int>)
  {
    forall i, j :: 0 <= i < j < |s| ==> s[i] <= s[j]
  }

  /** Under codes above 6 priority values are drained in non-decreasing
      order. */
  lemma {:induction false} PriorityDrainAscending(code: int, prios: seq<int>)
    requires code > 6
    ensures NonDecreasing(DrainOrder(code, prios, prios))
    decreases |prios|
  {
    if prios != [] {
      var k := SelectIndex(code, prios);
      var rest := RemoveAt(prios, k);
      var tail := DrainOrder(code, rest, rest);
      PriorityDrainAscending(code, rest);
      forall x | x in tail ensures prios[k] <= x {
        assert x in multiset(tail);
        assert x in rest;
        var idx :| 0 <= idx < |rest| && rest[idx] == x;
        if idx < k {
          assert rest[idx] == prios[idx];
        } else {
          assert rest[idx] == prios[idx + 1];
        }
      }
      ConsNonDecreasing(prios[k], tail);
    }
  }

  /** Removing a thread removes its priority at the same position. */
  lemma PrioritiesRemoveAt(ts: seq<Thread>, k: nat)
    requires k < |ts|
    ensures Priorities(RemoveAt(ts, k)) == RemoveAt(Priorities(ts), k)
  {
    var l, r := Priorities(RemoveAt(ts, k)), RemoveAt(Priorities(ts), k);
    forall i | 0 <= i < |l| ensures l[i] == r[i] {
      if i >= k {
        var j := i + 1;
        assert RemoveAt(ts, k)[i] == ts[j];
      }
    }
  }

  /** Serving a thread first puts its priority first. */
  lemma PrioritiesCons(t: Thread, ts: seq<Thread>)
    ensures Priorities([t] + ts) == [t.priority] + Priorities(ts)
  {
    var l, r := Priorities([t] + ts), [t.priority] + Priorities(ts);
    forall i | 0 <= i < |l| ensures l[i] == r[i] {
      if i > 0 {
        assert ([t] + ts)[i] == ts[i - 1];
      }
    }
  }

  /** The priorities of the threads in served order are the queued
      priorities drained by themselves. */
  lemma {:induction false} DrainPriorities(code: int, ts: seq<Thread>)
    ensures Priorities(DrainOrder(code, ts, Priorities(ts))) ==
            DrainOrder(code, Priorities(ts), Priorities(ts))
    decreases |ts|
  {
    if ts != [] {
      var ps := Priorities(ts);
      var k := SelectIndex(code, ps);
      var rest := RemoveAt(ts, k);
      PrioritiesRemoveAt(ts, k);
      DrainPriorities(code, rest);
      var tail := DrainOrder(code, rest, Priorities(rest));
      assert DrainOrder(code, ts, ps) == [ts[k]] + tail;
      PrioritiesCons(ts[k], tail);
    }
  }

  /** Under codes above 6 queued threads are served in non-decreasing order
      of priority value. */
  lemma PriorityDrainThreads(code: int, ts: seq<Thread>)
    requires code > 6
    ensures NonDecreasing(Priorities(DrainOrder(code, ts, Priorities(ts))))
  {
    DrainPriorities(code, ts);
    PriorityDrainAscending(code, Priorities(ts));
  }

  /** A value no larger than any entry of a non-decreasing sequence can be
      put in front of it. */
  lemma ConsNonDecreasing(m: int, s: seq<int>)
    requires NonDecreasing(s) && forall x :: x in s ==> m <= x
    ensures NonDecreasing([m] + s)
  {
    var r := [m] + s;
    forall i, j | 0 <= i < j < |r| ensures r[i] <= r[j] {
      assert r[j] == s[j - 1] && s[j - 1] in s;
      if i > 0 {
        assert r[i] == s[i - 1];
      }
    }
  }

  /** Under SJF, threads whose predictions are 7, 3 and 5, admitted in that
      order into an empty list, end up queued as 3, 5, 7 whatever positions
      the sorted insertion picks. */
  lemma SjfAdmissionExample(i: nat, j: nat, k: nat)
    requires OrderedSlot([], i, 7.0)
    requires OrderedSlot(InsertAt([], i, 7.0), j, 3.0)
    requires OrderedSlot(InsertAt(InsertAt([], i, 7.0), j, 3.0), k, 5.0)
    ensures InsertAt(InsertAt(InsertAt([], i, 7.0), j, 3.0), k, 5.0) == [3.0, 5.0, 7.0]
  {
    var one := InsertAt([], i, 7.0);
    assert one == [7.0];
    OrderedSlotExtremes(one, j, 3.0);
    var two := InsertAt(one, j, 3.0);
    assert two == [3.0, 7.0];
    assert two[0] < 5.0 < two[1];
    assert k == 1;
  }
}
