// Pure scheduling arithmetic and sequence facts used by the scheduler model:
// the shortest-job-first burst predictor, the "earliest minimum priority"
// selection rule, and the sequence shapes of insertion into and removal from
// the ready list.
module Policy {

  /** The SJF smoothing factor of the scheduler (alpha = 0.5, held exactly). */
  const Alpha: real := 0.5

  /** Exponentially weighted prediction of the next CPU burst from the burst
      just measured and the previous prediction, with the scheduler's
      alpha. */
  function Ewma(burst: int, prevExpected: real): (r: real)
    ensures r - prevExpected == burst as real - r
    ensures prevExpected <= burst as real ==> prevExpected <= r <= burst as real
    ensures burst as real <= prevExpected ==> burst as real <= r <= prevExpected
  {
    Alpha * burst as real + (1.0 - Alpha) * prevExpected
  }

  /** Absolute prediction error |burst - expected|; the scheduler computes it
      and then discards it. */
  function PredictionError(burst: int, expected: real): (e: real)
    ensures e >= 0.0
    ensures e == burst as real - expected || e == expected - burst as real
  {
    if burst as real - expected < 0.0 then expected - burst as real else burst as real - expected
  }

  /** Burst 6 after a prediction of 4 predicts 5, with error 1; a second
      burst of 6 moves the prediction halfway again, to 5.5. */
  lemma EwmaExample()
    ensures Ewma(6, 4.0) == 5.0 && PredictionError(6, 5.0) == 1.0
    ensures Ewma(6, Ewma(6, 4.0)) == 5.5
  {
  }

  /** Index of the first occurrence of the smallest value: the rule applied
      by a left-to-right scan that replaces its candidate only on a strictly
      smaller value. */
  function FirstMinIndex(prios: seq<int>): (k: nat)
    requires |prios| > 0
    ensures k < |prios|
    ensures forall j :: 0 <= j < |prios| ==> prios[k] <= prios[j]
    ensures forall j :: 0 <= j < k ==> prios[k] < prios[j]
  {
    if |prios| == 1 then 0
    else
      var k := FirstMinIndex(prios[..|prios| - 1]);
      if prios[|prios| - 1] < prios[k] then |prios| - 1 else k
  }

  /** Position of the entry the scheduler takes from a non-empty ready list
      whose threads have the given priorities: the head under codes up to 6,
      the first entry of smallest priority value under higher codes. */
  function SelectIndex(code: int, prios: seq<int>): (k: nat)
    requires |prios| > 0
    ensures k < |prios|
    ensures code <= 6 ==> k == 0
    ensures code > 6 ==> forall j :: 0 <= j < |prios| ==> prios[k] <= prios[j]
    ensures code > 6 ==> forall j :: 0 <= j < k ==> prios[k] < prios[j]
  {
    if code <= 6 then 0 else FirstMinIndex(prios)
  }

  /** The two properties of FirstMinIndex pin the index down. */
  lemma FirstMinIndexUnique(prios: seq<int>, k: nat)
    requires k < |prios|
    requires forall j :: 0 <= j < |prios| ==> prios[k] <= prios[j]
    requires forall j :: 0 <= j < k ==> prios[k] < prios[j]
    ensures FirstMinIndex(prios) == k
  {
    var m := FirstMinIndex(prios);
    assert prios[m] <= prios[k] && prios[k] <= prios[m];
  }

  /** Priorities [50, 10, 10, 30]: the first of the two 10s is selected. */
  lemma TieGoesToEarliest()
    ensures FirstMinIndex([50, 10, 10, 30]) == 1
  {
    FirstMinIndexUnique([50, 10, 10, 30], 1);
  }

  /** s with its k-th entry taken out, the others kept in order. */
  function RemoveAt<T>(s: seq<T>, k: nat): (r: seq<T>)
    requires k < |s|
    ensures |r| == |s| - 1
    ensures forall i :: 0 <= i < k ==> r[i] == s[i]
    ensures forall i :: k <= i < |r| ==> r[i] == s[i + 1]
    ensures multiset(r) + multiset{s[k]} == multiset(s)
  {
    assert s == s[..k] + [s[k]] + s[k + 1..];
    s[..k] + s[k + 1..]
  }

  /** s with x placed at position i, the others kept in order. */
  function InsertAt<T>(s: seq<T>, i: nat, x: T): (r: seq<T>)
    requires i <= |s|
    ensures |r| == |s| + 1 && r[i] == x
    ensures forall j :: 0 <= j < i ==> r[j] == s[j]
    ensures forall j :: i < j < |r| ==> r[j] == s[j - 1]
    ensures multiset(r) == multiset(s) + multiset{x}
  {
    assert s == s[..i] + s[i..];
    s[..i] + [x] + s[i..]
  }

  /** Removal at the front is dropping the head. */
  lemma RemoveAtFront<T>(s: seq<T>)
    requires |s| > 0
    ensures RemoveAt(s, 0) == s[1..]
  {
  }

  /** Insertion at the very end is appending. */
  lemma InsertAtEnd<T>(s: seq<T>, x: T)
    ensures InsertAt(s, |s|, x) == s + [x]
  {
  }

  /** Removing what was just inserted gives the original sequence back. */
  lemma {:induction false} RemoveInserted<T>(s: seq<T>, i: nat, x: T)
    requires i <= |s|
    ensures RemoveAt(InsertAt(s, i, x), i) == s
  {
    var r := RemoveAt(InsertAt(s, i, x), i);
    assert |r| == |s|;
    forall j | 0 <= j < |s| ensures r[j] == s[j] {
    }
  }

  /** Inserting x at position i, where every key before i is at most x and
      the key at i (if any) is at least x: the slot an ascending sorted
      insert picks, whatever it does with ties. */
  ghost predicate OrderedSlot(keys: seq<real>, i: nat, x: real)
  {
    i <= |keys| &&
    (forall j :: 0 <= j < i ==> keys[j] <= x) &&
    (i < |keys| ==> x <= keys[i])
  }

  ghost predicate Ascending(keys: seq<real>)
  {
    forall i, j :: 0 <= i < j < |keys| ==> keys[i] <= keys[j]
  }

  /** An ordered slot keeps an ascending key sequence ascending. */
  lemma {:induction false} InsertAtOrderedSlotKeepsAscending(keys: seq<real>, i: nat, x: real)
    requires Ascending(keys) && OrderedSlot(keys, i, x)
    ensures Ascending(InsertAt(keys, i, x))
  {
    var r := InsertAt(keys, i, x);
    forall a, b | 0 <= a < b < |r| ensures r[a] <= r[b] {
      if b == i {
        assert r[a] == keys[a];
      } else if a == i {
        assert r[b] == keys[b - 1] && keys[i] <= keys[b - 1];
      } else if b < i {
      } else if a > i {
        assert r[a] == keys[a - 1] && r[b] == keys[b - 1];
      } else {
        assert r[a] == keys[a] && r[b] == keys[b - 1] && keys[a] <= x;
      }
    }
  }

  /** An admission at an ordered slot keeps an ascending key list
      ascending, stated for the list the admission produced. */
  lemma OrderedAdmissionKeepsAscending(keys: seq<real>, i: nat, x: real, after: seq<real>)
    requires OrderedSlot(keys, i, x) && after == InsertAt(keys, i, x)
    ensures Ascending(keys) ==> Ascending(after)
  {
    if Ascending(keys) {
      InsertAtOrderedSlotKeepsAscending(keys, i, x);
    }
  }

  /** Appending key 0 behind a positive key leaves the keys out of ascending
      order: what a thread with no burst on record does to an SJF list. */
  lemma AppendZeroBreaksAscending(keys: seq<real>, i: nat)
    requires i < |keys| && keys[i] > 0.0
    ensures !Ascending(InsertAt(keys, |keys|, 0.0))
  {
    var r := InsertAt(keys, |keys|, 0.0);
    assert r[i] == keys[i] && r[|keys|] == 0.0;
  }

  /** In an ascending key sequence, the only ordered slot for a key smaller
      than every key is the front, and for a key larger than every key the
      back. */
  lemma {:induction false} OrderedSlotExtremes(keys: seq<real>, i: nat, x: real)
    requires OrderedSlot(keys, i, x)
    ensures (forall j :: 0 <= j < |keys| ==> x < keys[j]) ==> i == 0
    ensures (forall j :: 0 <= j < |keys| ==> keys[j] < x) ==> i == |keys|
  {
    if i > 0 {
      assert keys[0] <= x;
    }
  }

  ghost predicate Distinct<T>(s: seq<T>)
  {
    forall i, j :: 0 <= i < j < |s| ==> s[i] != s[j]
  }

  /** Admitting a thread not already queued keeps the queue free of duplicates. */
  lemma {:induction false} InsertAtKeepsDistinct<T>(s: seq<T>, i: nat, x: T)
    requires i <= |s| && Distinct(s) && x !in s
    ensures Distinct(InsertAt(s, i, x))
  {
    var r := InsertAt(s, i, x);
    forall a, b | 0 <= a < b < |r| ensures r[a] != r[b] {
      if a == i {
        assert r[b] == s[b - 1];
      } else if b == i {
        assert r[a] == s[a];
      } else {
        var a' := if a < i then a else a - 1;
        var b' := if b < i then b else b - 1;
        assert r[a] == s[a'] && r[b] == s[b'] && a' < b';
      }
    }
  }

  /** Taking an entry out of a duplicate-free queue leaves none of it behind. */
  lemma {:induction false} RemoveAtDropsEntry<T>(s: seq<T>, k: nat)
    requires k < |s| && Distinct(s)
    ensures Distinct(RemoveAt(s, k)) && s[k] !in RemoveAt(s, k)
  {
    var r := RemoveAt(s, k);
    forall a, b | 0 <= a < b < |r| ensures r[a] != r[b] {
      var a' := if a < k then a else a + 1;
      var b' := if b < k then b else b + 1;
      assert r[a] == s[a'] && r[b] == s[b'] && a' < b';
    }
    forall j | 0 <= j < |r| ensures r[j] != s[k] {
      var j' := if j < k then j else j + 1;
      assert r[j] == s[j'] && j' != k;
    }
  }
}
