/** Over whole runs: orphaned timers change nothing the pool shows, and requests are conserved. */
module Bookkeeping {
  import opened Numbers
  import opened Results
  import opened PoolModel
  import opened Breaker

  // ---------------------------------------------------------------- orphans

  lemma NeverListedAgain(s: State, a: Step, o: nat)
    requires WellFormed(s) && Enabled(s, a) && o < |s.objs| && o !in s.pool
    ensures o !in Apply(s, a).pool
  {
  }

  /** An object that has left the list never returns to it, even when its key is added again. */
  lemma {:induction false} RemovedForGood(ss: seq<State>, steps: seq<Step>, i: nat, j: nat, o: nat)
    requires Run(ss, steps) && i <= j < |ss| && o < |ss[i].objs| && o !in ss[i].pool
    ensures o < |ss[j].objs| && o !in ss[j].pool
    decreases j - i
  {
    if i < j {
      RemovedForGood(ss, steps, i, j - 1, o);
      ApplyWellFormed(ss[j - 1], steps[j - 1]);
      NeverListedAgain(ss[j - 1], steps[j - 1], o);
    }
  }

  /** The step is a recovery task's store to object `o`. */
  predicate Recovers(s: State, a: Step, o: nat) {
    (a.Restore? || a.Forgive?) && a.t < |s.threads| && Targets(s.threads[a.t], o)
  }

  /**
   Orphaned timers are harmless: once object `o` has left the list, no store of its recovery
   tasks, at any later point of the run, changes anything the pool shows, whether or not
   the same key has been added again meanwhile.
   */
  lemma OrphanIsHarmless(ss: seq<State>, steps: seq<Step>, i: nat, j: nat, o: nat)
    requires Run(ss, steps) && i <= j < |steps| && o < |ss[i].objs| && o !in ss[i].pool
    requires Recovers(ss[j], steps[j], o)
    ensures View(ss[j + 1]) == View(ss[j])
  {
    RemovedForGood(ss, steps, i, j, o);
    var s := ss[j];
    assert Apply(s, steps[j]).pool == s.pool && Apply(s, steps[j]).cursor == s.cursor;
    forall k | 0 <= k < |s.pool|
      ensures KeysAt(ss[j + 1].objs, ss[j + 1].pool)[k] == KeysAt(s.objs, s.pool)[k]
    {
      assert s.pool[k] != o;
    }
  }

  // ---------------------------------------------------------------- conservation of requests

  /** Requests counted by all key objects ever created, listed or removed. */
  function Requests(objs: seq<KeyState>): nat {
    if objs == [] then 0 else Requests(objs[..|objs| - 1]) + objs[|objs| - 1].requests
  }

  /** Whether the step is an acquire that hands out a key. */
  predicate HandsOut(s: State, a: Step) {
    WellFormed(s) && HandedBy(s, a).Some?
  }

  /** Successful acquires among the first `n` steps. */
  function Handed(ss: seq<State>, steps: seq<Step>, n: nat): nat
    requires n <= |steps| && |ss| == |steps| + 1
  {
    if n == 0 then 0 else Handed(ss, steps, n - 1) + if HandsOut(ss[n - 1], steps[n - 1]) then 1 else 0
  }

  lemma {:induction false} RequestsAfterStore(objs: seq<KeyState>, o: nat, k: KeyState)
    requires o < |objs|
    ensures Requests(objs[o := k]) == Requests(objs) - objs[o].requests + k.requests
  {
    var n := |objs| - 1;
    if o == n {
      assert objs[o := k][..n] == objs[..n];
    } else {
      RequestsAfterStore(objs[..n], o, k);
      assert objs[o := k][..n] == objs[..n][o := k];
    }
  }

  /** Every step but a successful acquire leaves all request counters alone. */
  lemma OnlyChooseCounts(s: State, a: Step)
    requires WellFormed(s) && Enabled(s, a) && !HandsOut(s, a)
    ensures |Apply(s, a).objs| >= |s.objs|
    ensures forall o | 0 <= o < |s.objs| :: Apply(s, a).objs[o].requests == s.objs[o].requests
    ensures forall o | |s.objs| <= o < |Apply(s, a).objs| :: Apply(s, a).objs[o].requests == 0
  {
    hide Picks, Snapshot, Keep, KeysAt, Locate;
  }

  lemma {:induction false} SameRequests(a: seq<KeyState>, b: seq<KeyState>)
    requires |a| <= |b|
    requires forall o | 0 <= o < |a| :: b[o].requests == a[o].requests
    requires forall o | |a| <= o < |b| :: b[o].requests == 0
    ensures Requests(b) == Requests(a)
    decreases |b|
  {
    if |b| > 0 {
      var n := |b| - 1;
      if |a| == |b| {
        SameRequests(a[..n], b[..n]);
      } else {
        SameRequests(a, b[..n]);
      }
    }
  }

  lemma StepConserves(s: State, a: Step)
    requires WellFormed(s) && Enabled(s, a)
    ensures Wrap32(Requests(Apply(s, a).objs)) == Wrap32(Requests(s.objs) + if HandsOut(s, a) then 1 else 0)
  {
    hide Requests, Wrap32;
    var s' := Apply(s, a);
    if HandsOut(s, a) {
      var o := Picks(s, s.threads[a.t].seen).value;
      RequestsAfterStore(s.objs, o, Served(s.objs[o]));
      WrapServed(Requests(s.objs), s.objs[o].requests);
    } else {
      OnlyChooseCounts(s, a);
      SameRequests(s.objs, s'.objs);
    }
  }

  lemma WrapServed(sum: int, count: u32)
    ensures Wrap32(sum - count + Wrap32(count + 1)) == Wrap32(sum + 1)
  {
    if count + 1 == TWO32 {
      assert sum + 1 == sum - count + TWO32;
    }
  }

  lemma NoRequestsYet(s: State)
    requires Initial(s)
    ensures Requests(s.objs) == 0
  {
    SameRequests([], s.objs);
  }

  /**
   Conservation: over every run of the program the request counters of all key objects
   ever created add up, modulo 2^32, to the number of successful acquires.
   */
  lemma {:induction false} RequestsAreConserved(ss: seq<State>, steps: seq<Step>, n: nat)
    requires Run(ss, steps) && Initial(ss[0]) && n <= |steps|
    ensures Wrap32(Requests(ss[n].objs)) == Wrap32(Handed(ss, steps, n))
  {
    hide Requests, HandsOut, Wrap32, Apply, Enabled, WellFormed;
    if n == 0 {
      NoRequestsYet(ss[0]);
    } else {
      RequestsAreConserved(ss, steps, n - 1);
      StepConserves(ss[n - 1], steps[n - 1]);
      var one := if HandsOut(ss[n - 1], steps[n - 1]) then 1 else 0;
      WrapShift(Requests(ss[n - 1].objs), Handed(ss, steps, n - 1), one);
    }
  }
}
