/**
 Acquires that other tasks interrupt: what the key they hand out has been, and how fairly
 they hand keys out.
 */
module AcquireRuns {
  import opened Numbers
  import opened Results
  import opened PoolModel
  import opened Breaker
  import HealthyList
  import Refinement
  import Fairness
  import Bookkeeping

  // ---------------------------------------------------------------- what is handed out

  predicate Within(ids: seq<nat>, pool: seq<nat>) {
    forall i | 0 <= i < |ids| :: ids[i] in pool
  }

  /** What a reader of the key list works on is listed. */
  predicate WorksOnListed(th: Thread, pool: seq<nat>) {
    match th
    case Scanning(_, seen) => Within(seen, pool)
    case SuccessLocated(o) => o in pool
    case FailureLocated(o) => o in pool
    case FailureCounted(o, _) => o in pool
    case FailureTripped(o, _) => o in pool
    case _ => true
  }

  /** Nobody removes a key while an acquire or a report is at work on it. */
  predicate ReadersListed(s: State) {
    forall t | 0 <= t < |s.threads| :: WorksOnListed(s.threads[t], s.pool)
  }

  lemma ReadersListedKept(s: State, a: Step)
    requires WellFormed(s) && Enabled(s, a) && ReadersListed(s)
    ensures ReadersListed(Apply(s, a))
  {
    hide Picks, Snapshot, Keep;
    var s' := Apply(s, a);
    forall t | 0 <= t < |s'.threads|
      ensures WorksOnListed(s'.threads[t], s'.pool)
    {
      if t < |s.threads| {
        assert WorksOnListed(s.threads[t], s.pool);
      }
    }
  }

  lemma {:induction false} ReadersStayListed(ss: seq<State>, steps: seq<Step>, k: nat)
    requires Run(ss, steps) && ReadersListed(ss[0]) && k < |ss|
    ensures ReadersListed(ss[k])
  {
    hide Apply, Enabled, ReadersListed;
    if k > 0 {
      ReadersStayListed(ss, steps, k - 1);
      ReadersListedKept(ss[k - 1], steps[k - 1]);
    }
  }

  /** Thread `t` is a scan that holds object `o`. */
  predicate Holds(s: State, t: nat, o: nat) {
    t < |s.threads| && s.threads[t].Scanning? && o in s.threads[t].seen
  }

  /** A scan comes to hold an object only by loading it while it is healthy. */
  lemma HeldByLoading(s: State, a: Step, t: nat, o: nat)
    requires WellFormed(s) && Enabled(s, a) && Holds(Apply(s, a), t, o)
    ensures t < |s.threads| && s.threads[t].Scanning?
    ensures !Holds(s, t, o) ==> a == Load(t) && o < |s.objs| && o in s.pool && s.objs[o].healthy
  {
    hide Picks, Snapshot, Keep;
  }

  /** Whatever a scan holds was healthy at a moment at which that scan was already under way. */
  lemma {:induction false} HeldWasHealthy(ss: seq<State>, steps: seq<Step>, k: nat, t: nat, o: nat) returns (i: nat)
    requires Run(ss, steps) && ss[0].threads == [] && k < |ss| && Holds(ss[k], t, o)
    ensures i <= k && o < |ss[i].objs| && ss[i].objs[o].healthy
    ensures forall m | i <= m <= k :: t < |ss[m].threads| && ss[m].threads[t].Scanning?
  {
    hide Apply, Enabled;
    assert k > 0;
    HeldByLoading(ss[k - 1], steps[k - 1], t, o);
    if Holds(ss[k - 1], t, o) {
      i := HeldWasHealthy(ss, steps, k - 1, t, o);
    } else {
      i := k - 1;
    }
  }

  lemma HandedIsHeld(s: State, a: Step, o: nat)
    requires WellFormed(s) && Enabled(s, a) && HandedBy(s, a) == Some(o)
    ensures a.Choose? && Holds(s, a.t, o) && o < |s.objs| && s.objs[o].weight != 0
  {
    var seen := s.threads[a.t].seen;
    var snap := Snapshot(s.objs, seen);
    var slot := s.cursor % Wrap32(Total(snap));
    CoverIsLive(snap, slot, Select(snap, slot));
  }

  lemma HandedIsListed(ss: seq<State>, steps: seq<Step>, k: nat, o: nat)
    requires Run(ss, steps) && ReadersListed(ss[0]) && k < |steps| && HandedBy(ss[k], steps[k]) == Some(o)
    ensures o in ss[k].pool
  {
    hide Apply, Enabled, HandedBy;
    HandedIsHeld(ss[k], steps[k], o);
    ReadersStayListed(ss, steps, k);
    assert WorksOnListed(ss[k].threads[steps[k].t], ss[k].pool);
  }

  /**
   However an acquire is interrupted, the key it hands out is still listed, has a nonzero
   weight, and was healthy at some moment between the acquire's beginning and its end.
   */
  lemma HandedIsSound(ss: seq<State>, steps: seq<Step>, k: nat, o: nat) returns (i: nat)
    requires Run(ss, steps) && ss[0].threads == [] && k < |steps| && HandedBy(ss[k], steps[k]) == Some(o)
    ensures steps[k].Choose? && o in ss[k].pool && o < |ss[k].objs| && ss[k].objs[o].weight != 0
    ensures i <= k && o < |ss[i].objs| && ss[i].objs[o].healthy
    ensures forall m | i <= m <= k :: steps[k].t < |ss[m].threads| && ss[m].threads[steps[k].t].Scanning?
  {
    hide Apply, Enabled;
    HandedIsHeld(ss[k], steps[k], o);
    HandedIsListed(ss, steps, k, o);
    i := HeldWasHealthy(ss, steps, k, steps[k].t, o);
  }

  // ---------------------------------------------------------------- fairness

  /** Keys, weights and health of the listed keys are those of the first state throughout. */
  ghost predicate Steady(ss: seq<State>) {
    forall k | 0 <= k < |ss| :: WellFormed(ss[k]) && SameListing(ss[0], ss[k])
  }

  predicate SameListing(s: State, s': State) {
    && WellFormed(s) && WellFormed(s') && s'.pool == s.pool
    && forall i | 0 <= i < |s.pool| ::
         && s'.objs[s.pool[i]].key == s.objs[s.pool[i]].key
         && s'.objs[s.pool[i]].weight == s.objs[s.pool[i]].weight
         && s'.objs[s.pool[i]].healthy == s.objs[s.pool[i]].healthy
  }

  /** The healthy ones among the first `n` listed objects. */
  function HealthyAmong(s: State, n: nat): seq<nat>
    requires WellFormed(s) && n <= |s.pool|
  {
    Refinement.IdsAt(s.pool, HealthyList.Positions(View(s).keys, n))
  }

  /** Every scan holds exactly the healthy ones among the keys it has passed. */
  predicate ScansExact(s: State)
    requires WellFormed(s)
  {
    forall t | 0 <= t < |s.threads| && s.threads[t].Scanning? ::
      s.threads[t].next <= |s.pool| && s.threads[t].seen == HealthyAmong(s, s.threads[t].next)
  }

  lemma {:induction false} SameHealthy(s: State, s': State, n: nat)
    requires SameListing(s, s') && n <= |s.pool|
    ensures HealthyList.Positions(View(s').keys, n) == HealthyList.Positions(View(s).keys, n)
  {
    if n > 0 {
      SameHealthy(s, s', n - 1);
    }
  }

  lemma HealthyAmongNext(s: State, n: nat)
    requires WellFormed(s) && n < |s.pool|
    ensures HealthyAmong(s, n + 1) == HealthyAmong(s, n) + if s.objs[s.pool[n]].healthy then [s.pool[n]] else []
  {
    assert View(s).keys[n] == s.objs[s.pool[n]];
  }

  /** A scan after a step: as it was, one entry further, or just begun. */
  lemma ScanProgress(s: State, a: Step, t: nat)
    requires WellFormed(s) && Enabled(s, a)
    requires t < |Apply(s, a).threads| && Apply(s, a).threads[t].Scanning?
    ensures
      var th := Apply(s, a).threads[t];
      if t >= |s.threads| then th == Scanning(0, [])
      else
        && s.threads[t].Scanning?
        && (th == s.threads[t]
            || (&& a == Load(t) && s.threads[t].next < |s.pool|
                && th.next == s.threads[t].next + 1
                && th.seen == s.threads[t].seen + if s.objs[s.pool[s.threads[t].next]].healthy then [s.pool[s.threads[t].next]] else []))
  {
    hide Picks, Snapshot, Keep;
  }

  lemma ScansExactKept(s: State, a: Step)
    requires WellFormed(s) && Enabled(s, a) && ScansExact(s) && SameListing(s, Apply(s, a))
    ensures ScansExact(Apply(s, a))
  {
    hide Apply, Enabled, HealthyAmong;
    var s' := Apply(s, a);
    forall t | 0 <= t < |s'.threads| && s'.threads[t].Scanning?
      ensures s'.threads[t].next <= |s'.pool| && s'.threads[t].seen == HealthyAmong(s', s'.threads[t].next)
    {
      ScanProgress(s, a, t);
      NothingAmongNone(s');
      if t < |s.threads| {
        var n := s.threads[t].next;
        SameHealthyAmong(s, s', n);
        if n < |s.pool| {
          HealthyAmongNext(s, n);
          SameHealthyAmong(s, s', n + 1);
        }
      }
    }
  }

  lemma NothingAmongNone(s: State)
    requires WellFormed(s)
    ensures HealthyAmong(s, 0) == []
  {
  }

  lemma SameHealthyAmong(s: State, s': State, n: nat)
    requires SameListing(s, s') && n <= |s.pool|
    ensures HealthyAmong(s', n) == HealthyAmong(s, n)
  {
    SameHealthy(s, s', n);
  }

  /** A step that hands out nothing leaves the cursor alone. */
  lemma CursorWaits(s: State, a: Step)
    requires WellFormed(s) && Enabled(s, a) && HandedBy(s, a).None?
    ensures Apply(s, a).cursor == s.cursor
  {
    hide Picks, Snapshot, Keep;
  }

  /** How often object `o` was handed out in the first `n` steps. */
  function HandedTo(ss: seq<State>, steps: seq<Step>, n: nat, o: nat): nat
    requires n <= |steps| && |ss| == |steps| + 1 && forall k | 0 <= k < |ss| :: WellFormed(ss[k])
  {
    if n == 0 then 0 else HandedTo(ss, steps, n - 1, o) + if HandedBy(ss[n - 1], steps[n - 1]) == Some(o) then 1 else 0
  }

  lemma SteadyStep(ss: seq<State>, steps: seq<Step>, k: nat)
    requires Run(ss, steps) && Steady(ss) && k < |steps|
    ensures SameListing(ss[k], ss[k + 1])
  {
    assert SameListing(ss[0], ss[k]) && SameListing(ss[0], ss[k + 1]);
  }

  lemma {:induction false} ScansStayExact(ss: seq<State>, steps: seq<Step>, k: nat)
    requires Run(ss, steps) && Steady(ss) && ScansExact(ss[0]) && k < |ss|
    ensures ScansExact(ss[k])
  {
    hide Apply, Enabled, ScansExact, SameListing;
    if k > 0 {
      ScansStayExact(ss, steps, k - 1);
      SteadyStep(ss, steps, k - 1);
      ScansExactKept(ss[k - 1], steps[k - 1]);
    }
  }

  lemma SameListingSelects(s: State, s': State)
    requires SameListing(s, s') && s'.cursor == s.cursor
    ensures Fairness.SameSelection(View(s), View(s'))
  {
  }

  /** A step that hands out a key does what an acquire of the value model does. */
  lemma HandedAsSpecified(s: State, a: Step, o: nat)
    requires WellFormed(s) && NoDuplicates(s.pool) && Enabled(s, a) && ScansExact(s) && HandedBy(s, a) == Some(o)
    ensures WellFormed(Apply(s, a)) && View(Apply(s, a)) == Acquire(View(s)).1
    ensures Acquire(View(s)).0.Some? && forall j | 0 <= j < |s.pool| :: s.pool[j] == o <==> j == Acquire(View(s)).0.value
  {
    assert s.threads[a.t] == Scanning(|s.pool|, Refinement.Collected(s));
    Refinement.ChosenAsSpecified(s, a.t);
  }

  lemma SelectionMovesOn(pools: seq<Pool>, picks: seq<nat>, q: Pool)
    requires Fairness.Stretch(pools, picks) && Fairness.SameSelection(pools[|picks|], q)
    ensures Fairness.Stretch(pools[|picks| := q], picks)
  {
    hide Acquire;
    var pools' := pools[|picks| := q];
    forall k | 0 <= k < |picks|
      ensures Acquire(pools'[k]).0 == Some(picks[k]) && Fairness.SameSelection(Acquire(pools'[k]).1, pools'[k + 1])
    {
      assert Fairness.SameSelection(Acquire(pools[k]).1, pools[k + 1]);
    }
  }

  lemma PickedOnce(picks: seq<nat>, i: nat)
    ensures forall j: nat :: Fairness.Picked(picks + [i], j) == Fairness.Picked(picks, j) + if i == j then 1 else 0
  {
    assert (picks + [i])[..|picks|] == picks;
  }

  /** The keys handed out by a steady run, in order, are those a stretch of the value model picks. */
  lemma {:induction false} RunIsStretch(ss: seq<State>, steps: seq<Step>, n: nat) returns (pools: seq<Pool>, picks: seq<nat>)
    requires Run(ss, steps) && Steady(ss) && ScansExact(ss[0]) && NoDuplicates(ss[0].pool) && n <= |steps|
    ensures |pools| == |picks| + 1 && Fairness.Stretch(pools, picks) && Fairness.SameSelection(View(ss[0]), pools[0])
    ensures pools[|picks|] == View(ss[n]) && |picks| == Bookkeeping.Handed(ss, steps, n)
    ensures forall i | 0 <= i < |ss[0].pool| :: Fairness.Picked(picks, i) == HandedTo(ss, steps, n, ss[0].pool[i])
  {
    hide Apply, Enabled, Acquire, ScansExact, Steady, SameListing, HandedBy, View, Fairness.Stretch, Fairness.SameSelection, Fairness.Picked;
    if n == 0 {
      pools, picks := StretchOfNothing(ss[0]);
    } else {
      pools, picks := RunIsStretch(ss, steps, n - 1);
      var s, a := ss[n - 1], steps[n - 1];
      SteadyPool(ss, n - 1);
      SteadyStep(ss, steps, n - 1);
      ScansStayExact(ss, steps, n - 1);
      if HandedBy(s, a).Some? {
        HandedAsSpecified(s, a, HandedBy(s, a).value);
        var i := Acquire(View(s)).0.value;
        Fairness.OneMorePick(pools, picks, i);
        PickedOnce(picks, i);
        pools, picks := pools + [View(ss[n])], picks + [i];
      } else {
        CursorWaits(s, a);
        SameListingSelects(s, ss[n]);
        SelectionMovesOn(pools, picks, View(ss[n]));
        SameSelectionJoins(View(ss[0]), pools[0], View(ss[n]));
        pools := pools[|picks| := View(ss[n])];
      }
    }
  }

  lemma StretchOfNothing(s: State) returns (pools: seq<Pool>, picks: seq<nat>)
    requires WellFormed(s)
    ensures pools == [View(s)] && picks == [] && Fairness.Stretch(pools, picks) && Fairness.SameSelection(View(s), pools[0])
    ensures forall i: nat :: Fairness.Picked(picks, i) == 0
  {
    pools, picks := [View(s)], [];
  }

  lemma SteadyPool(ss: seq<State>, k: nat)
    requires Steady(ss) && k < |ss|
    ensures ss[k].pool == ss[0].pool
  {
    assert SameListing(ss[0], ss[k]);
  }

  lemma SameSelectionJoins(p: Pool, q: Pool, r: Pool)
    ensures Fairness.SameSelection(p, q) && Fairness.SameSelection(q, r) ==> Fairness.SameSelection(p, r)
  {
  }

  /**
   Fairness under interleaving: over any stretch of a run in which the listed keys, their
   weights and their health stay the same, whatever acquires, reports, timers and clock
   steps interleave, a key that covers w of the W slots of a round is handed out c times in
   n successful acquires with |W*c - n*w| <= w*(W - w); without wrap-around these are its
   weight and the total weight. The stretch may start in the middle of a scan that is up to
   date.
   */
  lemma FairUnderInterleaving(ss: seq<State>, steps: seq<Step>, i: nat)
    requires Run(ss, steps) && Steady(ss) && ScansExact(ss[0]) && NoDuplicates(ss[0].pool)
    requires i < |ss[0].pool| && Fairness.Round(View(ss[0]).keys) != 0
    ensures
      var keys := View(ss[0]).keys;
      var n, c := Bookkeeping.Handed(ss, steps, |steps|), HandedTo(ss, steps, |steps|, ss[0].pool[i]);
      && Fairness.FairShare(Fairness.Round(keys), Fairness.Slots(keys, i), n, c)
      && (Total(keys) < TWO32 ==> Fairness.FairShare(Total(keys), Share(keys[i]), n, c))
  {
    hide Apply, Enabled, Acquire, ScansExact, Steady, HandedTo, Total, Fairness.Stretch, Fairness.Picked,
      Fairness.FairShare, Fairness.Slots, Bookkeeping.Handed, Fairness.SameSelection;
    var pools, picks := RunIsStretch(ss, steps, |steps|);
    var keys := View(ss[0]).keys;
    Fairness.SameTotal(View(ss[0]), pools[0]);
    Fairness.SameSlots(View(ss[0]), pools[0], i);
    Fairness.FairSlots(pools, picks, i);
    if Total(keys) < TWO32 {
      Fairness.SlotsAreShare(keys, i);
    }
  }
}
