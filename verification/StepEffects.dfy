/**
 What the steps of the interleaving model do however they are interrupted: field by field
 for every key object, which key an interrupted acquire takes, and that no task gets stuck.
 */
module StepEffects {
  import opened Numbers
  import opened Results
  import opened PoolModel
  import opened Breaker

  /** The step is taken by a task that works on object `o`. */
  predicate ActsOn(s: State, a: Step, o: nat) {
    Actor(a).Some? && Actor(a).value < |s.threads| && Targets(s.threads[Actor(a).value], o)
  }

  /**
   Each field of a key object is written by its own steps only, and to these values: health
   by a trip, a recovery and a re-add, errors by reports and the same two resets, weight by a
   re-add, requests by an acquire that hands the key out, the key never.
   */
  lemma FieldByField(s: State, a: Step, o: nat)
    requires WellFormed(s) && Enabled(s, a) && o < |s.objs|
    ensures o < |Apply(s, a).objs|
    ensures
      var k, k', acts := s.objs[o], Apply(s, a).objs[o], ActsOn(s, a, o);
      && k'.key == k.key
      && (k'.weight == if acts && a.StoreWeight? then s.threads[a.t].weight else k.weight)
      && (k'.healthy <==> (k.healthy && !(acts && a.Trip?)) || (acts && (a.Restore? || a.StoreHealthy?)))
      && (k'.errors == if acts && a.Count? then Wrap32(k.errors + 1)
                       else if acts && (a.StoreZero? || a.Forgive? || a.StoreErrors?) then 0 else k.errors)
      && (k'.requests == if HandedBy(s, a) == Some(o) then Wrap32(k.requests + 1) else k.requests)
  {
    hide Picks, Snapshot, Keep, KeysAt, Locate;
  }

  /** The clock, the list and the cursor have their own steps too, and objects are created by add_key alone. */
  lemma RestOfTheState(s: State, a: Step)
    requires WellFormed(s) && Enabled(s, a)
    ensures
      var s' := Apply(s, a);
      && (s'.now != s.now ==> a.Tick?)
      && (s'.pool != s.pool ==> a.Push? || a.Remove?)
      && (s'.cursor != s.cursor ==> HandedBy(s, a).Some?)
      && |s'.objs| == |s.objs| + if a.Push? then 1 else 0
  {
    hide Picks, Snapshot, Keep, KeysAt, Locate;
  }

  /** Every task in flight can take its next step, but for a recovery that is not due yet. */
  lemma NeverStuck(s: State, t: nat) returns (a: Step)
    requires WellFormed(s) && t < |s.threads| && !s.threads[t].Done?
    ensures Actor(a) == Some(t)
    ensures s.threads[t].Sleeping? ==> (Enabled(s, a) <==> s.threads[t].deadline <= s.now)
    ensures !s.threads[t].Sleeping? ==> Enabled(s, a)
  {
    match s.threads[t]
    case SuccessLocated(_) => a := StoreZero(t);
    case FailureLocated(_) => a := Count(t);
    case FailureCounted(_, _) => a := Trip(t);
    case FailureTripped(_, _) => a := Spawn(t);
    case Sleeping(_, _) => a := Restore(t);
    case Restored(_) => a := Forgive(t);
    case Scanning(next, _) => a := if next < |s.pool| then Load(t) else Choose(t);
    case AddLocated(_, _) => a := StoreWeight(t);
    case AddWeighed(_) => a := StoreHealthy(t);
    case AddHealed(_) => a := StoreErrors(t);
  }

  // ---------------------------------------------------------------- interrupted acquires

  /** The present weights of the first `n` collected keys, added up. */
  function Weighed(s: State, seen: seq<nat>, n: nat): nat
    requires IdsBelow(seen, |s.objs|) && n <= |seen|
  {
    if n == 0 then 0 else Weighed(s, seen, n - 1) + s.objs[seen[n - 1]].weight
  }

  lemma {:induction false} WeighedIsPrefix(s: State, seen: seq<nat>, n: nat)
    requires IdsBelow(seen, |s.objs|) && n <= |seen|
    ensures Prefix(Snapshot(s.objs, seen), n) == Weighed(s, seen, n)
  {
    if n > 0 {
      WeighedIsPrefix(s, seen, n - 1);
    }
  }

  /** Collected key `j` is the first whose 32-bit running total of present weights exceeds the slot. */
  predicate TakesSlot(s: State, seen: seq<nat>, slot: nat, j: nat)
    requires IdsBelow(seen, |s.objs|)
  {
    && j < |seen| && slot < Weighed(s, seen, j + 1) % 0x1_0000_0000
    && forall m: nat | m <= j :: Weighed(s, seen, m) % 0x1_0000_0000 <= slot
  }

  /**
   How an acquire ends, whatever has changed since it collected its keys: it fails exactly
   when their present weights add up to a multiple of 2^32; otherwise it takes the key at
   the cursor's slot and moves the cursor on.
   */
  lemma InterruptedChoice(s: State, t: nat) returns (j: nat)
    requires WellFormed(s) && Enabled(s, Choose(t))
    ensures
      var seen, s' := s.threads[t].seen, Apply(s, Choose(t));
      var total := Weighed(s, seen, |seen|) % 0x1_0000_0000;
      && (total == 0 ==> HandedBy(s, Choose(t)).None? && s'.objs == s.objs && s'.cursor == s.cursor)
      && (total != 0 ==> TakesSlot(s, seen, s.cursor % total, j) && HandedBy(s, Choose(t)) == Some(seen[j]))
      && (total != 0 ==> s'.cursor == (s.cursor + 1) % total)
      && s'.threads == s.threads[t := Done] && s'.pool == s.pool && s'.now == s.now
  {
    var seen := s.threads[t].seen;
    var snap := Snapshot(s.objs, seen);
    WeighedIsPrefix(s, seen, |seen|);
    var total := Wrap32(Total(snap));
    j := 0;
    if total != 0 {
      j := Select(snap, s.cursor % total);
      CoversTakes(s, seen, s.cursor % total, j);
    }
  }

  lemma CoversTakes(s: State, seen: seq<nat>, slot: nat, j: nat)
    requires IdsBelow(seen, |s.objs|) && Covers(Snapshot(s.objs, seen), slot, j)
    ensures TakesSlot(s, seen, slot, j)
  {
    WeighedIsPrefix(s, seen, j + 1);
    forall m: nat | m <= j
      ensures Weighed(s, seen, m) % 0x1_0000_0000 <= slot
    {
      WeighedIsPrefix(s, seen, m);
      assert Wrap32(Prefix(Snapshot(s.objs, seen), m)) <= slot;
    }
  }
}
