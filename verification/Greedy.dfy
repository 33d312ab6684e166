/**
 A capped counter that gains some amount before each check and admits the check when it
 holds at least one unit: the arithmetic core of the token bucket. Its level has a min-plus
 closed form, which turns "admitted" into a statement about every earlier admission.
 `gains[j]` is what check `j` adds; the counter starts full at check 0.
 */
module Greedy {

  function Capped(x: real, cap: real): real {
    if x <= cap then x else cap
  }

  /** What check `j` sees. */
  function Level(cap: real, gains: seq<real>, j: nat): real
    requires j < |gains|
    decreases j, 0
  {
    if j == 0 then cap else Capped(Left(cap, gains, j - 1) + gains[j], cap)
  }

  /** What check `j` leaves. */
  function Left(cap: real, gains: seq<real>, j: nat): real
    requires j < |gains|
    decreases j, 1
  {
    var level := Level(cap, gains, j);
    if level >= 1.0 then level - 1.0 else level
  }

  predicate Admitted(cap: real, gains: seq<real>, j: nat)
    requires j < |gains|
  {
    Level(cap, gains, j) >= 1.0
  }

  /** Admitted checks among i, ..., j - 1. */
  function Admissions(cap: real, gains: seq<real>, i: nat, j: nat): nat
    requires i <= j <= |gains|
    decreases j - i
  {
    if i == j then 0 else Admissions(cap, gains, i, j - 1) + if Admitted(cap, gains, j - 1) then 1 else 0
  }

  /** Gains of checks i + 1, ..., j. */
  function Gained(gains: seq<real>, i: nat, j: nat): real
    requires i <= j < |gains|
    decreases j - i
  {
    if i == j then 0.0 else Gained(gains, i, j - 1) + gains[j]
  }

  /** What a counter full at check `i` would hold at check `j` had it not overflowed since. */
  function Allowance(cap: real, gains: seq<real>, i: nat, j: nat): real
    requires i <= j < |gains|
  {
    cap + Gained(gains, i, j) - Admissions(cap, gains, i, j) as real
  }

  /** Check `i` may be where the level last met the cap. */
  predicate Anchors(cap: real, gains: seq<real>, i: nat, j: nat)
    requires i <= j < |gains|
  {
    i == j || Admitted(cap, gains, i)
  }

  predicate Gainful(cap: real, gains: seq<real>) {
    cap >= 0.0 && forall j | 0 <= j < |gains| :: gains[j] >= 0.0
  }

  lemma {:induction false} LevelBounds(cap: real, gains: seq<real>, j: nat)
    requires Gainful(cap, gains) && j < |gains|
    ensures 0.0 <= Left(cap, gains, j) <= Level(cap, gains, j) <= cap
  {
    if j > 0 {
      LevelBounds(cap, gains, j - 1);
    }
  }

  /** No allowance is below the level: one half of the closed form. */
  lemma {:induction false} LevelBelowAllowance(cap: real, gains: seq<real>, i: nat, j: nat)
    requires i <= j < |gains|
    ensures Level(cap, gains, j) <= Allowance(cap, gains, i, j)
    decreases j
  {
    if i < j {
      LevelBelowAllowance(cap, gains, i, j - 1);
    }
  }

  /** Some anchored allowance meets the level: the other half. */
  lemma {:induction false} LevelMeetsAllowance(cap: real, gains: seq<real>, j: nat) returns (i: nat)
    requires Gainful(cap, gains) && j < |gains|
    ensures i <= j && Anchors(cap, gains, i, j) && Level(cap, gains, j) == Allowance(cap, gains, i, j)
  {
    if Level(cap, gains, j) == cap {
      i := j;
    } else {
      // Below the cap: the previous level's anchor still fits, and it cannot be a full idle check.
      i := LevelMeetsAllowance(cap, gains, j - 1);
      assert Level(cap, gains, j) == Left(cap, gains, j - 1) + gains[j];
      assert i == j - 1 ==> Level(cap, gains, i) == cap;
    }
  }

  /**
   Check `j` is admitted if and only if, from itself and from every earlier admitted check
   on, one more admission stays within the cap plus the gains.
   */
  lemma AdmittedIff(cap: real, gains: seq<real>, j: nat)
    requires Gainful(cap, gains) && j < |gains|
    ensures Admitted(cap, gains, j) <==>
      forall i: nat | i <= j && Anchors(cap, gains, i, j) :: Allowance(cap, gains, i, j) >= 1.0
  {
    if Admitted(cap, gains, j) {
      forall i: nat | i <= j && Anchors(cap, gains, i, j)
        ensures Allowance(cap, gains, i, j) >= 1.0
      {
        LevelBelowAllowance(cap, gains, i, j);
      }
    } else {
      var i := LevelMeetsAllowance(cap, gains, j);
      assert Anchors(cap, gains, i, j) && !(Allowance(cap, gains, i, j) >= 1.0);
    }
  }

  /** A stretch of checks i, ..., j - 1 admits at most the cap plus its gains. */
  lemma {:induction false} StretchBound(cap: real, gains: seq<real>, i: nat, j: nat)
    requires Gainful(cap, gains) && i < j <= |gains|
    ensures Admissions(cap, gains, i, j) as real <= cap + Gained(gains, i, j - 1)
    decreases j - i
  {
    if Admitted(cap, gains, j - 1) {
      LevelBelowAllowance(cap, gains, i, j - 1);
    } else if i < j - 1 {
      StretchBound(cap, gains, i, j - 1);
    }
  }

  /** What `n` admissions account for: a unit each, and one gain lost to the cap. */
  function Spent(n: nat, most: real): real {
    n as real * (1.0 + most)
  }

  /**
   Gains are not wasted: what the counter is given is spent on admissions or still held, but
   for at most one gain per admission, lost to the cap just before it.
   */
  lemma {:induction false} GainsAreSpent(cap: real, gains: seq<real>, most: real, j: nat)
    requires Gainful(cap, gains) && cap >= 1.0 && j < |gains|
    requires forall k | 0 <= k < |gains| :: gains[k] <= most
    ensures Gained(gains, 0, j) <= Spent(Admissions(cap, gains, 0, j + 1), most) + Left(cap, gains, j)
  {
    hide Spent;
    LevelBounds(cap, gains, j);
    if j == 0 {
      OneMore(0, most);
      assert Admissions(cap, gains, 0, 0) == 0 && Admissions(cap, gains, 0, 1) == 1;
    } else {
      GainsAreSpent(cap, gains, most, j - 1);
      LevelBounds(cap, gains, j - 1);
      var n := Admissions(cap, gains, 0, j);
      OneMore(n, most);
      SpendOne(cap, most, Left(cap, gains, j - 1), gains[j], Gained(gains, 0, j - 1), Spent(n, most));
    }
  }

  /** One check of it: `spent` is what earlier admissions account for. */
  lemma SpendOne(cap: real, most: real, left: real, gain: real, gained: real, spent: real)
    requires cap >= 1.0 && left <= cap && 0.0 <= gain <= most && gained <= spent + left
    ensures
      var level := Capped(left + gain, cap);
      gained + gain <= if level >= 1.0 then spent + (1.0 + most) + (level - 1.0) else spent + level
  {
  }

  lemma OneMore(n: nat, most: real)
    ensures Spent(0, most) == 0.0 && Spent(n + 1, most) == Spent(n, most) + (1.0 + most)
  {
  }
}
