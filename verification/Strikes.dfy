/** What trips a key: three failures in a row, and nothing else. */
module Strikes {
  import opened Numbers
  import opened Results
  import opened PoolModel

  /** A report of the outcome of a request with this key. */
  datatype Report = Report(key: string, ok: bool)

  /** Reports of any keys, in order; no recovery runs in between. */
  function Reports(p: Pool, reports: seq<Report>): Pool {
    if reports == [] then p
    else
      Reported(Reports(p, reports[..|reports| - 1]), reports[|reports| - 1])
  }

  function Reported(p: Pool, r: Report): Pool {
    if r.ok then ReportSuccess(p, r.key) else ReportFailure(p, r.key)
  }

  /** The outcomes reported for one key. */
  function Of(reports: seq<Report>, key: string): seq<bool> {
    if reports == [] then []
    else
      var rest, last := Of(reports[..|reports| - 1], key), reports[|reports| - 1];
      if last.key == key then rest + [last.ok] else rest
  }

  /** Reports i, i + 1 and i + 2 are failures. */
  predicate ThreeAt(oks: seq<bool>, i: nat) {
    i + 2 < |oks| && !oks[i] && !oks[i + 1] && !oks[i + 2]
  }

  predicate ThreeInARow(oks: seq<bool>) {
    exists i: nat :: i < |oks| && ThreeAt(oks, i)
  }

  /** Failures since the last success. */
  function Trailing(oks: seq<bool>): nat {
    if oks == [] || oks[|oks| - 1] then 0 else 1 + Trailing(oks[..|oks| - 1])
  }

  lemma {:induction false} TrailingAreFailures(oks: seq<bool>, k: nat)
    requires k < Trailing(oks)
    ensures k < |oks| && !oks[|oks| - 1 - k]
  {
    if k > 0 {
      TrailingAreFailures(oks[..|oks| - 1], k - 1);
    }
  }

  lemma ThreeAtEnd(oks: seq<bool>)
    requires oks != []
    ensures Trailing(oks) >= 3 <==> |oks| >= 3 && ThreeAt(oks, |oks| - 3)
  {
    if Trailing(oks) >= 3 {
      TrailingAreFailures(oks, 0);
      TrailingAreFailures(oks, 1);
      TrailingAreFailures(oks, 2);
    } else if |oks| >= 3 {
      TrailingOfThree(oks[..|oks| - 3], oks[|oks| - 3], oks[|oks| - 2], oks[|oks| - 1]);
      assert oks == oks[..|oks| - 3] + [oks[|oks| - 3]] + [oks[|oks| - 2]] + [oks[|oks| - 1]];
    }
  }

  lemma TrailingOfThree(init: seq<bool>, a: bool, b: bool, c: bool)
    ensures !a && !b && !c ==> Trailing(init + [a] + [b] + [c]) >= 3
  {
    TrailingAppend(init, a);
    TrailingAppend(init + [a], b);
    TrailingAppend(init + [a] + [b], c);
  }

  lemma TrailingAppend(init: seq<bool>, ok: bool)
    ensures Trailing(init + [ok]) == if ok then 0 else 1 + Trailing(init)
  {
    assert (init + [ok])[..|init|] == init;
  }

  /** A third failure in a row is seen when it is the last report, or was seen before. */
  lemma ThreeInARowStep(oks: seq<bool>)
    requires oks != []
    ensures ThreeInARow(oks) <==> ThreeInARow(oks[..|oks| - 1]) || Trailing(oks) >= 3
  {
    hide Trailing;
    var n := |oks| - 1;
    var init := oks[..n];
    ThreeAtEnd(oks);
    forall i: nat | i < n - 2
      ensures ThreeAt(init, i) == ThreeAt(oks, i)
    {
      assert init[i] == oks[i] && init[i + 1] == oks[i + 1] && init[i + 2] == oks[i + 2];
    }
    if ThreeInARow(init) {
      var i: nat :| i < |init| && ThreeAt(init, i);
      assert ThreeAt(oks, i);
    }
    if ThreeInARow(oks) {
      var i: nat :| i < |oks| && ThreeAt(oks, i);
      if i < n - 2 {
        assert ThreeAt(init, i);
      }
    }
  }

  /** Only health and error counts change: keys stay where they are found. */
  predicate SamePlaces(a: seq<KeyState>, b: seq<KeyState>) {
    |a| == |b| && forall j | 0 <= j < |a| :: a[j].key == b[j].key
  }

  lemma FoundAlike(a: seq<KeyState>, b: seq<KeyState>, key: string)
    requires SamePlaces(a, b)
    ensures Find(a, key) == Find(b, key)
  {
    assert forall j | 0 <= j < |a| :: a[j].key == b[j].key;
  }

  lemma {:induction false} ReportsKeepPlaces(p: Pool, reports: seq<Report>)
    ensures SamePlaces(p.keys, Reports(p, reports).keys) && Reports(p, reports).cursor == p.cursor
  {
    if reports != [] {
      ReportsKeepPlaces(p, reports[..|reports| - 1]);
    }
  }

  /** One report changes the first entry with its key, and no other. */
  lemma ReportedAt(p: Pool, i: nat, r: Report)
    requires i < |p.keys| && Find(p.keys, p.keys[i].key) == Some(i)
    ensures |Reported(p, r).keys| == |p.keys|
    ensures Reported(p, r).keys[i] ==
      if r.key != p.keys[i].key then p.keys[i] else if r.ok then Cleared(p.keys[i]) else Failed(p.keys[i])
  {
  }

  /**
   Three strikes, in a pool that may even list a key twice and with the reports of all keys
   mixed: starting healthy and without errors, the first entry with a key has been tripped
   if and only if the reports of that key contain three failures in a row, and its error
   count is the number of failures since the last success.
   */
  lemma {:induction false} ThreeStrikes(p: Pool, i: nat, reports: seq<Report>)
    requires i < |p.keys| && Find(p.keys, p.keys[i].key) == Some(i) && p.keys[i].healthy && p.keys[i].errors == 0
    ensures
      var q, own := Reports(p, reports), Of(reports, p.keys[i].key);
      && |q.keys| == |p.keys|
      && q.keys[i] == p.keys[i].(healthy := !ThreeInARow(own), errors := Wrap32(Trailing(own)))
  {
    if reports != [] {
      hide ThreeInARow, Find, Trailing, Reported;
      var init, last := reports[..|reports| - 1], reports[|reports| - 1];
      var q, own := Reports(p, init), Of(init, p.keys[i].key);
      ThreeStrikes(p, i, init);
      ReportsKeepPlaces(p, init);
      FoundAlike(p.keys, q.keys, p.keys[i].key);
      ReportedAt(q, i, last);
      OneMoreReport(own, last.ok);
    }
  }

  /** What one more report of the key makes of the two counts. */
  lemma OneMoreReport(own: seq<bool>, ok: bool)
    ensures Trailing(own + [ok]) == if ok then 0 else Trailing(own) + 1
    ensures Wrap32(Trailing(own + [ok])) == if ok then 0 else Wrap32(Wrap32(Trailing(own)) + 1)
    ensures ThreeInARow(own + [ok]) <==> ThreeInARow(own) || (!ok && Wrap32(Trailing(own) + 1) >= 3)
  {
    TrailingAppend(own, ok);
    WrapAdd(Trailing(own), 1);
    ThreeInARowStep(own + [ok]);
    assert (own + [ok])[..|own|] == own;
    NoThreeFewTrailing(own);
  }

  /** An entry behind another one with the same key is never reported on: no failures of the key ever trip it. */
  lemma {:induction false} ShadowedNeverTrips(p: Pool, i: nat, reports: seq<Report>)
    requires i < |p.keys| && Find(p.keys, p.keys[i].key) != Some(i)
    ensures |Reports(p, reports).keys| == |p.keys| && Reports(p, reports).keys[i] == p.keys[i]
  {
    if reports != [] {
      var init, last := reports[..|reports| - 1], reports[|reports| - 1];
      ShadowedNeverTrips(p, i, init);
      ReportsKeepPlaces(p, init);
      FoundAlike(p.keys, Reports(p, init).keys, last.key);
    }
  }

  lemma NoThreeFewTrailing(oks: seq<bool>)
    ensures Trailing(oks) >= 3 ==> ThreeInARow(oks)
  {
    if oks != [] {
      ThreeInARowStep(oks);
    }
  }
}
