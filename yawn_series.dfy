/** Yawn-series aggregator: timestamps of confirmed yawns in a sliding window,
    escalating to an alert (app.py:186-196). */
module YawnSeries {
  import opened Config

  predicate Sorted(s: seq<real>) {
    forall i, j :: 0 <= i < j < |s| ==> s[i] <= s[j]
  }

  /** Drop timestamps from the front for as long as the oldest one is more than
      YawnSeriesWindow seconds before now. */
  function Evict(times: seq<real>, now: real): (r: seq<real>)
    ensures |r| <= |times|
    ensures r != [] ==> now - r[0] <= YawnSeriesWindow
    decreases |times|
  {
    if times != [] && now - times[0] > YawnSeriesWindow then Evict(times[1..], now) else times
  }

  /** Eviction drops a prefix of stale timestamps and stops at the first one at
      most YawnSeriesWindow seconds old. */
  lemma {:induction false} EvictDropsStalePrefix(times: seq<real>, now: real)
    ensures |Evict(times, now)| <= |times|
    ensures Evict(times, now) == times[|times| - |Evict(times, now)|..]
    ensures forall i :: 0 <= i < |times| - |Evict(times, now)| ==> now - times[i] > YawnSeriesWindow
    ensures Evict(times, now) != [] ==> now - Evict(times, now)[0] <= YawnSeriesWindow
    decreases |times|
  {
    if times != [] && now - times[0] > YawnSeriesWindow {
      EvictDropsStalePrefix(times[1..], now);
    }
  }

  /** For ordered timestamps, eviction keeps exactly the timestamps inside the
      window; a timestamp exactly YawnSeriesWindow old is kept. */
  lemma EvictKeepsWindow(times: seq<real>, now: real)
    requires Sorted(times)
    ensures Sorted(Evict(times, now))
    ensures forall t :: t in Evict(times, now) <==> t in times && now - t <= YawnSeriesWindow
  {
    EvictDropsStalePrefix(times, now);
    var r := Evict(times, now);
    var k := |times| - |r|;
    forall t | t in times && now - t <= YawnSeriesWindow ensures t in r {
      var i :| 0 <= i < |times| && times[i] == t;
      assert i >= k;
      assert r[i - k] == t;
    }
    forall t | t in r ensures now - t <= YawnSeriesWindow {
      var i :| 0 <= i < |r| && r[i] == t;
      assert r[0] == times[k] && r[i] == times[k + i];
    }
  }

  lemma SortedSnoc(times: seq<real>, now: real)
    requires Sorted(times)
    requires forall t :: t in times ==> t <= now
    ensures Sorted(times + [now])
  {
    var s := times + [now];
    forall i, j | 0 <= i < j < |s| ensures s[i] <= s[j] {
      if j == |times| {
        assert s[i] == times[i] && times[i] in times;
      }
    }
  }

  datatype Outcome = Outcome(window: seq<real>, alert: bool)

  /** A yawn confirmed at now: append, evict, and fire an alert that clears the
      window once it holds YawnSeriesCount timestamps. */
  function Confirm(times: seq<real>, now: real): (o: Outcome)
    ensures o.alert <==> |Evict(times + [now], now)| >= YawnSeriesCount
    ensures |o.window| < YawnSeriesCount
    ensures o.alert ==> o.window == []
    ensures !o.alert ==> o.window == Evict(times + [now], now)
    ensures !o.alert ==> o.window != [] && o.window[|o.window| - 1] == now
  {
    var w := Evict(times + [now], now);
    assert w != [] && w[|w| - 1] == now by {
      var s := times + [now];
      EvictDropsStalePrefix(s, now);
      assert now - s[|s| - 1] <= YawnSeriesWindow;
    }
    if |w| >= YawnSeriesCount then Outcome([], true) else Outcome(w, false)
  }

  /** For ordered timestamps no later than now, the window stays ordered and
      holds only timestamps within YawnSeriesWindow of now. */
  lemma ConfirmKeepsWindow(times: seq<real>, now: real)
    requires Sorted(times)
    requires forall t :: t in times ==> t <= now
    ensures Sorted(Confirm(times, now).window)
    ensures forall t :: t in Confirm(times, now).window ==> t <= now && now - t <= YawnSeriesWindow
  {
    var s := times + [now];
    SortedSnoc(times, now);
    EvictKeepsWindow(s, now);
    var w := Confirm(times, now).window;
    assert w == [] || w == Evict(s, now);
    forall t | t in w ensures t <= now && now - t <= YawnSeriesWindow {
      assert t in s;
      if t in times {
      }
    }
  }

  /** The window after a sequence of confirmations, and the alerts they raised. */
  datatype SeriesRun = SeriesRun(window: seq<real>, alerts: nat)

  function Series(times: seq<real>, confirmations: seq<real>): (r: SeriesRun)
    ensures r.alerts <= |confirmations|
    ensures confirmations != [] ==> |r.window| < YawnSeriesCount
    decreases |confirmations|
  {
    if confirmations == [] then SeriesRun(times, 0)
    else
      var o := Confirm(times, confirmations[0]);
      var r := Series(o.window, confirmations[1..]);
      SeriesRun(r.window, r.alerts + if o.alert then 1 else 0)
  }

  /** Every alert is paid for by YawnSeriesCount confirmations: alerts never come
      faster than one per YawnSeriesCount confirmed yawns. */
  lemma {:induction false} AlertsAreEarned(times: seq<real>, confirmations: seq<real>)
    ensures Series(times, confirmations).alerts * YawnSeriesCount + |Series(times, confirmations).window|
            <= |times| + |confirmations|
    decreases |confirmations|
  {
    if confirmations != [] {
      EvictDropsStalePrefix(times + [confirmations[0]], confirmations[0]);
      AlertsAreEarned(Confirm(times, confirmations[0]).window, confirmations[1..]);
    }
  }

  /** Feeding a + b is feeding a, then b from the window a leaves. */
  lemma {:induction false} SeriesAppend(times: seq<real>, a: seq<real>, b: seq<real>)
    ensures Series(times, a + b) ==
      SeriesRun(Series(Series(times, a).window, b).window,
                Series(times, a).alerts + Series(Series(times, a).window, b).alerts)
    decreases |a|
  {
    if a == [] {
      assert a + b == b;
    } else {
      assert (a + b)[1..] == a[1..] + b;
      SeriesAppend(Confirm(times, a[0]).window, a[1..], b);
    }
  }

  lemma ConfirmFirst(now: real)
    ensures Confirm([], now) == Outcome([now], false)
  {
    assert [] + [now] == [now];
    assert Evict([now], now) == [now];
  }

  /** Yawns at 0, 3 and 6 s raise an alert at 6 and leave the window empty. */
  lemma SeriesScenario()
    ensures Series([], [0.0, 3.0, 6.0]) == SeriesRun([], 1)
  {
    ConfirmFirst(0.0);
    assert Confirm([0.0], 3.0) == Outcome([0.0, 3.0], false) by {
      assert [0.0] + [3.0] == [0.0, 3.0];
      assert Evict([0.0, 3.0], 3.0) == [0.0, 3.0];
    }
    assert Confirm([0.0, 3.0], 6.0) == Outcome([], true) by {
      assert [0.0, 3.0] + [6.0] == [0.0, 3.0, 6.0];
      assert Evict([0.0, 3.0, 6.0], 6.0) == [0.0, 3.0, 6.0];
    }
    assert Series([0.0, 3.0], [6.0]) == SeriesRun([], 1) by {
      assert [6.0][1..] == [];
    }
    assert Series([0.0], [3.0, 6.0]) == SeriesRun([], 1) by {
      assert [3.0, 6.0][1..] == [6.0];
    }
    assert [0.0, 3.0, 6.0][1..] == [3.0, 6.0];
  }

  /** Any three yawns within YawnSeriesWindow seconds of each other, fed to an
      empty window, raise exactly one alert and leave the window empty. */
  lemma ThreeWithinWindowAlert(t1: real, t2: real, t3: real)
    requires t1 <= t2 <= t3 && t3 - t1 <= YawnSeriesWindow
    ensures Series([], [t1, t2, t3]) == SeriesRun([], 1)
  {
    ConfirmFirst(t1);
    assert Confirm([t1], t2) == Outcome([t1, t2], false) by {
      assert [t1] + [t2] == [t1, t2];
      assert Evict([t1, t2], t2) == [t1, t2];
    }
    assert Confirm([t1, t2], t3) == Outcome([], true) by {
      assert [t1, t2] + [t3] == [t1, t2, t3];
      assert Evict([t1, t2, t3], t3) == [t1, t2, t3];
    }
    assert Series([t1, t2], [t3]) == SeriesRun([], 1) by {
      assert [t3][1..] == [];
    }
    assert Series([t1], [t2, t3]) == SeriesRun([], 1) by {
      assert [t2, t3][1..] == [t3];
    }
    assert [t1, t2, t3][1..] == [t2, t3];
  }

  /** After the alert the aggregator starts from nothing: a fourth yawn at 6.5 s
      is alone in the window. */
  lemma SeriesRestartsAfterAlert()
    ensures Series([], [0.0, 3.0, 6.0, 6.5]) == SeriesRun([6.5], 1)
  {
    SeriesScenario();
    ConfirmFirst(6.5);
    assert Series([], [6.5]) == SeriesRun([6.5], 0) by {
      assert [6.5][1..] == [];
    }
    SeriesAppend([], [0.0, 3.0, 6.0], [6.5]);
    assert [0.0, 3.0, 6.0] + [6.5] == [0.0, 3.0, 6.0, 6.5];
  }

  /** Yawns at 0 and 9 s never share the window. */
  lemma EvictionScenario()
    ensures Series([], [0.0, 9.0]) == SeriesRun([9.0], 0)
  {
    ConfirmFirst(0.0);
    assert Confirm([0.0], 9.0) == Outcome([9.0], false) by {
      assert [0.0] + [9.0] == [0.0, 9.0];
      assert [0.0, 9.0][1..] == [9.0];
      assert Evict([9.0], 9.0) == [9.0];
      assert Evict([0.0, 9.0], 9.0) == [9.0];
    }
    assert Series([0.0], [9.0]) == SeriesRun([9.0], 0) by {
      assert [9.0][1..] == [];
    }
    assert [0.0, 9.0][1..] == [9.0];
  }
}
