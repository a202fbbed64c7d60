/** Yawn detector: a mouth open/closed machine with asymmetric thresholds and a
    minimum open time (app.py:169-185). */
module YawnDetector {
  import opened Config

  /** open: the mouth is currently open; openStart: when it last opened. */
  datatype YawnState = YawnState(open: bool, openStart: real)

  const Closed0: YawnState := YawnState(false, 0.0)

  datatype Outcome = Outcome(next: YawnState, confirmed: bool)

  /** One face frame with mouth-aspect-ratio mar, taken at time now. */
  function Step(y: YawnState, mar: real, now: real): (o: Outcome)
    ensures o.confirmed <==> y.open && mar <= MarClose && now - y.openStart >= YawnMinOpenTime
    ensures !y.open ==> !o.confirmed && o.next == (if mar >= MarOpen then YawnState(true, now) else y)
    ensures y.open && mar > MarClose ==> o.next == y
    ensures y.open && mar <= MarClose ==> o.next == YawnState(false, y.openStart)
  {
    if !y.open then
      if mar >= MarOpen then Outcome(YawnState(true, now), false) else Outcome(y, false)
    else if mar <= MarClose then
      var openTime := now - y.openStart;
      Outcome(y.(open := false), openTime >= YawnMinOpenTime)
    else Outcome(y, false)
  }

  /** One measurement of the mouth. */
  datatype Sample = Sample(mar: real, now: real)

  /** The final state after a run of samples and the number of confirmed yawns. */
  datatype Run = Run(final: YawnState, confirmed: nat)

  /** Each confirmation needs an opening sample before its closing one, so a run
      confirms at most one yawn per two samples (plus one if it starts open). */
  function RunSamples(y: YawnState, samples: seq<Sample>): (r: Run)
    ensures 2 * r.confirmed <= |samples| + (if y.open then 1 else 0)
    decreases |samples|
  {
    if samples == [] then Run(y, 0)
    else
      var o := Step(y, samples[0].mar, samples[0].now);
      var r := RunSamples(o.next, samples[1..]);
      Run(r.final, r.confirmed + if o.confirmed then 1 else 0)
  }

  lemma {:induction false} RunAppend(y: YawnState, a: seq<Sample>, b: seq<Sample>)
    ensures RunSamples(y, a + b) ==
      Run(RunSamples(RunSamples(y, a).final, b).final,
          RunSamples(y, a).confirmed + RunSamples(RunSamples(y, a).final, b).confirmed)
    decreases |a|
  {
    if a == [] {
      assert a + b == b;
    } else {
      assert (a + b)[1..] == a[1..] + b;
      RunAppend(Step(y, a[0].mar, a[0].now).next, a[1..], b);
    }
  }

  /** A closed mouth whose ratio stays below MarOpen stays closed and confirms nothing. */
  lemma {:induction false} ClosedStaysClosed(y: YawnState, samples: seq<Sample>)
    requires !y.open
    requires forall i :: 0 <= i < |samples| ==> samples[i].mar < MarOpen
    ensures RunSamples(y, samples) == Run(y, 0)
    decreases |samples|
  {
    if samples != [] {
      ClosedStaysClosed(y, samples[1..]);
    }
  }

  /** An open mouth whose ratio stays above MarClose stays open with the same start
      time and confirms nothing, however long it stays open. */
  lemma {:induction false} OpenStaysOpen(y: YawnState, samples: seq<Sample>)
    requires y.open
    requires forall i :: 0 <= i < |samples| ==> samples[i].mar > MarClose
    ensures RunSamples(y, samples) == Run(y, 0)
    decreases |samples|
  {
    if samples != [] {
      OpenStaysOpen(y, samples[1..]);
    }
  }

  /** Minimum duration: one open period, from the sample that opens the mouth to
      the sample that closes it, confirms exactly one yawn when it lasted at least
      YawnMinOpenTime and none otherwise; either way the mouth is closed again. */
  lemma OpenPeriodConfirmsIffLongEnough(y: YawnState, start: Sample, held: seq<Sample>, end: Sample)
    requires !y.open
    requires start.mar >= MarOpen
    requires forall i :: 0 <= i < |held| ==> held[i].mar > MarClose
    requires end.mar <= MarClose
    ensures RunSamples(y, [start] + held + [end]) ==
      Run(YawnState(false, start.now), if end.now - start.now >= YawnMinOpenTime then 1 else 0)
  {
    var openState := YawnState(true, start.now);
    assert [start] + held + [end] == [start] + (held + [end]);
    RunAppend(y, [start], held + [end]);
    OpenStaysOpen(openState, held);
    RunAppend(openState, held, [end]);
  }

  /** The mouth open at MAR 0.75 for 0.6 s, then 0.40. */
  lemma YawnScenario(t: real)
    ensures RunSamples(Closed0, [Sample(0.75, t), Sample(0.75, t + 0.3), Sample(0.40, t + 0.6)]).confirmed == 1
  {
    OpenPeriodConfirmsIffLongEnough(Closed0, Sample(0.75, t), [Sample(0.75, t + 0.3)], Sample(0.40, t + 0.6));
    assert [Sample(0.75, t)] + [Sample(0.75, t + 0.3)] + [Sample(0.40, t + 0.6)]
        == [Sample(0.75, t), Sample(0.75, t + 0.3), Sample(0.40, t + 0.6)];
  }
}
