/** The per-frame detection engine of detection_loop (app.py:72-226): the three
    detectors, the shared counters and the bounded event log, as one state. */
module Engine {
  import opened Config
  import EventLog
  import Eye = EyeDetector
  import Yawn = YawnDetector
  import Series = YawnSeries

  /** The entries of the events log, each with the label the dashboard shows. */
  datatype Event = EyeClosure | YawnConfirmed | YawnSeriesAlert {
    function Label(): (r: string)
      ensures r != []
    {
      match this
      case EyeClosure => "👀 Cierre de ojos prolongado"
      case YawnConfirmed => "😮 Bostezo confirmado"
      case YawnSeriesAlert => "⚠️ Demasiados bostezos en poco tiempo"
    }
  }

  /** The three log entries have pairwise different labels. */
  lemma LabelsDistinct(a: Event, b: Event)
    ensures a.Label() == b.Label() <==> a == b
  {
    if a != b {
      assert a.Label()[1..4] != b.Label()[1..4] || a.Label()[0] != b.Label()[0];
    }
  }

  /** The stats dictionary (app.py:23-27). */
  datatype Stats = Stats(yawnsTotal: nat, eyeClosuresTotal: nat, alertsTotal: nat)

  datatype EngineState = EngineState(
    eye: Eye.EyeState,
    yawn: Yawn.YawnState,
    stats: Stats,
    events: seq<Event>,
    yawnTimes: seq<real>)

  /** The state when the detection thread starts. */
  const Initial: EngineState :=
    EngineState(Eye.Armed0, Yawn.Closed0, Stats(0, 0, 0), [], [])

  /** The invariant kept by every frame: the eye invariant, the log capacity, the
      window below the alert count and in time order, and every series alert
      paid for by YawnSeriesCount confirmed yawns. */
  predicate Inv(st: EngineState)
    ensures Inv(st) ==>
      st.stats.alertsTotal <= st.stats.eyeClosuresTotal + st.stats.yawnsTotal / YawnSeriesCount
  {
    && Eye.Inv(st.eye)
    && |st.events| <= EventsCapacity
    && |st.yawnTimes| < YawnSeriesCount
    && Series.Sorted(st.yawnTimes)
    && st.stats.alertsTotal >= st.stats.eyeClosuresTotal
    && (st.stats.alertsTotal - st.stats.eyeClosuresTotal) * YawnSeriesCount + |st.yawnTimes|
       <= st.stats.yawnsTotal
  }

  /** No stored yawn timestamp is later than now. */
  predicate NotAfter(times: seq<real>, now: real) {
    forall t :: t in times ==> t <= now
  }

  /** Append one entry to the events log. */
  function Log(st: EngineState, e: Event): (r: EngineState)
    requires |st.events| <= EventsCapacity
    ensures r.events == EventLog.LastN(st.events + [e], EventsCapacity)
    ensures r.eye == st.eye && r.yawn == st.yawn && r.stats == st.stats && r.yawnTimes == st.yawnTimes
  {
    st.(events := EventLog.Push(st.events, e, EventsCapacity))
  }

  /** The eye part of a face frame (app.py:143-166). */
  function EyePhase(st: EngineState, ear: real): (r: EngineState)
    requires |st.events| <= EventsCapacity
    ensures |r.events| <= EventsCapacity
  {
    var o := Eye.Step(st.eye, ear);
    if o.fired then
      Log(st.(eye := o.next,
              stats := st.stats.(eyeClosuresTotal := st.stats.eyeClosuresTotal + 1,
                                 alertsTotal := st.stats.alertsTotal + 1)),
          EyeClosure)
    else st.(eye := o.next)
  }

  /** A confirmed yawn at time now (app.py:182-196): count and log it, then feed
      the series window. */
  function ConfirmYawn(st: EngineState, now: real): (r: EngineState)
    requires |st.events| <= EventsCapacity
    ensures |r.events| <= EventsCapacity
  {
    var st1 := Log(st.(stats := st.stats.(yawnsTotal := st.stats.yawnsTotal + 1)), YawnConfirmed);
    var c := Series.Confirm(st.yawnTimes, now);
    if c.alert then
      Log(st1.(stats := st1.stats.(alertsTotal := st1.stats.alertsTotal + 1), yawnTimes := c.window),
          YawnSeriesAlert)
    else st1.(yawnTimes := c.window)
  }

  /** The yawn part of a face frame (app.py:169-196). */
  function YawnPhase(st: EngineState, mar: real, now: real): (r: EngineState)
    requires |st.events| <= EventsCapacity
    ensures |r.events| <= EventsCapacity
  {
    var o := Yawn.Step(st.yawn, mar, now);
    if o.confirmed then ConfirmYawn(st.(yawn := o.next), now) else st.(yawn := o.next)
  }

  /** A frame with a face, eye-aspect-ratio ear and mouth-aspect-ratio mar, at time now. */
  function FaceStep(st: EngineState, ear: real, mar: real, now: real): (r: EngineState)
    requires |st.events| <= EventsCapacity
    ensures |r.events| <= EventsCapacity
  {
    YawnPhase(EyePhase(st, ear), mar, now)
  }

  /** A frame without a face (app.py:111-114): only the eye detector is reset. */
  function NoFaceStep(st: EngineState): (r: EngineState)
    ensures r.eye == Eye.Armed0
    ensures r.yawn == st.yawn && r.yawnTimes == st.yawnTimes
    ensures r.stats == st.stats && r.events == st.events
    ensures Inv(st) ==> Inv(r)
  {
    st.(eye := Eye.NoFace(st.eye))
  }

  /** Every face frame keeps the invariant; after a frame that confirms a yawn,
      every stored timestamp lies within YawnSeriesWindow of now. */
  lemma FaceStepKeepsInv(st: EngineState, ear: real, mar: real, now: real)
    requires Inv(st) && NotAfter(st.yawnTimes, now)
    ensures Inv(FaceStep(st, ear, mar, now))
    ensures NotAfter(FaceStep(st, ear, mar, now).yawnTimes, now)
    ensures Yawn.Step(st.yawn, mar, now).confirmed ==>
      forall t :: t in FaceStep(st, ear, mar, now).yawnTimes ==> now - t <= YawnSeriesWindow
  {
    var mid := EyePhase(st, ear);
    assert Inv(mid);
    Series.ConfirmKeepsWindow(st.yawnTimes, now);
    Series.EvictDropsStalePrefix(st.yawnTimes + [now], now);
  }

  /** The events the eye part of a frame appends. */
  function EyeEvents(st: EngineState, ear: real): seq<Event> {
    if Eye.Step(st.eye, ear).fired then [EyeClosure] else []
  }

  /** The events the yawn part of a frame appends, in the order the code appends them. */
  function YawnEvents(st: EngineState, mar: real, now: real): seq<Event> {
    if !Yawn.Step(st.yawn, mar, now).confirmed then []
    else if Series.Confirm(st.yawnTimes, now).alert then [YawnConfirmed, YawnSeriesAlert]
    else [YawnConfirmed]
  }

  /** The events a face frame appends. */
  function Emitted(st: EngineState, ear: real, mar: real, now: real): seq<Event> {
    EyeEvents(st, ear) + YawnEvents(st, mar, now)
  }

  lemma EyePhaseAccounting(st: EngineState, ear: real)
    requires |st.events| <= EventsCapacity
    ensures var r := EyePhase(st, ear);
            var e := EyeEvents(st, ear);
            && r.events == EventLog.PushAll(st.events, e, EventsCapacity)
            && r.stats.eyeClosuresTotal == st.stats.eyeClosuresTotal + |e|
            && r.stats.alertsTotal == st.stats.alertsTotal + |e|
            && r.stats.yawnsTotal == st.stats.yawnsTotal
            && r.yawn == st.yawn && r.yawnTimes == st.yawnTimes
            && multiset(e)[YawnConfirmed] == 0 && multiset(e)[YawnSeriesAlert] == 0
            && multiset(e)[EyeClosure] == |e|
  {
    if Eye.Step(st.eye, ear).fired {
      var one := EventLog.Push(st.events, EyeClosure, EventsCapacity);
      assert EventLog.PushAll(one, [], EventsCapacity) == one;
    }
  }

  lemma YawnPhaseAccounting(st: EngineState, mar: real, now: real)
    requires |st.events| <= EventsCapacity
    ensures var r := YawnPhase(st, mar, now);
            var e := YawnEvents(st, mar, now);
            && r.events == EventLog.PushAll(st.events, e, EventsCapacity)
            && r.stats.eyeClosuresTotal == st.stats.eyeClosuresTotal
            && r.stats.yawnsTotal == st.stats.yawnsTotal + multiset(e)[YawnConfirmed]
            && r.stats.alertsTotal == st.stats.alertsTotal + multiset(e)[YawnSeriesAlert]
            && multiset(e)[EyeClosure] == 0
  {
    var cap := EventsCapacity;
    var e := YawnEvents(st, mar, now);
    if Yawn.Step(st.yawn, mar, now).confirmed {
      var one := EventLog.Push(st.events, YawnConfirmed, cap);
      if Series.Confirm(st.yawnTimes, now).alert {
        var two := EventLog.Push(one, YawnSeriesAlert, cap);
        assert EventLog.PushAll(two, [], cap) == two;
        assert EventLog.PushAll(one, [YawnSeriesAlert], cap) == two;
        assert [YawnConfirmed, YawnSeriesAlert][1..] == [YawnSeriesAlert];
        assert multiset(e) == multiset{YawnConfirmed, YawnSeriesAlert};
      } else {
        assert EventLog.PushAll(one, [], cap) == one;
        assert multiset(e) == multiset{YawnConfirmed};
      }
    }
  }

  /** Counters and log move together: the log receives exactly the frame's events,
      and each counter grows by the number of its events among them. */
  lemma FrameAccounting(st: EngineState, ear: real, mar: real, now: real)
    requires |st.events| <= EventsCapacity
    ensures var r := FaceStep(st, ear, mar, now);
            var e := Emitted(st, ear, mar, now);
            && r.events == EventLog.PushAll(st.events, e, EventsCapacity)
            && r.stats.eyeClosuresTotal == st.stats.eyeClosuresTotal + multiset(e)[EyeClosure]
            && r.stats.yawnsTotal == st.stats.yawnsTotal + multiset(e)[YawnConfirmed]
            && r.stats.alertsTotal
               == st.stats.alertsTotal + multiset(e)[EyeClosure] + multiset(e)[YawnSeriesAlert]
  {
    var mid := EyePhase(st, ear);
    EyePhaseAccounting(st, ear);
    YawnPhaseAccounting(mid, mar, now);
    assert YawnEvents(mid, mar, now) == YawnEvents(st, mar, now);
    EventLog.PushAllConcat(st.events, EyeEvents(st, ear), YawnEvents(st, mar, now), EventsCapacity);
  }

  /** The eye part of the frame (EyePhase) on which a closure is reported changes,
      besides the eye state, only the closure and alert counters (by one each)
      and the log (one entry). The yawn part of the same frame may still change
      the rest. */
  lemma ClosureFrameTouchesOnlyItsOwn(st: EngineState, ear: real)
    requires |st.events| <= EventsCapacity
    requires Eye.Step(st.eye, ear).fired
    ensures EyePhase(st, ear) ==
      EngineState(Eye.Tripped, st.yawn,
                  Stats(st.stats.yawnsTotal, st.stats.eyeClosuresTotal + 1, st.stats.alertsTotal + 1),
                  EventLog.Push(st.events, EyeClosure, EventsCapacity), st.yawnTimes)
  {
  }

  /** The eye part of a frame (EyePhase) on which no closure is reported changes
      nothing but the eye state; the yawn part never changes the eye state, so
      the eye state of the whole frame is the eye detector's. */
  lemma QuietEyeFrame(st: EngineState, ear: real, mar: real, now: real)
    requires |st.events| <= EventsCapacity
    requires !Eye.Step(st.eye, ear).fired
    ensures EyePhase(st, ear) == st.(eye := Eye.Step(st.eye, ear).next)
    ensures FaceStep(st, ear, mar, now).eye == Eye.Step(st.eye, ear).next
  {
  }

  /** The yawn part of a frame confirms a yawn exactly when yawnsTotal grows; when
      it confirms none, only the mouth state changes. */
  lemma YawnFrame(st: EngineState, mar: real, now: real)
    requires |st.events| <= EventsCapacity
    ensures var r := YawnPhase(st, mar, now);
            && r.eye == st.eye
            && r.yawn == Yawn.Step(st.yawn, mar, now).next
            && (r.stats.yawnsTotal == st.stats.yawnsTotal + 1 <==> Yawn.Step(st.yawn, mar, now).confirmed)
            && (!Yawn.Step(st.yawn, mar, now).confirmed ==> r == st.(yawn := r.yawn))
            && r.yawnTimes == (if Yawn.Step(st.yawn, mar, now).confirmed
                               then Series.Confirm(st.yawnTimes, now).window else st.yawnTimes)
  {
  }

  /** The yawn path is blind to a preceding no-face frame: the mouth state, the
      window and the yawn count come out as if that frame had not happened. */
  lemma NoFaceLeavesYawnPath(st: EngineState, ear: real, mar: real, now: real)
    requires |st.events| <= EventsCapacity
    ensures var with := FaceStep(NoFaceStep(st), ear, mar, now);
            var without := FaceStep(st, ear, mar, now);
            && with.yawn == without.yawn
            && with.yawnTimes == without.yawnTimes
            && with.stats.yawnsTotal == without.stats.yawnsTotal
  {
  }

  /** One frame of the capture loop. */
  datatype Frame = Face(ear: real, mar: real, now: real) | NoFace

  function Apply(st: EngineState, f: Frame): (r: EngineState)
    requires |st.events| <= EventsCapacity
    ensures |r.events| <= EventsCapacity
  {
    match f
    case Face(ear, mar, now) => FaceStep(st, ear, mar, now)
    case NoFace => NoFaceStep(st)
  }

  function Run(st: EngineState, frames: seq<Frame>): (r: EngineState)
    requires |st.events| <= EventsCapacity
    ensures |r.events| <= EventsCapacity
    decreases |frames|
  {
    if frames == [] then st else Run(Apply(st, frames[0]), frames[1..])
  }

  /** Counters never decrease, over any run of frames. */
  lemma {:induction false} CountersNeverDecrease(st: EngineState, frames: seq<Frame>)
    requires |st.events| <= EventsCapacity
    ensures Run(st, frames).stats.yawnsTotal >= st.stats.yawnsTotal
    ensures Run(st, frames).stats.eyeClosuresTotal >= st.stats.eyeClosuresTotal
    ensures Run(st, frames).stats.alertsTotal >= st.stats.alertsTotal
    decreases |frames|
  {
    if frames != [] {
      CountersNeverDecrease(Apply(st, frames[0]), frames[1..]);
    }
  }

  /** The timestamps of the face frames are in order and none precedes a stored one. */
  ghost predicate InOrder(times: seq<real>, frames: seq<Frame>) {
    && (forall i :: 0 <= i < |frames| && frames[i].Face? ==> NotAfter(times, frames[i].now))
    && (forall i, j :: 0 <= i < j < |frames| && frames[i].Face? && frames[j].Face? ==>
          frames[i].now <= frames[j].now)
  }

  /** Every run whose clock does not go backwards keeps the invariant. */
  lemma {:induction false} RunKeepsInv(st: EngineState, frames: seq<Frame>)
    requires Inv(st) && InOrder(st.yawnTimes, frames)
    ensures Inv(Run(st, frames))
    decreases |frames|
  {
    if frames != [] {
      var next := Apply(st, frames[0]);
      if frames[0].Face? {
        var f := frames[0];
        FaceStepKeepsInv(st, f.ear, f.mar, f.now);
        forall i | 0 <= i < |frames[1..]| && frames[1..][i].Face?
          ensures NotAfter(next.yawnTimes, frames[1..][i].now)
        {
          assert frames[1..][i] == frames[i + 1];
          assert f.now <= frames[i + 1].now;
        }
      }
      assert InOrder(next.yawnTimes, frames[1..]) by {
        forall i, j | 0 <= i < j < |frames[1..]| && frames[1..][i].Face? && frames[1..][j].Face?
          ensures frames[1..][i].now <= frames[1..][j].now
        {
          assert frames[1..][i] == frames[i + 1] && frames[1..][j] == frames[j + 1];
        }
      }
      RunKeepsInv(next, frames[1..]);
    }
  }

  /** The mouth samples of the face frames, in order; no-face frames give none. */
  function Samples(frames: seq<Frame>): seq<Yawn.Sample>
    decreases |frames|
  {
    if frames == [] then []
    else (if frames[0].Face? then [Yawn.Sample(frames[0].mar, frames[0].now)] else []) + Samples(frames[1..])
  }

  /** The yawn count of any run equals what the yawn detector alone confirms on the
      run's face frames: frames without a face neither reset nor advance it. */
  lemma {:induction false} YawnsFollowMouth(st: EngineState, frames: seq<Frame>)
    requires |st.events| <= EventsCapacity
    ensures Run(st, frames).yawn == Yawn.RunSamples(st.yawn, Samples(frames)).final
    ensures Run(st, frames).stats.yawnsTotal
            == st.stats.yawnsTotal + Yawn.RunSamples(st.yawn, Samples(frames)).confirmed
    decreases |frames|
  {
    if frames != [] {
      var next := Apply(st, frames[0]);
      YawnsFollowMouth(next, frames[1..]);
      var rest := Samples(frames[1..]);
      if frames[0].Face? {
        var f := frames[0];
        var smp := Yawn.Sample(f.mar, f.now);
        EyePhaseAccounting(st, f.ear);
        YawnFrame(EyePhase(st, f.ear), f.mar, f.now);
        assert Samples(frames) == [smp] + rest;
        assert ([smp] + rest)[1..] == rest;
      } else {
        assert Samples(frames) == rest;
      }
    }
  }

  /** The eye part of a face frame is the eye detector's step alone. */
  lemma FaceStepEye(st: EngineState, ear: real, mar: real, now: real)
    requires |st.events| <= EventsCapacity
    ensures FaceStep(st, ear, mar, now).eye == Eye.Step(st.eye, ear).next
    ensures FaceStep(st, ear, mar, now).stats.eyeClosuresTotal
            == st.stats.eyeClosuresTotal + if Eye.Step(st.eye, ear).fired then 1 else 0
  {
    var mid := EyePhase(st, ear);
    EyePhaseAccounting(st, ear);
    YawnPhaseAccounting(mid, mar, now);
    YawnFrame(mid, mar, now);
  }

  /** The eye-aspect-ratios of a run of face frames. */
  function Ears(frames: seq<Frame>): (r: seq<real>)
    requires forall i :: 0 <= i < |frames| ==> frames[i].Face?
    ensures |r| == |frames| && forall i :: 0 <= i < |r| ==> r[i] == frames[i].ear
  {
    seq(|frames|, i requires 0 <= i < |frames| => frames[i].ear)
  }

  /** On a run of face frames, the closure count grows by exactly the number of
      events the eye detector alone raises on their eye-aspect-ratios. */
  lemma {:induction false} ClosuresFollowEyes(st: EngineState, frames: seq<Frame>)
    requires |st.events| <= EventsCapacity
    requires forall i :: 0 <= i < |frames| ==> frames[i].Face?
    ensures Run(st, frames).eye == Eye.RunFrames(st.eye, Ears(frames)).final
    ensures Run(st, frames).stats.eyeClosuresTotal
            == st.stats.eyeClosuresTotal + Eye.RunFrames(st.eye, Ears(frames)).events
    decreases |frames|
  {
    if frames != [] {
      var f := frames[0];
      var ears := Ears(frames);
      var next := Apply(st, f);
      FaceStepEye(st, f.ear, f.mar, f.now);
      ClosuresFollowEyes(next, frames[1..]);
      assert ears[0] == f.ear;
      assert ears[1..] == Ears(frames[1..]);
    }
  }

  /** One closure per episode, for the whole engine: from an armed detector with
      counter c, a run of closed-eye face frames at least EyeArConsecFrames - c
      long followed by a frame above EyeOpenThresh adds exactly one closure and
      re-arms the detector. */
  lemma EngineOneClosurePerEpisode(st: EngineState, frames: seq<Frame>)
    requires |st.events| <= EventsCapacity
    requires Eye.Inv(st.eye) && !st.eye.episodeActive
    requires |frames| > EyeArConsecFrames - st.eye.counter
    requires forall i :: 0 <= i < |frames| ==> frames[i].Face?
    requires forall i :: 0 <= i < |frames| - 1 ==> frames[i].ear < EyeArThresh
    requires frames[|frames| - 1].ear > EyeOpenThresh
    ensures Run(st, frames).stats.eyeClosuresTotal == st.stats.eyeClosuresTotal + 1
    ensures Run(st, frames).eye == Eye.Armed0
  {
    var ears := Ears(frames);
    var closed := ears[..|ears| - 1];
    assert closed + [ears[|ears| - 1]] == ears;
    Eye.OneEventPerEpisode(st.eye, closed, ears[|ears| - 1]);
    ClosuresFollowEyes(st, frames);
  }

  /** The detection thread's state: the locals of detection_loop and the module
      globals stats, events and yawn_times, updated in place frame by frame. */
  class Monitor {
    var eyeCounter: nat
    var eyeEpisodeActive: bool
    var yawnOpen: bool
    var yawnOpenStart: real
    var yawnsTotal: nat
    var eyeClosuresTotal: nat
    var alertsTotal: nat
    var events: seq<Event>
    var yawnTimes: seq<real>

    function State(): EngineState
      reads this
    {
      EngineState(Eye.EyeState(eyeCounter, eyeEpisodeActive), Yawn.YawnState(yawnOpen, yawnOpenStart),
                  Stats(yawnsTotal, eyeClosuresTotal, alertsTotal), events, yawnTimes)
    }

    predicate Valid()
      reads this
    {
      Inv(State())
    }

    constructor ()
      ensures Valid() && State() == Initial
    {
      eyeCounter, eyeEpisodeActive := 0, false;
      yawnOpen, yawnOpenStart := false, 0.0;
      yawnsTotal, eyeClosuresTotal, alertsTotal := 0, 0, 0;
      events, yawnTimes := [], [];
    }

    /** A frame in which a face was found, with its ratios, taken at time now. */
    method FaceFrame(ear: real, mar: real, now: real)
      requires Valid()
      requires NotAfter(yawnTimes, now)
      modifies this
      ensures Valid()
      ensures State() == FaceStep(old(State()), ear, mar, now)
      ensures NotAfter(yawnTimes, now)
      ensures Yawn.Step(old(State()).yawn, mar, now).confirmed ==>
        forall t :: t in yawnTimes ==> now - t <= YawnSeriesWindow
    {
      FaceStepKeepsInv(State(), ear, mar, now);
      EyeUpdate(ear);
      YawnUpdate(mar, now);
    }

    /** Eyes: prolonged closure with hysteresis (app.py:143-166). */
    method EyeUpdate(ear: real)
      requires |events| <= EventsCapacity
      modifies this
      ensures State() == EyePhase(old(State()), ear)
    {
      if !eyeEpisodeActive {
        if ear < EyeArThresh {
          eyeCounter := eyeCounter + 1;
          if eyeCounter >= EyeArConsecFrames {
            eyeClosuresTotal := eyeClosuresTotal + 1;
            alertsTotal := alertsTotal + 1;
            events := EventLog.Push(events, EyeClosure, EventsCapacity);
            eyeEpisodeActive := true;
            eyeCounter := 0;
          }
        } else {
          eyeCounter := 0;
        }
      } else if ear > EyeOpenThresh {
        eyeEpisodeActive := false;
        eyeCounter := 0;
      }
    }

    /** Mouth: open-to-closed with a minimum duration (app.py:169-185). */
    method YawnUpdate(mar: real, now: real)
      requires |events| <= EventsCapacity
      modifies this
      ensures State() == YawnPhase(old(State()), mar, now)
    {
      if !yawnOpen {
        if mar >= MarOpen {
          yawnOpen := true;
          yawnOpenStart := now;
        }
      } else if mar <= MarClose {
        var openTime := now - yawnOpenStart;
        yawnOpen := false;
        if openTime >= YawnMinOpenTime {
          RecordYawn(now);
        }
      }
    }

    /** Count and log a yawn confirmed at now, then run the series window
        (app.py:182-196). */
    method RecordYawn(now: real)
      requires |events| <= EventsCapacity
      modifies this
      ensures State() == ConfirmYawn(old(State()), now)
    {
      yawnsTotal := yawnsTotal + 1;
      events := EventLog.Push(events, YawnConfirmed, EventsCapacity);
      yawnTimes := yawnTimes + [now];
      EvictStale(now);
      if |yawnTimes| >= YawnSeriesCount {
        alertsTotal := alertsTotal + 1;
        events := EventLog.Push(events, YawnSeriesAlert, EventsCapacity);
        yawnTimes := [];
      }
    }

    /** Pop timestamps from the front of the window while the oldest is more than
        YawnSeriesWindow seconds before now (app.py:189-190). */
    method EvictStale(now: real)
      modifies this`yawnTimes
      ensures yawnTimes == Series.Evict(old(yawnTimes), now)
    {
      while yawnTimes != [] && now - yawnTimes[0] > YawnSeriesWindow
        invariant Series.Evict(yawnTimes, now) == Series.Evict(old(yawnTimes), now)
        decreases |yawnTimes|
      {
        yawnTimes := yawnTimes[1..];
      }
    }

    /** A frame in which no face was found. */
    method NoFaceFrame()
      requires Valid()
      modifies this
      ensures Valid()
      ensures State() == NoFaceStep(old(State()))
    {
      eyeCounter := 0;
      eyeEpisodeActive := false;
    }

    /** What is broadcast to the dashboard: the counters and the labels of the
        most recent BroadcastEvents log entries, oldest first. */
    method Broadcast() returns (stats: Stats, recent: seq<string>)
      ensures stats == Stats(yawnsTotal, eyeClosuresTotal, alertsTotal)
      ensures |recent| == Min(BroadcastEvents, |events|)
      ensures forall i :: 0 <= i < |recent| ==> recent[i] == events[|events| - |recent| + i].Label()
    {
      stats := Stats(yawnsTotal, eyeClosuresTotal, alertsTotal);
      var last := EventLog.LastN(events, BroadcastEvents);
      recent := seq(|last|, i requires 0 <= i < |last| => last[i].Label());
    }
  }
}
