/** Prolonged eye-closure detector: a debounce counter plus an episode flag with
    hysteresis (app.py:143-166), and the no-face reset (app.py:111-114). */
module EyeDetector {
  import opened Config

  /** counter: consecutive closed frames while armed; episodeActive: an episode
      has been reported and the detector waits for the eyes to re-open. */
  datatype EyeState = EyeState(counter: nat, episodeActive: bool)

  /** The armed state with an empty counter: the initial state and the reset state. */
  const Armed0: EyeState := EyeState(0, false)
  /** The state right after a closure has been reported. */
  const Tripped: EyeState := EyeState(0, true)

  /** While armed the counter stays below the frame count; while tripped it is 0. */
  predicate Inv(s: EyeState)
    ensures Inv(s) && s.episodeActive ==> s == Tripped
  {
    s.counter < EyeArConsecFrames && (s.episodeActive ==> s.counter == 0)
  }

  datatype Outcome = Outcome(next: EyeState, fired: bool)

  /** One face frame with eye-aspect-ratio ear. */
  function Step(s: EyeState, ear: real): (o: Outcome)
    ensures Inv(s) ==> Inv(o.next)
    ensures o.fired ==> !s.episodeActive && ear < EyeArThresh && o.next == Tripped
    ensures !s.episodeActive && ear >= EyeArThresh ==> o == Outcome(Armed0, false)
    ensures s.episodeActive ==> !o.fired
    ensures Inv(s) && s.episodeActive ==> o.next.counter == 0
    ensures s.episodeActive ==> (o.next.episodeActive <==> ear <= EyeOpenThresh)
  {
    if !s.episodeActive then
      if ear < EyeArThresh then
        if s.counter + 1 >= EyeArConsecFrames then Outcome(Tripped, true)
        else Outcome(EyeState(s.counter + 1, false), false)
      else Outcome(Armed0, false)
    else if ear > EyeOpenThresh then Outcome(EyeState(0, false), false)
    else Outcome(s, false)
  }

  /** A frame in which no face was found. */
  function NoFace(s: EyeState): (r: EyeState)
    ensures Inv(r) && !r.episodeActive && r.counter == 0
  {
    Armed0
  }

  /** The final state after a run of face frames and the number of closure events. */
  datatype Run = Run(final: EyeState, events: nat)

  function RunFrames(s: EyeState, ears: seq<real>): (r: Run)
    ensures r.events <= |ears|
    ensures Inv(s) ==> Inv(r.final)
    decreases |ears|
  {
    if ears == [] then Run(s, 0)
    else
      var o := Step(s, ears[0]);
      var r := RunFrames(o.next, ears[1..]);
      Run(r.final, r.events + if o.fired then 1 else 0)
  }

  /** Running two streams one after the other. */
  lemma {:induction false} RunAppend(s: EyeState, a: seq<real>, b: seq<real>)
    ensures RunFrames(s, a + b) ==
      Run(RunFrames(RunFrames(s, a).final, b).final,
          RunFrames(s, a).events + RunFrames(RunFrames(s, a).final, b).events)
    decreases |a|
  {
    if a == [] {
      assert a + b == b;
    } else {
      assert (a + b)[1..] == a[1..] + b;
      RunAppend(Step(s, a[0]).next, a[1..], b);
    }
  }

  /** Number of closed frames at the end of ears. */
  function TrailingClosed(ears: seq<real>): (n: nat)
    ensures n <= |ears|
  {
    if ears == [] then 0
    else if ears[|ears| - 1] < EyeArThresh then TrailingClosed(ears[..|ears| - 1]) + 1
    else 0
  }

  /** No prefix of ears ends in a run of EyeArConsecFrames closed frames. */
  ghost predicate BlinksOnly(ears: seq<real>) {
    forall j :: 0 <= j <= |ears| ==> TrailingClosed(ears[..j]) < EyeArConsecFrames
  }

  /** Debounce: from the reset state, a stream whose closed runs are all shorter
      than EyeArConsecFrames raises no event, and the counter is exactly the
      length of the closed run the stream ends in. */
  lemma {:induction false} BlinksAreFiltered(ears: seq<real>)
    requires BlinksOnly(ears)
    ensures RunFrames(Armed0, ears) == Run(EyeState(TrailingClosed(ears), false), 0)
    decreases |ears|
  {
    if ears != [] {
      var init := ears[..|ears| - 1];
      var last := ears[|ears| - 1];
      forall j | 0 <= j <= |init| ensures TrailingClosed(init[..j]) < EyeArConsecFrames {
        assert init[..j] == ears[..j];
      }
      BlinksAreFiltered(init);
      assert init + [last] == ears;
      RunAppend(Armed0, init, [last]);
      assert ears[..|ears|] == ears;
    }
  }

  /** Debounce: fewer than a full run of closed frames, from any armed state whose
      counter leaves room for them, raises no event and stays armed. */
  lemma {:induction false} ShortClosureIsSilent(s: EyeState, ears: seq<real>)
    requires !s.episodeActive
    requires s.counter + |ears| < EyeArConsecFrames
    ensures RunFrames(s, ears).events == 0
    ensures !RunFrames(s, ears).final.episodeActive
    decreases |ears|
  {
    if ears != [] {
      ShortClosureIsSilent(Step(s, ears[0]).next, ears[1..]);
    }
  }

  /** From an armed state, the frames that complete a closed run raise exactly one
      event, on the last of them, and leave the detector tripped. */
  lemma {:induction false} SustainedClosureFires(s: EyeState, ears: seq<real>)
    requires Inv(s) && !s.episodeActive
    requires |ears| == EyeArConsecFrames - s.counter
    requires forall i :: 0 <= i < |ears| ==> ears[i] < EyeArThresh
    ensures RunFrames(s, ears) == Run(Tripped, 1)
    decreases |ears|
  {
    var o := Step(s, ears[0]);
    if !o.fired {
      SustainedClosureFires(o.next, ears[1..]);
    }
  }

  /** Hysteresis: as long as no frame rises above EyeOpenThresh, at most one event
      is raised; none at all when the detector starts tripped, which then stays
      tripped with its counter at 0. */
  lemma {:induction false} NoFlutter(s: EyeState, ears: seq<real>)
    requires Inv(s)
    requires forall i :: 0 <= i < |ears| ==> ears[i] <= EyeOpenThresh
    ensures RunFrames(s, ears).events <= 1
    ensures RunFrames(s, ears).events == 1 ==> RunFrames(s, ears).final == Tripped
    ensures s.episodeActive ==> RunFrames(s, ears) == Run(Tripped, 0)
    decreases |ears|
  {
    if ears != [] {
      NoFlutter(Step(s, ears[0]).next, ears[1..]);
    }
  }

  /** One event per episode: from an armed detector with counter c, a closed run
      of at least EyeArConsecFrames - c frames followed by a frame above
      EyeOpenThresh raises exactly one event and re-arms the detector. */
  lemma OneEventPerEpisode(s: EyeState, closed: seq<real>, reopen: real)
    requires Inv(s) && !s.episodeActive
    requires |closed| >= EyeArConsecFrames - s.counter
    requires forall i :: 0 <= i < |closed| ==> closed[i] < EyeArThresh
    requires reopen > EyeOpenThresh
    ensures RunFrames(s, closed + [reopen]) == Run(Armed0, 1)
  {
    var first := closed[..EyeArConsecFrames - s.counter];
    var rest := closed[EyeArConsecFrames - s.counter..];
    assert first + rest == closed;
    assert closed + [reopen] == first + (rest + [reopen]);
    SustainedClosureFires(s, first);
    NoFlutter(Tripped, rest);
    RunAppend(s, first, rest + [reopen]);
    RunAppend(Tripped, rest, [reopen]);
  }

  /** Twelve frames at EAR 0.15, then one at 0.30. */
  lemma ClosureScenario()
    ensures RunFrames(Armed0, seq(12, _ => 0.15) + [0.30]) == Run(Armed0, 1)
  {
    OneEventPerEpisode(Armed0, seq(12, _ => 0.15), 0.30);
  }
}
