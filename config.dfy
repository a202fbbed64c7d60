/** Tuning constants of the detector (app.py, "Umbrales y parámetros"). */
module Config {
  /** Eye-aspect-ratio below which an eye counts as closed. */
  const EyeArThresh: real := 0.23
  /** Hysteresis margin: the eye counts as open again only above EyeArThresh + EyeArHyst. */
  const EyeArHyst: real := 0.02
  /** Threshold for re-arming the eye detector once an episode has been reported. */
  const EyeOpenThresh: real := EyeArThresh + EyeArHyst
  /** Consecutive closed frames that make a prolonged closure. */
  const EyeArConsecFrames: nat := 12

  /** Mouth-aspect-ratio at or above which a yawn starts. */
  const MarOpen: real := 0.70
  /** Mouth-aspect-ratio at or below which an open mouth counts as closed again. */
  const MarClose: real := 0.55
  /** Minimum open time, in seconds, for a yawn to be confirmed. */
  const YawnMinOpenTime: real := 0.5
  /** Confirmed yawns inside the window that raise a series alert. */
  const YawnSeriesCount: nat := 3
  /** Length, in seconds, of the sliding yawn window. */
  const YawnSeriesWindow: real := 8.0

  /** Capacity of the recent-events log. */
  const EventsCapacity: nat := 50
  /** Number of most recent events sent with every broadcast. */
  const BroadcastEvents: nat := 20

  function Min(a: int, b: int): int { if a <= b then a else b }
}
