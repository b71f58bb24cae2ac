/** What both session pages share: the per-frame input, the dwell timer fields and the clamped
    rule cursor. Timers are not threads here: the elapse of a timer is a call the environment
    makes, and every time is given in seconds since DateTime.MinValue. */
module RuleTiming {
  import opened Joints

  /** One sensor frame as the rule engine uses it: the raw planar angle, in degrees, of the
      vector from the first joint to the second (atan2 of the projected coordinates). */
  type Frame = (JointType, JointType) -> real

  /** The page's `ruleTimer` field: null, or a one-shot System.Timers.Timer with its interval
      in seconds and whether it has been started. */
  datatype RuleTimer = NoTimer | Timer(interval: real, running: bool)

  /** `new System.Timers.Timer()`: the default interval of 100 ms, not started, no handler. */
  const UnstartedTimer: RuleTimer := Timer(0.1, false)

  /** The fields `ruleTimer` and `ruleTimerStartTime` together. */
  datatype Dwell = Dwell(timer: RuleTimer, startTime: real)

  /** Setting `Interval` to `PositionTime * 1000` succeeds only for a positive value: the
      System.Timers.Timer property throws ArgumentException otherwise. */
  predicate AcceptsInterval(positionTime: real)
  {
    positionTime > 0.0
  }

  /** A timer started now for a rule of the given dwell time. */
  function StartedDwell(positionTime: real, now: real): Dwell
  {
    Dwell(Timer(positionTime, true), now)
  }

  /** The time remaining shown to the user: the interval minus the time since the start. */
  function Remaining(d: Dwell, now: real): real
    requires d.timer.Timer?
  {
    d.timer.interval - (now - d.startTime)
  }

  /** The timer fires (its Elapsed event is raised) once a started timer's interval has passed. */
  predicate Due(d: Dwell, now: real)
  {
    d.timer.Timer? && d.timer.running && now - d.startTime >= d.timer.interval
  }

  /** A started timer is due exactly when the remaining time it reports is no longer positive. */
  lemma DueIffNothingRemains(d: Dwell, now: real)
    requires d.timer.Timer? && d.timer.running
    ensures Due(d, now) <==> Remaining(d, now) <= 0.0
  {
  }

  /** The rule cursor: within the rules, or 0 when there are none. */
  predicate CursorInRange(index: int, count: int)
  {
    0 <= index && (index < count || index == 0)
  }

  /** PassToNextRule: move on only below the last rule. */
  function NextIndex(index: int, count: int): int
  {
    if index < count - 1 then index + 1 else index
  }

  /** PassToPreviousRule: move back only above the first rule. */
  function PreviousIndex(index: int): int
  {
    if index > 0 then index - 1 else index
  }

  /** Both moves keep the cursor in range; each is a no-op exactly at its own bound, and
      moving back undoes moving on (and the reverse) away from the bounds. */
  lemma CursorMoves(index: int, count: nat)
    requires CursorInRange(index, count)
    ensures CursorInRange(NextIndex(index, count), count) && CursorInRange(PreviousIndex(index), count)
    ensures NextIndex(index, count) == index <==> (count == 0 || index == count - 1)
    ensures PreviousIndex(index) == index <==> index == 0
    ensures index < count - 1 ==> PreviousIndex(NextIndex(index, count)) == index
    ensures index > 0 ==> NextIndex(PreviousIndex(index), count) == index
  {
  }

  /** The cursor after `k` moves on. */
  function NextTimes(index: int, count: int, k: nat): int
    decreases k
  {
    if k == 0 then index else NextTimes(NextIndex(index, count), count, k - 1)
  }

  /** However often the user skips or the rules complete, the cursor stops at the last rule:
      it neither wraps around nor runs past the end. */
  lemma {:induction false} NextTimesClamps(index: int, count: int, k: nat)
    requires 0 <= index < count
    ensures NextTimes(index, count, k) == if index + k < count - 1 then index + k else count - 1
    decreases k
  {
    if k > 0 {
      NextTimesClamps(NextIndex(index, count), count, k - 1);
    }
  }
}
