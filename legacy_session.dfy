/** The older session page: only the first position of the current rule is checked, with the
    strict test on the absolute raw angle; the elapse of the dwell timer moves straight to the
    next rule, without a popup. */
module LegacySession {
  import opened Joints
  import opened Exercises
  import opened Angles
  import opened RuleTiming

  /** What one frame reports (`UserPositionStatus`): nothing when there are no rules, "OK" with
      the absolute angle and the remaining time, "KO" with the absolute angle, or an exception
      (a rule without positions, or a dwell time the timer refuses). */
  datatype LegacyStatus = NotEvaluated | Ok(angle: real, remaining: real) | Ko(angle: real) | Faulted

  /** The page's session fields: `IndexPosition` and the dwell fields. */
  datatype LegacyState = LegacyState(index: int, dwell: Dwell)

  /** As the field initialisers leave it: an unstarted timer object in `ruleTimer`. */
  const LegacyInitialState: LegacyState := LegacyState(0, Dwell(UnstartedTimer, 0.0))

  /** CheckUserPosition on one position and the raw angle of its joints. */
  function CheckUserPosition(p: SimplePosition, positionTime: real, d: Dwell, raw: real, now: real): (Dwell, LegacyStatus)
  {
    if LegacyAccepts(p.angleMin, p.angleMax, raw) then
      if d.timer.NoTimer? && !AcceptsInterval(positionTime) then
        (Dwell(UnstartedTimer, d.startTime), Faulted)
      else
        var d1 := if d.timer.NoTimer? then StartedDwell(positionTime, now) else d;
        (d1, Ok(Magnitude(raw), Remaining(d1, now)))
    else
      (Dwell(NoTimer, d.startTime), Ko(Magnitude(raw)))
  }

  /** A frame with a tracked body: the current rule's first position is checked. */
  function LegacyFrame(rules: seq<ExerciseRule>, s: LegacyState, frame: Frame, now: real): (LegacyState, LegacyStatus)
    requires CursorInRange(s.index, |rules|)
  {
    if |rules| == 0 then (s, NotEvaluated)
    else if rules[s.index].positions == [] then (s, Faulted)
    else
      var p := rules[s.index].positions[0];
      var (d, status) := CheckUserPosition(p, rules[s.index].positionTime, s.dwell, frame(p.joint1, p.joint2), now);
      (s.(dwell := d), status)
  }

  /** RuleTimerElapsed (pass to the next rule, then drop the timer) and the skip button (drop
      the timer, then pass to the next rule) end in the same state. */
  function LegacyAdvance(rules: seq<ExerciseRule>, s: LegacyState): LegacyState
  {
    LegacyState(NextIndex(s.index, |rules|), Dwell(NoTimer, s.dwell.startTime))
  }

  /** The previous button drops the timer, then moves back. */

  function LegacyPrevious(s: LegacyState): LegacyState
  {
    LegacyState(PreviousIndex(s.index), Dwell(NoTimer, s.dwell.startTime))
  }

  /** Only the first position of a rule matters: two rules with the same first position and
      dwell time give the same result on every frame, whatever their other positions. */
  lemma OnlyFirstPositionMatters(r1: ExerciseRule, r2: ExerciseRule, d: Dwell, frame: Frame, now: real)
    requires r1.positions != [] && r2.positions != []
    requires r1.positions[0] == r2.positions[0] && r1.positionTime == r2.positionTime
    ensures LegacyFrame([r1], LegacyState(0, d), frame, now) == LegacyFrame([r2], LegacyState(0, d), frame, now)
  {
  }

  /** Unless the frame faulted, a timer exists after a frame exactly when the first position
      holds under the strict test; an existing timer keeps its start time, and a missing one
      is created with the rule's dwell time, started now, with all of it remaining; a fault comes from a
      rule without positions, or from a holding first position with no timer and a dwell time
      that is not positive. */
  lemma LegacyTimerIffFirstPositionHolds(rules: seq<ExerciseRule>, s: LegacyState, frame: Frame, now: real)
    requires CursorInRange(s.index, |rules|) && |rules| > 0
    ensures var (s1, status) := LegacyFrame(rules, s, frame, now);
      s1.index == s.index
      && (status.Faulted? <==>
          rules[s.index].positions == []
          || (LegacyAccepts(rules[s.index].positions[0].angleMin, rules[s.index].positions[0].angleMax,
                            frame(rules[s.index].positions[0].joint1, rules[s.index].positions[0].joint2))
              && s.dwell.timer.NoTimer? && rules[s.index].positionTime <= 0.0))
    ensures var (s1, status) := LegacyFrame(rules, s, frame, now);
      rules[s.index].positions != [] && !status.Faulted? ==>
        (s1.dwell.timer.Timer? <==>
          LegacyAccepts(rules[s.index].positions[0].angleMin, rules[s.index].positions[0].angleMax,
                        frame(rules[s.index].positions[0].joint1, rules[s.index].positions[0].joint2)))
    ensures var (s1, status) := LegacyFrame(rules, s, frame, now);
      status.Ok? && s.dwell.timer.Timer? ==> s1.dwell == s.dwell
    ensures var (s1, status) := LegacyFrame(rules, s, frame, now);
      status.Ok? && s.dwell.timer.NoTimer? ==>
        s1.dwell == StartedDwell(rules[s.index].positionTime, now) && status.remaining == rules[s.index].positionTime
  {
  }

  /** The elapse and the buttons keep the cursor in range and leave no timer behind; the elapse
      of the last rule's timer leaves the cursor where it is, any other moves to the next rule. */
  lemma LegacyMovesKeepCursor(rules: seq<ExerciseRule>, s: LegacyState)
    requires CursorInRange(s.index, |rules|)
    ensures CursorInRange(LegacyAdvance(rules, s).index, |rules|) && LegacyAdvance(rules, s).dwell.timer.NoTimer?
    ensures CursorInRange(LegacyPrevious(s).index, |rules|) && LegacyPrevious(s).dwell.timer.NoTimer?
    ensures s.index == |rules| - 1 ==> LegacyAdvance(rules, s).index == s.index
    ensures s.index < |rules| - 1 ==> LegacyAdvance(rules, s).index == s.index + 1
  {
    CursorMoves(s.index, |rules|);
  }

  /** The same body pose is judged differently by the two generations: a raw angle of -90
      degrees fails a 80..100 range here but, normalised to 270, passes a 260..280 range in the
      newer page, while this page accepts it under 80..100 only through its mirror image 90. */
  lemma MirrorExample()
    ensures LegacyAccepts(80.0, 100.0, -90.0) && LegacyAccepts(80.0, 100.0, 90.0)
    ensures !CheckAngle(80.0, 100.0, CalculateAngle(-90.0)) && CheckAngle(260.0, 280.0, CalculateAngle(-90.0))
    ensures !LegacyAccepts(260.0, 280.0, -90.0)
  {
  }

  /** The older ExercisePage; `rules` is the exercise read from the file. */
  class LegacyExercisePage {
    const rules: seq<ExerciseRule>
    var indexPosition: int
    var ruleTimer: RuleTimer
    var ruleTimerStartTime: real

    ghost predicate Valid()
      reads this
    {
      CursorInRange(indexPosition, |rules|)
    }

    function State(): LegacyState
      reads this
    {
      LegacyState(indexPosition, Dwell(ruleTimer, ruleTimerStartTime))
    }

    constructor (exercise: ExerciseMultiPosition)
      ensures Valid() && rules == exercise.rules && State() == LegacyInitialState
    {
      rules := exercise.rules;
      indexPosition := 0;
      ruleTimer := UnstartedTimer;
      ruleTimerStartTime := 0.0;
    }

    /** The rule check of Reader_FrameArrived for a tracked body. */
    method FrameArrived(frame: Frame, now: real) returns (status: LegacyStatus)
      requires Valid()
      modifies this`ruleTimer, this`ruleTimerStartTime
      ensures Valid() && (State(), status) == LegacyFrame(rules, old(State()), frame, now)
    {
      status := NotEvaluated;
      if |rules| != 0 {
        if rules[indexPosition].positions == [] {
          status := Faulted;
          return;
        }
        var p := rules[indexPosition].positions[0];
        status := CheckUserPositionOn(p, rules[indexPosition].positionTime, frame(p.joint1, p.joint2), now);
      }
    }

    method CheckUserPositionOn(p: SimplePosition, positionTime: real, raw: real, now: real) returns (status: LegacyStatus)
      modifies this`ruleTimer, this`ruleTimerStartTime
      ensures (Dwell(ruleTimer, ruleTimerStartTime), status)
           == CheckUserPosition(p, positionTime, old(Dwell(ruleTimer, ruleTimerStartTime)), raw, now)
    {
      if LegacyAccepts(p.angleMin, p.angleMax, raw) {
        if ruleTimer.NoTimer? {
          ruleTimer := UnstartedTimer;
          if !AcceptsInterval(positionTime) {
            return Faulted;
          }
          ruleTimer := Timer(positionTime, true);
          ruleTimerStartTime := now;
        }
        status := Ok(Magnitude(raw), ruleTimer.interval - (now - ruleTimerStartTime));
      } else {
        status := Ko(Magnitude(raw));
        ruleTimer := NoTimer;
      }
    }

    method RuleTimerElapsed()
      requires Valid() && ruleTimer.Timer? && ruleTimer.running
      modifies this`indexPosition, this`ruleTimer
      ensures Valid() && State() == LegacyAdvance(rules, old(State()))
    {
      PassToNextRule();
      ruleTimer := NoTimer;
    }

    method PassToNextRule()
      requires Valid()
      modifies this`indexPosition
      ensures Valid() && indexPosition == NextIndex(old(indexPosition), |rules|)
    {
      if indexPosition < |rules| - 1 {
        indexPosition := indexPosition + 1;
      }
    }

    method PassToPreviousRule()
      requires Valid()
      modifies this`indexPosition
      ensures Valid() && indexPosition == PreviousIndex(old(indexPosition))
    {
      if indexPosition > 0 {
        indexPosition := indexPosition - 1;
      }
    }

    /** Button_Click_stopExercise; the navigation back is not modelled. */
    method StopExercise()
      modifies this`ruleTimer
      ensures ruleTimer.NoTimer? && indexPosition == old(indexPosition)
    {
      ruleTimer := NoTimer;
    }

    method PreviousExercise()
      requires Valid()
      modifies this`ruleTimer, this`indexPosition
      ensures Valid() && State() == LegacyPrevious(old(State()))
    {
      ruleTimer := NoTimer;
      PassToPreviousRule();
    }

    method SkipExercise()
      requires Valid()
      modifies this`ruleTimer, this`indexPosition
      ensures Valid() && State() == LegacyAdvance(rules, old(State()))
    {
      ruleTimer := NoTimer;
      PassToNextRule();
    }
  }
}
