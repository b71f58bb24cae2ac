/** The newer session page: every position of the current rule must hold (wrap-aware test on
    the normalised angle) for the rule's dwell time; the elapse of the dwell timer shows a
    success popup, and a one-second countdown then moves to the next rule. */
module Session {
  import opened Joints
  import opened Exercises
  import opened Angles
  import opened RuleTiming

  /** Seconds the success popup counts down before the next rule (`popupTime`). */
  const PopupTime: int := 6

  /** One position holds in a frame when its normalised angle passes CheckAngle. */
  predicate Accepts(p: SimplePosition, frame: Frame)
  {
    CheckAngle(p.angleMin, p.angleMax, CalculateAngle(frame(p.joint1, p.joint2)))
  }

  /** The verdict of each position of a rule, in order. */
  function Acceptances(ps: seq<SimplePosition>, frame: Frame): (r: seq<bool>)
    ensures |r| == |ps| && forall i :: 0 <= i < |ps| ==> r[i] == Accepts(ps[i], frame)
  {
    seq(|ps|, i requires 0 <= i < |ps| => Accepts(ps[i], frame))
  }

  /** The normalised angle of each position, as listed to the user. */
  function PositionAngles(ps: seq<SimplePosition>, frame: Frame): seq<real>
  {
    seq(|ps|, i requires 0 <= i < |ps| => CalculateAngle(frame(ps[i].joint1, ps[i].joint2)))
  }

  predicate AllTrue(xs: seq<bool>)
  {
    forall i :: 0 <= i < |xs| ==> xs[i]
  }

  /** What one evaluated frame reports (`ExerciseValidation` / `ExerciseValid`): nothing when
      no position was evaluated, the remaining dwell time, a failure, or the exception thrown
      when the timer could not be given its interval. */
  datatype FrameStatus = NotEvaluated | Satisfied(remaining: real) | NotSatisfied | Faulted

  /** The variables of checkMultiplePosition's loop: `CheckPos`, the dwell fields, the status. */
  datatype Scan = Scan(checkPos: bool, dwell: Dwell, status: FrameStatus)

  /** One iteration of the loop over positions: the running AND, then, inside the loop, either
      create the timer if there is none (and report the remaining time) or drop the timer. */
  function ScanStep(s: Scan, accepted: bool, positionTime: real, now: real): Scan
  {
    var checkPos := s.checkPos && accepted;
    if !checkPos then
      Scan(false, Dwell(NoTimer, s.dwell.startTime), NotSatisfied)
    else if s.dwell.timer.NoTimer? && !AcceptsInterval(positionTime) then
      // `new Timer()` is already stored when setting its interval throws
      Scan(true, Dwell(UnstartedTimer, s.dwell.startTime), Faulted)
    else
      var d := if s.dwell.timer.NoTimer? then StartedDwell(positionTime, now) else s.dwell;
      Scan(true, d, Satisfied(Remaining(d, now)))
  }

  /** The rest of the loop from a given iteration on; an exception ends it. */
  function ScanFrom(s: Scan, accepted: seq<bool>, positionTime: real, now: real): Scan
    decreases |accepted|
  {
    if accepted == [] || s.status.Faulted? then s
    else ScanFrom(ScanStep(s, accepted[0], positionTime, now), accepted[1..], positionTime, now)
  }

  /** checkMultiplePosition as a function of the rule, the dwell fields, the frame and the time. */
  function CheckPositions(rule: ExerciseRule, d: Dwell, frame: Frame, now: real): Scan
  {
    ScanFrom(Scan(true, d, NotEvaluated), Acceptances(rule.positions, frame), rule.positionTime, now)
  }

  /** The intended effect of a frame, stated without the loop: the timer is created (keeping
      an existing one and its start time) when every position holds and dropped otherwise;
      the only exception is a first position that holds while no timer exists and the dwell
      time is not positive. */
  function FrameEffect(d: Dwell, accepted: seq<bool>, positionTime: real, now: real): Scan
    requires accepted != []
  {
    if accepted[0] && d.timer.NoTimer? && !AcceptsInterval(positionTime) then
      Scan(true, Dwell(UnstartedTimer, d.startTime), Faulted)
    else
      var d1 := if accepted[0] && d.timer.NoTimer? then StartedDwell(positionTime, now) else d;
      if AllTrue(accepted) then Scan(true, d1, Satisfied(Remaining(d1, now)))
      else Scan(false, Dwell(NoTimer, d1.startTime), NotSatisfied)
  }

  /** Once a position has failed, the rest of the loop changes nothing. */
  lemma {:induction false} ScanAfterFailure(t: real, accepted: seq<bool>, positionTime: real, now: real)
    ensures ScanFrom(Scan(false, Dwell(NoTimer, t), NotSatisfied), accepted, positionTime, now)
         == Scan(false, Dwell(NoTimer, t), NotSatisfied)
    decreases |accepted|
  {
    if accepted != [] {
      ScanAfterFailure(t, accepted[1..], positionTime, now);
    }
  }

  /** The loop computes the intended effect: for a rule with at least one position, a rule
      timer exists after the frame exactly when every position holds. */
  lemma {:induction false} ScanComputesFrameEffect(s: Scan, accepted: seq<bool>, positionTime: real, now: real)
    requires accepted != [] && s.checkPos && !s.status.Faulted?
    ensures ScanFrom(s, accepted, positionTime, now) == FrameEffect(s.dwell, accepted, positionTime, now)
    decreases |accepted|
  {
    var s1 := ScanStep(s, accepted[0], positionTime, now);
    if !accepted[0] {
      ScanAfterFailure(s.dwell.startTime, accepted[1..], positionTime, now);
    } else if s1.status.Faulted? {
    } else if accepted[1..] == [] {
      assert AllTrue(accepted);
    } else {
      ScanComputesFrameEffect(s1, accepted[1..], positionTime, now);
      assert AllTrue(accepted) <==> AllTrue(accepted[1..]) by {
        assert forall i :: 0 <= i < |accepted[1..]| ==> accepted[1..][i] == accepted[i + 1];
      }
    }
  }

  /** For a rule with at least one position, and unless the frame faulted, a timer exists after
      a frame exactly when every position holds; a timer that already existed keeps its start
      time, and the reported remaining time is the dwell time minus the time since that start. */
  lemma TimerIffAllPositionsHold(rule: ExerciseRule, d: Dwell, frame: Frame, now: real)
    requires rule.positions != []
    ensures var r := CheckPositions(rule, d, frame, now);
      !r.status.Faulted? ==>
        (r.dwell.timer.Timer? <==> forall p :: p in rule.positions ==> Accepts(p, frame))
    ensures var r := CheckPositions(rule, d, frame, now);
      (forall p :: p in rule.positions ==> Accepts(p, frame)) && d.timer.Timer? ==>
        r.dwell == d && r.status == Satisfied(d.timer.interval - (now - d.startTime))
    ensures var r := CheckPositions(rule, d, frame, now);
      (forall p :: p in rule.positions ==> Accepts(p, frame)) && d.timer.NoTimer? && AcceptsInterval(rule.positionTime) ==>
        r.dwell == StartedDwell(rule.positionTime, now) && r.status == Satisfied(rule.positionTime)
    ensures var r := CheckPositions(rule, d, frame, now);
      !r.status.Faulted? && !(forall p :: p in rule.positions ==> Accepts(p, frame)) ==>
        r.dwell.timer.NoTimer? && r.status == NotSatisfied
    ensures var r := CheckPositions(rule, d, frame, now);
      r.status.Faulted? <==> Accepts(rule.positions[0], frame) && d.timer.NoTimer? && rule.positionTime <= 0.0
  {
    var xs := Acceptances(rule.positions, frame);
    ScanComputesFrameEffect(Scan(true, d, NotEvaluated), xs, rule.positionTime, now);
    assert AllTrue(xs) <==> forall p :: p in rule.positions ==> Accepts(p, frame) by {
      if AllTrue(xs) {
        forall p | p in rule.positions ensures Accepts(p, frame) {
          var i :| 0 <= i < |rule.positions| && rule.positions[i] == p;
          assert xs[i];
        }
      }
    }
  }

  /** The page's session fields: the rule cursor, the dwell fields, whether the success popup
      is shown, whether its one-second countdown timer runs, and the countdown. */
  datatype PageState = PageState(indexRule: int, dwell: Dwell, popupVisible: bool, popupTicking: bool, countdown: int)

  /** The state invariant the page keeps: the cursor is in range, the countdown is between one
      and PopupTime, and the countdown timer runs only while the popup is shown. */
  predicate ValidState(rules: seq<ExerciseRule>, s: PageState)
  {
    CursorInRange(s.indexRule, |rules|) && 1 <= s.countdown <= PopupTime
    && (s.popupTicking ==> s.popupVisible)
  }

  /** A new page, as its field initialisers leave it: first rule, an unstarted timer object in
      `ruleTimer`, no popup, a full countdown. */
  const InitialState: PageState := PageState(0, Dwell(UnstartedTimer, 0.0), false, false, PopupTime)

  /** A frame: evaluated only when the exercise has rules and the popup is hidden. */
  function OnFrame(rules: seq<ExerciseRule>, s: PageState, frame: Frame, now: real): (PageState, FrameStatus)
    requires ValidState(rules, s)
  {
    if |rules| == 0 || s.popupVisible then (s, NotEvaluated)
    else
      var r := CheckPositions(rules[s.indexRule], s.dwell, frame, now);
      (s.(dwell := r.dwell), r.status)
  }

  /** RuleTimerElapsed: drop the timer and show the popup with a fresh countdown timer; the
      rule does not change. */
  function OnElapsed(s: PageState): PageState
  {
    s.(dwell := Dwell(NoTimer, s.dwell.startTime), popupVisible := true, popupTicking := true)
  }

  /** Timer_Tick: count down; at zero or below, stop the countdown, reset it to PopupTime,
      hide the popup and pass to the next rule. */
  function OnTick(rules: seq<ExerciseRule>, s: PageState): PageState
  {
    var c := s.countdown - 1;
    if c <= 0 then
      s.(popupTicking := false, countdown := PopupTime, popupVisible := false,
         indexRule := NextIndex(s.indexRule, |rules|))
    else s.(countdown := c)
  }

  /** The skip, previous and stop buttons: the timer is dropped before anything else. */
  function ClearTimer(s: PageState): PageState
  {
    s.(dwell := Dwell(NoTimer, s.dwell.startTime))
  }

  function OnSkip(rules: seq<ExerciseRule>, s: PageState): PageState
  {
    var c := ClearTimer(s);
    c.(indexRule := NextIndex(c.indexRule, |rules|))
  }

  function OnPrevious(s: PageState): PageState
  {
    var c := ClearTimer(s);
    c.(indexRule := PreviousIndex(c.indexRule))
  }

  /** Every transition keeps the state invariant. */
  lemma TransitionsKeepValid(rules: seq<ExerciseRule>, s: PageState, frame: Frame, now: real)
    requires ValidState(rules, s)
    ensures ValidState(rules, OnFrame(rules, s, frame, now).0)
    ensures ValidState(rules, OnElapsed(s)) && ValidState(rules, OnTick(rules, s))
    ensures ValidState(rules, OnSkip(rules, s)) && ValidState(rules, OnPrevious(s)) && ValidState(rules, ClearTimer(s))
  {
    CursorMoves(s.indexRule, |rules|);
  }

  /** Elapse shows the popup without advancing, and while the popup is visible frames are not
      evaluated at all. */
  lemma ElapseShowsPopupOnly(rules: seq<ExerciseRule>, s: PageState, frame: Frame, now: real)
    requires ValidState(rules, s)
    ensures OnElapsed(s).indexRule == s.indexRule && OnElapsed(s).dwell.timer.NoTimer?
    ensures OnElapsed(s).popupVisible && OnElapsed(s).popupTicking
    ensures OnFrame(rules, OnElapsed(s), frame, now) == (OnElapsed(s), NotEvaluated)
  {
  }

  /** The state after `k` countdown ticks. */
  function Ticks(rules: seq<ExerciseRule>, s: PageState, k: nat): PageState
    decreases k
  {
    if k == 0 then s else Ticks(rules, OnTick(rules, s), k - 1)
  }

  /** After the popup appears with countdown `c`, the first `c - 1` ticks only count down and
      the `c`-th tick hides the popup, resets the countdown and passes to the next rule. */
  lemma {:induction false} CountdownThenAdvance(rules: seq<ExerciseRule>, s: PageState, k: nat)
    requires 1 <= s.countdown && k <= s.countdown
    ensures k < s.countdown ==> Ticks(rules, s, k) == s.(countdown := s.countdown - k)
    ensures k == s.countdown ==>
      Ticks(rules, s, k) == s.(popupTicking := false, countdown := PopupTime, popupVisible := false,
         indexRule := NextIndex(s.indexRule, |rules|))
    decreases k
  {
    if k > 0 {
      if s.countdown == 1 {
        assert Ticks(rules, s, k) == Ticks(rules, OnTick(rules, s), 0);
      } else {
        CountdownThenAdvance(rules, OnTick(rules, s), k - 1);
      }
    }
  }

  /** A frame delivered at a given time. */
  datatype TimedFrame = TimedFrame(frame: Frame, now: real)

  /** The state after a sequence of frames, with no timer elapse or button in between. */
  function RunFrames(rules: seq<ExerciseRule>, s: PageState, frames: seq<TimedFrame>): PageState
    requires ValidState(rules, s)
    ensures ValidState(rules, RunFrames(rules, s, frames))
    decreases |frames|
  {
    if frames == [] then s
    else
      TransitionsKeepValid(rules, s, frames[0].frame, frames[0].now);
      RunFrames(rules, OnFrame(rules, s, frames[0].frame, frames[0].now).0, frames[1..])
  }

  /** Every position of the current rule holds in every frame. */
  predicate HoldsThroughout(rules: seq<ExerciseRule>, s: PageState, frames: seq<TimedFrame>)
    requires ValidState(rules, s) && |rules| > 0
  {
    forall i, p :: 0 <= i < |frames| && p in rules[s.indexRule].positions ==> Accepts(p, frames[i].frame)
  }

  /** Holding the pose keeps a running dwell timer and its original start time. */
  lemma {:induction false} HeldPoseKeepsStart(rules: seq<ExerciseRule>, s: PageState, frames: seq<TimedFrame>)
    requires ValidState(rules, s) && |rules| > 0 && !s.popupVisible
    requires rules[s.indexRule].positions != [] && s.dwell.timer.Timer?
    requires HoldsThroughout(rules, s, frames)
    ensures RunFrames(rules, s, frames) == s
    decreases |frames|
  {
    if frames != [] {
      TimerIffAllPositionsHold(rules[s.indexRule], s.dwell, frames[0].frame, frames[0].now);
      assert OnFrame(rules, s, frames[0].frame, frames[0].now).0 == s;
      HeldPoseKeepsStart(rules, s, frames[1..]);
    }
  }

  /** The unstarted timer the page starts with is never started by frames in which the pose
      holds: it is kept as it is, so its elapse can never fire. Only a failing frame clears it. */
  lemma {:induction false} InitialTimerNeverStarts(rules: seq<ExerciseRule>, frames: seq<TimedFrame>)
    requires |rules| > 0 && rules[0].positions != []
    requires HoldsThroughout(rules, InitialState, frames)
    ensures RunFrames(rules, InitialState, frames) == InitialState
    ensures forall now :: !Due(RunFrames(rules, InitialState, frames).dwell, now)
  {
    HeldPoseKeepsStart(rules, InitialState, frames);
  }

  /** A page whose rule timer field starts out null, as the frame logic expects. */
  const CorrectedInitialState: PageState := PageState(0, Dwell(NoTimer, 0.0), false, false, PopupTime)

  /** From the corrected start, the first frame in which the pose holds starts the dwell timer
      at that frame's time, and the timer is due exactly one dwell time later. */
  lemma CorrectedStartBeginsDwell(rules: seq<ExerciseRule>, frame: Frame, now: real)
    requires |rules| > 0 && rules[0].positions != [] && AcceptsInterval(rules[0].positionTime)
    requires forall p :: p in rules[0].positions ==> Accepts(p, frame)
    ensures var (s, status) := OnFrame(rules, CorrectedInitialState, frame, now);
      s.dwell == StartedDwell(rules[0].positionTime, now) && status == Satisfied(rules[0].positionTime)
      && !Due(s.dwell, now + rules[0].positionTime / 2.0) && Due(s.dwell, now + rules[0].positionTime)
  {
    TimerIffAllPositionsHold(rules[0], CorrectedInitialState.dwell, frame, now);
  }

  /** A one-rule, one-position exercise (Neck to Head between 80 and 100 degrees, one second)
      and frames 1/30 s apart. */
  const NeckRule: ExerciseRule := ExerciseRule(1.0, "Hold your head up", [SimplePosition(Neck, Head, 80.0, 100.0)])

  function HeadUp(): Frame { (a: JointType, b: JointType) => 90.0 }
  function HeadDown(): Frame { (a: JointType, b: JointType) => -90.0 }

  function FrameTime(t0: real, k: nat): real { t0 + (k as real) / 30.0 }

  /** At 30 frames a second with a one-second dwell: the timer started by the first satisfied
      frame is not due at any of the following 29 frames and is due at the 30th; a failing frame
      drops it, and the next satisfied frame starts a full second again. */
  lemma ThirtyHertzDwell(t0: real, k: nat)
    requires k <= 29
    ensures var s0 := CorrectedInitialState.(dwell := Dwell(NoTimer, t0));
      var s1 := OnFrame([NeckRule], s0, HeadUp(), FrameTime(t0, 0)).0;
      s1.dwell == StartedDwell(1.0, t0)
      && !Due(s1.dwell, FrameTime(t0, k)) && Due(s1.dwell, FrameTime(t0, 30))
    ensures var s1 := CorrectedInitialState.(dwell := StartedDwell(1.0, t0));
      var s2 := OnFrame([NeckRule], s1, HeadDown(), FrameTime(t0, 15)).0;
      var (s3, status) := OnFrame([NeckRule], s2, HeadUp(), FrameTime(t0, 16));
      s2.dwell.timer.NoTimer? && s3.dwell == StartedDwell(1.0, FrameTime(t0, 16)) && status == Satisfied(1.0)
  {
    var s0 := CorrectedInitialState.(dwell := Dwell(NoTimer, t0));
    TimerIffAllPositionsHold(NeckRule, s0.dwell, HeadUp(), t0);
    var s1 := CorrectedInitialState.(dwell := StartedDwell(1.0, t0));
    TimerIffAllPositionsHold(NeckRule, s1.dwell, HeadDown(), FrameTime(t0, 15));
    var s2 := OnFrame([NeckRule], s1, HeadDown(), FrameTime(t0, 15)).0;
    TimerIffAllPositionsHold(NeckRule, s2.dwell, HeadUp(), FrameTime(t0, 16));
  }

  /** A zero dwell time does not complete the rule at once: the first satisfied frame throws
      while giving the new timer its interval. */
  lemma ZeroDwellFaults(frame: Frame, now: real)
    requires Accepts(SimplePosition(ShoulderRight, ElbowRight, 0.0, 180.0), frame)
    ensures OnFrame([ExerciseRule(0.0, "", [SimplePosition(ShoulderRight, ElbowRight, 0.0, 180.0)])],
                    CorrectedInitialState, frame, now).1 == Faulted
  {
    TimerIffAllPositionsHold(ExerciseRule(0.0, "", [SimplePosition(ShoulderRight, ElbowRight, 0.0, 180.0)]),
                             CorrectedInitialState.dwell, frame, now);
  }

  /** The newer ExercisePage. `rules` is the exercise handed to it, read-only during the session. */
  class ExercisePage {
    const rules: seq<ExerciseRule>
    const maxRule: int
    var indexRule: int
    var ruleTimer: RuleTimer
    var ruleTimerStartTime: real
    var popupVisible: bool
    var popupTimerRunning: bool
    var countdownSecondsPopup: int

    ghost predicate Valid()
      reads this
    {
      maxRule == |rules| && ValidState(rules, State())
    }

    function State(): PageState
      reads this
    {
      PageState(indexRule, Dwell(ruleTimer, ruleTimerStartTime), popupVisible, popupTimerRunning, countdownSecondsPopup)
    }

    constructor (exercise: ExerciseMultiPosition)
      ensures Valid() && rules == exercise.rules && State() == InitialState
    {
      rules := exercise.rules;
      maxRule := |exercise.rules|;
      indexRule := 0;
      ruleTimer := UnstartedTimer;
      ruleTimerStartTime := 0.0;
      popupVisible := false;
      popupTimerRunning := false;
      countdownSecondsPopup := PopupTime;
    }

    /** IsFirstRule / IsMaxRule, the getters the navigation buttons bind to. */
    function IsFirstRule(): bool
      reads this
    {
      indexRule == 0
    }

    function IsMaxRule(): bool
      reads this
    {
      maxRule == indexRule + 1
    }

    /** ExerciseDescription: the current rule's description, or "..." without rules. */
    function ExerciseDescription(): (d: string)
      reads this
      requires Valid()
      ensures |rules| > 0 ==> d == rules[indexRule].description
      ensures |rules| == 0 ==> d == "..."
    {
      if |rules| != 0 then rules[indexRule].description else "..."
    }

    /** checkMultiplePosition: the loop over the current rule's positions. */
    method CheckMultiplePosition(frame: Frame, now: real) returns (status: FrameStatus, angles: seq<real>)
      requires Valid() && |rules| > 0
      modifies this`ruleTimer, this`ruleTimerStartTime
      ensures Valid()
      ensures var r := CheckPositions(rules[indexRule], old(Dwell(ruleTimer, ruleTimerStartTime)), frame, now);
        Dwell(ruleTimer, ruleTimerStartTime) == r.dwell && status == r.status
      ensures !status.Faulted? ==> angles == PositionAngles(rules[indexRule].positions, frame)
    {
      var ps := rules[indexRule].positions;
      var positionTime := rules[indexRule].positionTime;
      ghost var xs := Acceptances(ps, frame);
      var checkPos := true;
      status := NotEvaluated;
      angles := [];
      var i := 0;
      while i < |ps|
        invariant 0 <= i <= |ps| && !status.Faulted?
        invariant ScanFrom(Scan(checkPos, Dwell(ruleTimer, ruleTimerStartTime), status), xs[i..], positionTime, now)
               == CheckPositions(rules[indexRule], old(Dwell(ruleTimer, ruleTimerStartTime)), frame, now)
        invariant angles == PositionAngles(ps[..i], frame)
      {
        var angle := CalculateAngle(frame(ps[i].joint1, ps[i].joint2));
        var accepted := CheckAngle(ps[i].angleMin, ps[i].angleMax, angle);
        assert xs[i..][0] == accepted && xs[i..][1..] == xs[i + 1..];
        angles := angles + [angle];
        if !accepted {
          checkPos := false;
        }
        if checkPos {
          if ruleTimer.NoTimer? {
            ruleTimer := UnstartedTimer;
            if !AcceptsInterval(positionTime) {
              status := Faulted;
              return;
            }
            ruleTimer := Timer(positionTime, true);
            ruleTimerStartTime := now;
          }
          status := Satisfied(ruleTimer.interval - (now - ruleTimerStartTime));
        } else {
          status := NotSatisfied;
          ruleTimer := NoTimer;
        }
        i := i + 1;
        assert ps[..i] == ps[..i - 1] + [ps[i - 1]];
      }
      assert ps[..i] == ps;
    }

    /** Reader_FrameArrived, past the sensor plumbing: evaluate the rule unless there are no
        rules or the success popup is visible. */
    method FrameArrived(frame: Frame, now: real) returns (status: FrameStatus)
      requires Valid()
      modifies this`ruleTimer, this`ruleTimerStartTime
      ensures Valid()
      ensures (State(), status) == OnFrame(rules, old(State()), frame, now)
    {
      status := NotEvaluated;
      if |rules| != 0 && !popupVisible {
        var angles;
        status, angles := CheckMultiplePosition(frame, now);
      }
    }

    /** RuleTimerElapsed: raised only by a started timer. */
    method RuleTimerElapsed()
      requires Valid() && ruleTimer.Timer? && ruleTimer.running
      modifies this`ruleTimer, this`popupVisible, this`popupTimerRunning
      ensures Valid() && State() == OnElapsed(old(State()))
    {
      ruleTimer := NoTimer;
      ShowRuleSuccessPopup();
    }

    method ShowRuleSuccessPopup()
      modifies this`popupVisible, this`popupTimerRunning
      ensures popupVisible && popupTimerRunning
    {
      popupVisible := true;
      popupTimerRunning := true;
    }

    /** Timer_Tick: raised once a second while the popup's countdown timer runs. */
    method TimerTick()
      requires Valid() && popupTimerRunning
      modifies this`countdownSecondsPopup, this`popupTimerRunning, this`popupVisible, this`indexRule
      ensures Valid() && State() == OnTick(rules, old(State()))
    {
      countdownSecondsPopup := countdownSecondsPopup - 1;
      if countdownSecondsPopup <= 0 {
        popupTimerRunning := false;
        countdownSecondsPopup := PopupTime;
        popupVisible := false;
        PassToNextRule();
      }
    }

    method PassToNextRule()
      requires CursorInRange(indexRule, |rules|)
      modifies this`indexRule
      ensures indexRule == NextIndex(old(indexRule), |rules|)
      ensures CursorInRange(indexRule, |rules|)
    {
      if indexRule < |rules| - 1 {
        indexRule := indexRule + 1;
      }
    }

    method PassToPreviousRule()
      requires CursorInRange(indexRule, |rules|)
      modifies this`indexRule
      ensures indexRule == PreviousIndex(old(indexRule))
      ensures CursorInRange(indexRule, |rules|)
    {
      if indexRule > 0 {
        indexRule := indexRule - 1;
      }
    }

    method DropRuleTimer()
      modifies this`ruleTimer
      ensures ruleTimer.NoTimer?
    {
      if ruleTimer.Timer? {
        ruleTimer := NoTimer;
      }
    }

    /** Button_Click_stopExercise; the navigation back is not modelled. */
    method StopExercise()
      requires Valid()
      modifies this`ruleTimer
      ensures Valid() && State() == ClearTimer(old(State()))
    {
      DropRuleTimer();
    }

    method PreviousRule()
      requires Valid()
      modifies this`ruleTimer, this`indexRule
      ensures Valid() && State() == OnPrevious(old(State()))
    {
      DropRuleTimer();
      PassToPreviousRule();
    }

    method SkipRule()
      requires Valid()
      modifies this`ruleTimer, this`indexRule
      ensures Valid() && State() == OnSkip(rules, old(State()))
    {
      DropRuleTimer();
      PassToNextRule();
    }
  }

  /** The navigation getters agree with the cursor bounds: IsFirstRule holds exactly when
      moving back is a no-op, and, in an exercise with rules, IsMaxRule exactly when moving on
      is one. In an exercise without rules moving on is a no-op, yet IsMaxRule is false. */
  lemma NavigationGetters(page: ExercisePage)
    requires page.Valid()
    ensures page.IsFirstRule() <==> PreviousIndex(page.indexRule) == page.indexRule
    ensures |page.rules| > 0 ==> (page.IsMaxRule() <==> NextIndex(page.indexRule, |page.rules|) == page.indexRule)
    ensures |page.rules| == 0 ==> !page.IsMaxRule() && NextIndex(page.indexRule, 0) == page.indexRule
  {
  }
}
