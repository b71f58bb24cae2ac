/** The checks the authoring pages run before they accept a position, a rule or an exercise.
    `parse` stands for double.TryParse: `None` when the text is not a number. Both generations
    of the rule page run the same rule checks; they differ only in how a position is checked. */
module Validation {
  import opened Wrappers
  import opened Joints
  import opened Exercises

  /** IsValidTime: a number that is not negative. */
  predicate IsValidTime(timeText: string, parse: string -> Option<real>)
  {
    parse(timeText).Some? && parse(timeText).value >= 0.0
  }

  /** IsValidAngle: a number in [0, 360], both ends included. */
  predicate IsValidAngle(angleText: string, parse: string -> Option<real>)
  {
    parse(angleText).Some? && 0.0 <= parse(angleText).value <= 360.0
  }

  /** Why the save button refuses a rule; each reason has its own message. */
  datatype RuleError = InvalidTime | TimeTooLong | RuleDescriptionTooLong | NoPositions

  function RuleErrorMessage(e: RuleError): string
  {
    match e
    case InvalidTime => "Time must be a positive number."
    case TimeTooLong => "The time should not exceed 1024 seconds."
    case RuleDescriptionTooLong => "The description must not exceed 512 characters."
    case NoPositions => "Add at least one position to the rule."
  }

  /** Button_Click_SaveRule: the time text, the description and the collected positions give a
      rule only when every check passes; the checks run in the order time, upper time bound,
      description, positions, and the first that fails decides the message. */
  function ValidateRule(timeText: string, description: string, positions: seq<SimplePosition>,
                        parse: string -> Option<real>): (r: Result<ExerciseRule, RuleError>)
    ensures r.Success? <==>
      parse(timeText).Some? && 0.0 <= parse(timeText).value <= 1024.0 && |description| <= 512 && |positions| >= 1
    ensures r.Success? ==>
      r.value == ExerciseRule(parse(timeText).value, description, positions) && AuthoredRule(r.value)
    ensures r == Failure(InvalidTime) <==> !IsValidTime(timeText, parse)
    ensures r == Failure(TimeTooLong) <==> IsValidTime(timeText, parse) && parse(timeText).value > 1024.0
    ensures r == Failure(RuleDescriptionTooLong) <==>
      IsValidTime(timeText, parse) && parse(timeText).value <= 1024.0 && |description| > 512
  {
    if !IsValidTime(timeText, parse) then Failure(InvalidTime)
    else
      var time := parse(timeText).value;
      if time > 1024.0 then Failure(TimeTooLong)
      else if |description| > 512 then Failure(RuleDescriptionTooLong)
      else if |positions| == 0 then Failure(NoPositions)
      else Success(ExerciseRule(time, description, positions))
  }

  /** Why the add button refuses a position. An unknown joint name is not reported: the
      ArgumentException of the lookup escapes the handler. */
  datatype PositionError = FieldsIncomplete | SameJoints | AngleOutOfRange | MinAboveMax | UnknownJointName(cause: UnknownJoint)

  function PositionErrorMessage(e: PositionError): string
    requires !e.UnknownJointName?
  {
    match e
    case FieldsIncomplete => "All fields must be completed."
    case SameJoints => "The joints must be different."
    case AngleOutOfRange => "Angles must be between 0 and 360."
    case MinAboveMax => "\r\nThe MinAngle must be less than or equal to the MaxAngle."
  }

  /** string.IsNullOrEmpty on a joint list selection (`None` when nothing is selected) or a text. */
  predicate Blank(s: Option<string>)
  {
    s.None? || s.value == ""
  }

  /** The checks both generations share: every field filled, two different joint names, both
      angles valid. On success, the two angles. */
  function CheckFields(joint1: Option<string>, joint2: Option<string>, minText: string, maxText: string,
                       parse: string -> Option<real>): Result<(real, real), PositionError>
  {
    if Blank(joint1) || Blank(joint2) || minText == "" || maxText == "" then Failure(FieldsIncomplete)
    else if joint1.value == joint2.value then Failure(SameJoints)
    else if !IsValidAngle(minText, parse) || !IsValidAngle(maxText, parse) then Failure(AngleOutOfRange)
    else Success((parse(minText).value, parse(maxText).value))
  }

  /** The position built from the two joint names, each looked up with ParseToJoint. */
  function BuildPosition(joint1: string, joint2: string, angleMin: real, angleMax: real): Result<SimplePosition, PositionError>
  {
    match ParseToJoint(joint1)
    case Failure(e) => Failure(UnknownJointName(e))
    case Success(j1) =>
      match ParseToJoint(joint2)
      case Failure(e) => Failure(UnknownJointName(e))
      case Success(j2) => Success(SimplePosition(j1, j2, angleMin, angleMax))
  }

  /** Button_Click_AddANewPosition of the newer rule page: a position is accepted exactly when
      every field is filled, the joint names differ and are known, and both angles lie in
      [0, 360]. A minimum above the maximum is accepted: that is how a range across 0/360 is
      authored. */
  function ValidatePosition(joint1: Option<string>, joint2: Option<string>, minText: string, maxText: string,
                            parse: string -> Option<real>): (r: Result<SimplePosition, PositionError>)
    ensures r.Success? <==>
      !Blank(joint1) && !Blank(joint2) && minText != "" && maxText != "" && joint1.value != joint2.value
      && IsValidAngle(minText, parse) && IsValidAngle(maxText, parse)
      && ParseToJoint(joint1.value).Success? && ParseToJoint(joint2.value).Success?
    ensures r.Success? ==>
      AuthoredPosition(r.value) && Name(r.value.joint1) == joint1.value && Name(r.value.joint2) == joint2.value
      && r.value.angleMin == parse(minText).value && r.value.angleMax == parse(maxText).value
    ensures r == Failure(FieldsIncomplete) <==> Blank(joint1) || Blank(joint2) || minText == "" || maxText == ""
    ensures r == Failure(SameJoints) <==>
      !Blank(joint1) && !Blank(joint2) && minText != "" && maxText != "" && joint1.value == joint2.value
    ensures r.Failure? ==> !r.error.MinAboveMax?
  {
    match CheckFields(joint1, joint2, minText, maxText, parse)
    case Failure(e) => Failure(e)
    case Success(angles) => BuildPosition(joint1.value, joint2.value, angles.0, angles.1)
  }

  /** Button_Click_AddANewPosition of the older rule page: the same checks, then a minimum
      above the maximum is refused before the joint names are looked up. */
  function LegacyValidatePosition(joint1: Option<string>, joint2: Option<string>, minText: string, maxText: string,
                                  parse: string -> Option<real>): (r: Result<SimplePosition, PositionError>)
    ensures r.Success? <==>
      ValidatePosition(joint1, joint2, minText, maxText, parse).Success?
      && ValidatePosition(joint1, joint2, minText, maxText, parse).value.angleMin
         <= ValidatePosition(joint1, joint2, minText, maxText, parse).value.angleMax
    ensures r.Success? ==> r == ValidatePosition(joint1, joint2, minText, maxText, parse)
    ensures r == Failure(MinAboveMax) <==>
      CheckFields(joint1, joint2, minText, maxText, parse).Success? && parse(minText).value > parse(maxText).value
  {
    match CheckFields(joint1, joint2, minText, maxText, parse)
    case Failure(e) => Failure(e)
    case Success(angles) =>
      if angles.0 > angles.1 then Failure(MinAboveMax)
      else BuildPosition(joint1.value, joint2.value, angles.0, angles.1)
  }

  /** 360 is a valid bound, and a range across 0/360 such as 350..10 is accepted by the newer
      page but refused by the older one, whatever the joints. */
  lemma WrapRangeOnlyInNewerEditor(parse: string -> Option<real>)
    requires parse("350") == Some(350.0) && parse("10") == Some(10.0) && parse("360") == Some(360.0)
    ensures IsValidAngle("360", parse)
    ensures ValidatePosition(Some("ElbowLeft"), Some("WristLeft"), "350", "10", parse).Success?
    ensures ValidatePosition(Some("ElbowLeft"), Some("WristLeft"), "350", "10", parse).value.angleMin >
            ValidatePosition(Some("ElbowLeft"), Some("WristLeft"), "350", "10", parse).value.angleMax
    ensures forall j1, j2 :: LegacyValidatePosition(j1, j2, "350", "10", parse).Failure?
  {
    assert ParseToJoint("ElbowLeft") == Success(ElbowLeft);
    assert ParseToJoint("WristLeft") == Success(WristLeft);
  }

  /** Why the save button refuses an exercise. */
  datatype ExerciseError = NameLength | ExerciseDescriptionTooLong | NoRules

  function ExerciseErrorMessage(e: ExerciseError): string
  {
    match e
    case NameLength => "Name must not be empty and should be at most 128 characters."
    case ExerciseDescriptionTooLong => "Description must not exceed 1028 characters."
    case NoRules => "Add at least one rule to the exercise."
  }

  /** The exercise checks of both generations (inline in Button_Click_SaveXML, and
      ValidateInput): name, then description, then rule count; the first failure wins. */
  function ValidateExercise(name: string, description: string, rules: seq<ExerciseRule>): (r: Option<ExerciseError>)
    ensures r.None? <==> SavableExercise(ExerciseMultiPosition(name, description, rules))
    ensures r == Some(NameLength) <==> name == "" || |name| > 128
    ensures r == Some(ExerciseDescriptionTooLong) <==> 1 <= |name| <= 128 && |description| > 1028
    ensures r == Some(NoRules) <==> 1 <= |name| <= 128 && |description| <= 1028 && rules == []
  {
    if name == "" || |name| > 128 then Some(NameLength)
    else if |description| > 1028 then Some(ExerciseDescriptionTooLong)
    else if |rules| == 0 then Some(NoRules)
    else None
  }
}
