/** The skeleton's joint enumeration and the string-to-joint lookup used by the authoring pages
    and the exercise-file reader. */
module Joints {
  import opened Wrappers

  /** The sensor SDK's joint enumeration, in its declaration order. */
  datatype JointType =
    | SpineBase | SpineMid | Neck | Head
    | ShoulderLeft | ElbowLeft | WristLeft | HandLeft
    | ShoulderRight | ElbowRight | WristRight | HandRight
    | HipLeft | KneeLeft | AnkleLeft | FootLeft
    | HipRight | KneeRight | AnkleRight | FootRight
    | SpineShoulder | HandTipLeft | ThumbLeft | HandTipRight | ThumbRight

  /** The enumeration name of a joint: what `ToString()` gives and what the writer emits. */
  function Name(j: JointType): string
  {
    match j
    case SpineBase => "SpineBase"
    case SpineMid => "SpineMid"
    case Neck => "Neck"
    case Head => "Head"
    case ShoulderLeft => "ShoulderLeft"
    case ElbowLeft => "ElbowLeft"
    case WristLeft => "WristLeft"
    case HandLeft => "HandLeft"
    case ShoulderRight => "ShoulderRight"
    case ElbowRight => "ElbowRight"
    case WristRight => "WristRight"
    case HandRight => "HandRight"
    case HipLeft => "HipLeft"
    case KneeLeft => "KneeLeft"
    case AnkleLeft => "AnkleLeft"
    case FootLeft => "FootLeft"
    case HipRight => "HipRight"
    case KneeRight => "KneeRight"
    case AnkleRight => "AnkleRight"
    case FootRight => "FootRight"
    case SpineShoulder => "SpineShoulder"
    case HandTipLeft => "HandTipLeft"
    case ThumbLeft => "ThumbLeft"
    case HandTipRight => "HandTipRight"
    case ThumbRight => "ThumbRight"
  }

  /** The 21 joints the lookup accepts: every joint but the hand tips and thumbs. */
  predicate Parsable(j: JointType)
  {
    !(j.HandTipLeft? || j.ThumbLeft? || j.HandTipRight? || j.ThumbRight?)
  }

  /** The ArgumentException the lookup throws for a name it does not know. */
  datatype UnknownJoint = ArgumentException(message: string)

  function UnknownJointMessage(name: string): string
  {
    "Unknown joint type: " + name
  }

  /** ParseToJoint: an exact, case-sensitive match of the 21 accepted names. A successful
      lookup returns the parsable joint whose enumeration name is exactly the input; any
      other input fails with a message that quotes it. */
  function ParseToJoint(jointTypeName: string): (r: Result<JointType, UnknownJoint>)
    ensures r.Success? ==> Parsable(r.value) && Name(r.value) == jointTypeName
    ensures r.Failure? ==> r.error.message == UnknownJointMessage(jointTypeName)
  {
    match jointTypeName
    case "SpineBase" => Success(SpineBase)
    case "SpineMid" => Success(SpineMid)
    case "SpineShoulder" => Success(SpineShoulder)
    case "Neck" => Success(Neck)
    case "Head" => Success(Head)
    case "ShoulderLeft" => Success(ShoulderLeft)
    case "ElbowLeft" => Success(ElbowLeft)
    case "WristLeft" => Success(WristLeft)
    case "HandLeft" => Success(HandLeft)
    case "ShoulderRight" => Success(ShoulderRight)
    case "ElbowRight" => Success(ElbowRight)
    case "WristRight" => Success(WristRight)
    case "HandRight" => Success(HandRight)
    case "HipLeft" => Success(HipLeft)
    case "KneeLeft" => Success(KneeLeft)
    case "AnkleLeft" => Success(AnkleLeft)
    case "FootLeft" => Success(FootLeft)
    case "HipRight" => Success(HipRight)
    case "KneeRight" => Success(KneeRight)
    case "AnkleRight" => Success(AnkleRight)
    case "FootRight" => Success(FootRight)
    case _ => Failure(ArgumentException(UnknownJointMessage(jointTypeName)))
  }

  /** Parsing a joint's enumeration name gives the joint back exactly when it is one of the
      21 accepted joints; the hand tips and thumbs are rejected although the skeleton has them. */
  lemma {:induction false} ParseName(j: JointType)
    ensures ParseToJoint(Name(j)) ==
      if Parsable(j) then Success(j) else Failure(ArgumentException(UnknownJointMessage(Name(j))))
  {
    match j
    case HandTipLeft =>
      assert Name(j) != "SpineBase";
    case _ =>
  }

  /** The lookup accepts a string exactly when it is the name of a parsable joint. */
  lemma ParseSucceedsIff(s: string)
    ensures ParseToJoint(s).Success? <==> exists j :: Parsable(j) && Name(j) == s
  {
    if j :| Parsable(j) && Name(j) == s {
      ParseName(j);
    }
  }

  /** Distinct accepted names yield distinct joints: the lookup is injective. */
  lemma ParseInjective(s1: string, s2: string)
    requires ParseToJoint(s1).Success? && ParseToJoint(s2).Success?
    requires s1 != s2
    ensures ParseToJoint(s1).value != ParseToJoint(s2).value
  {
  }

  /** The match is case-sensitive and has no partial names: "neck" and "Elbow" are rejected,
      the latter with a message that names it. */
  lemma ParseRejectsNearMisses()
    ensures ParseToJoint("neck").Failure?
    ensures ParseToJoint("Elbow") == Failure(ArgumentException("Unknown joint type: Elbow"))
    ensures ParseToJoint("HandTipLeft").Failure? && ParseToJoint("ThumbRight").Failure?
  {
    assert UnknownJointMessage("Elbow") == "Unknown joint type: Elbow";
  }
}
