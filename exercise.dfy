/** The exercise document model: an exercise holds ordered rules, a rule holds ordered
    positions plus one dwell time and one description shared by all of them. */
module Exercises {
  import opened Joints

  /** One joint-pair angle constraint. Nothing is validated here: equal joints and a
      minimum above the maximum are both representable. */
  datatype SimplePosition = SimplePosition(joint1: JointType, joint2: JointType, angleMin: real, angleMax: real)

  /** A rule: its positions must hold together for `positionTime` seconds. */
  datatype ExerciseRule = ExerciseRule(positionTime: real, description: string, positions: seq<SimplePosition>)

  /** An exercise: a name, a description and the rules in the order they are performed. */
  datatype ExerciseMultiPosition = ExerciseMultiPosition(name: string, description: string, rules: seq<ExerciseRule>)

  /** The parameterless constructors: only the lists are initialised; the strings stay null,
      which the model writes as the empty string, and the numbers stay 0. */
  function NewExercise(): ExerciseMultiPosition
  {
    ExerciseMultiPosition("", "", [])
  }

  function NewRule(): ExerciseRule
  {
    ExerciseRule(0.0, "", [])
  }

  /** The constraints an authored position satisfies: two different joints, both bounds in [0, 360]. */
  predicate AuthoredPosition(p: SimplePosition)
  {
    p.joint1 != p.joint2 && 0.0 <= p.angleMin <= 360.0 && 0.0 <= p.angleMax <= 360.0
  }

  /** The constraints a saved rule satisfies: a dwell time in [0, 1024], a description of at
      most 512 characters and at least one position. */
  predicate AuthoredRule(r: ExerciseRule)
  {
    0.0 <= r.positionTime <= 1024.0 && |r.description| <= 512 && |r.positions| >= 1
  }

  /** The constraints checked before an exercise is written: a name of 1 to 128 characters,
      a description of at most 1028 characters and at least one rule. */
  predicate SavableExercise(e: ExerciseMultiPosition)
  {
    1 <= |e.name| <= 128 && |e.description| <= 1028 && |e.rules| >= 1
  }

  /** A freshly constructed exercise has no rules and a fresh rule has no positions; an
      empty exercise cannot be saved. */
  lemma FreshValuesAreEmpty()
    ensures NewExercise().rules == [] && NewRule().positions == []
    ensures !SavableExercise(NewExercise()) && !AuthoredRule(NewRule())
  {
  }

  /** The data model itself admits positions an author could never enter: equal joints, a
      minimum above the maximum, bounds outside [0, 360]. */
  lemma UnvalidatedPositionsRepresentable()
    ensures exists p: SimplePosition :: p.joint1 == p.joint2 && p.angleMin > p.angleMax && !AuthoredPosition(p)
  {
    var p := SimplePosition(Neck, Neck, 400.0, 10.0);
    assert p.joint1 == p.joint2 && p.angleMin > p.angleMax && !AuthoredPosition(p);
  }
}
