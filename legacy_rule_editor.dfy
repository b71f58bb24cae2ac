/** The older rule page (CreateRuleXMLPage): positions are only appended, and a position whose
    minimum lies above its maximum is refused, so a range across 0/360 cannot be authored. */
module LegacyRuleEditor {
  import opened Wrappers
  import opened Joints
  import opened Exercises
  import opened Validation

  /** The page's fields: the positions, the list entries (each shows one position) and the
      error text. */
  datatype LegacyEditorState = LegacyEditorState(positions: seq<SimplePosition>, items: seq<SimplePosition>,
                                                 errorPosition: Option<string>)

  /** Every position was accepted by the add button: authored, with its minimum at most its
      maximum; the list shows the positions in order. */
  predicate ValidLegacyEditor(s: LegacyEditorState)
  {
    s.items == s.positions
    && forall i :: 0 <= i < |s.positions| ==> AuthoredPosition(s.positions[i]) && s.positions[i].angleMin <= s.positions[i].angleMax
  }

  const EmptyLegacyEditor: LegacyEditorState := LegacyEditorState([], [], None)

  /** Button_Click_AddANewPosition: an unknown joint name throws and changes nothing; another
      refusal sets the error text; an accepted position goes to the end of both lists. */
  function LegacyAdd(s: LegacyEditorState, joint1: Option<string>, joint2: Option<string>, minText: string,
                     maxText: string, parse: string -> Option<real>): LegacyEditorState
  {
    match LegacyValidatePosition(joint1, joint2, minText, maxText, parse)
    case Failure(UnknownJointName(_)) => s
    case Failure(e) => s.(errorPosition := Some(PositionErrorMessage(e)))
    case Success(p) => s.(items := s.items + [p], positions := s.positions + [p])
  }

  /** Button_Click_SaveRule: the same checks as the newer page. */
  function LegacySave(s: LegacyEditorState, timeText: string, description: string,
                      parse: string -> Option<real>): (LegacyEditorState, Option<ExerciseRule>)
  {
    match ValidateRule(timeText, description, s.positions, parse)
    case Failure(e) => (s.(errorPosition := Some(RuleErrorMessage(e))), None)
    case Success(rule) => (s, Some(rule))
  }

  /** The add button appends exactly the accepted position, or leaves the positions alone;
      either way every position stays authored with an ordered range. */
  lemma LegacyAddAppends(s: LegacyEditorState, joint1: Option<string>, joint2: Option<string>, minText: string,
                         maxText: string, parse: string -> Option<real>)
    requires ValidLegacyEditor(s)
    ensures var r := LegacyValidatePosition(joint1, joint2, minText, maxText, parse);
            var t := LegacyAdd(s, joint1, joint2, minText, maxText, parse);
            && ValidLegacyEditor(t)
            && (r.Success? ==> t.positions == s.positions + [r.value])
            && (r.Failure? ==> t.positions == s.positions)
  {
    var r := LegacyValidatePosition(joint1, joint2, minText, maxText, parse);
    if r.Success? {
      var t := LegacyAdd(s, joint1, joint2, minText, maxText, parse);
      assert t.positions == s.positions + [r.value];
      assert forall i :: 0 <= i < |s.positions| ==> t.positions[i] == s.positions[i];
    }
  }

  /** Every rule this page saves holds only ordered ranges: none of its positions wraps
      across 0/360. */
  lemma LegacySavedRulesDoNotWrap(s: LegacyEditorState, timeText: string, description: string,
                                  parse: string -> Option<real>)
    requires ValidLegacyEditor(s)
    ensures var (t, rule) := LegacySave(s, timeText, description, parse);
            && ValidLegacyEditor(t)
            && (rule.Some? ==>
                  AuthoredRule(rule.value) && rule.value.positions == s.positions
                  && forall p :: p in rule.value.positions ==> p.angleMin <= p.angleMax)
  {
  }

  /** The older CreateRuleXMLPage. */
  class LegacyRuleEditorPage {
    var positions: seq<SimplePosition>
    var items: seq<SimplePosition>
    var errorPosition: Option<string>

    function State(): LegacyEditorState
      reads this
    {
      LegacyEditorState(positions, items, errorPosition)
    }

    constructor ()
      ensures State() == EmptyLegacyEditor
    {
      positions := [];
      items := [];
      errorPosition := None;
    }

    method AddANewPosition(joint1: Option<string>, joint2: Option<string>, minText: string, maxText: string,
                           parse: string -> Option<real>) returns (faulted: bool)
      modifies this
      ensures State() == LegacyAdd(old(State()), joint1, joint2, minText, maxText, parse)
      ensures faulted <==> LegacyValidatePosition(joint1, joint2, minText, maxText, parse).Failure?
                           && LegacyValidatePosition(joint1, joint2, minText, maxText, parse).error.UnknownJointName?
    {
      var r := LegacyValidatePosition(joint1, joint2, minText, maxText, parse);
      faulted := r.Failure? && r.error.UnknownJointName?;
      if faulted {
        return;
      }
      if r.Failure? {
        errorPosition := Some(PositionErrorMessage(r.error));
        return;
      }
      items := items + [r.value];
      positions := positions + [r.value];
    }

    method SaveRule(timeText: string, description: string, parse: string -> Option<real>) returns (createdRule: Option<ExerciseRule>)
      modifies this`errorPosition
      ensures (State(), createdRule) == LegacySave(old(State()), timeText, description, parse)
    {
      var r := ValidateRule(timeText, description, positions, parse);
      if r.Failure? {
        errorPosition := Some(RuleErrorMessage(r.error));
        return None;
      }
      createdRule := Some(r.value);
    }
  }
}
