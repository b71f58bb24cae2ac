/** The newer exercise page (CreateExerciseXMLPage): rules come back from the rule page and are
    appended; the save button checks name, description and rule count, copies name and
    description into the exercise, asks for a file and writes the exercise there. */
module ExerciseEditor {
  import opened Wrappers
  import opened Text
  import opened Exercises
  import opened Validation
  import opened Xml
  import opened ExerciseWriter
  import opened ExerciseReader

  /** The page's fields: the exercise being built, the numbers of the "Rule number n" entries
      and the error text (`None` while it is null). */
  datatype ExerciseEditorState = ExerciseEditorState(exercise: ExerciseMultiPosition, ruleLabels: seq<int>,
                                                     errorXmlCreation: Option<string>)

  /** The rule entries are numbered 1, 2, ... one per rule. */
  predicate LabelsNumbered(s: ExerciseEditorState)
  {
    |s.ruleLabels| == |s.exercise.rules| && forall i :: 0 <= i < |s.ruleLabels| ==> s.ruleLabels[i] == i + 1
  }

  const EmptyExerciseEditor: ExerciseEditorState := ExerciseEditorState(NewExercise(), [], None)

  /** The text the page shows when the writer throws. */
  function WriteErrorText(message: string): string
  {
    "Error writing XML file: " + message
  }

  /** Button_Click_SaveXML. `dialog` is the file the save dialog returns (`None` when the user
      cancels; a path the dialog returns is never empty) and `writable` whether the writer
      succeeds on it. The result's second half is the content written to the file. */
  function OnSaveXml(s: ExerciseEditorState, name: string, description: string, dialog: Option<string>,
                   writable: bool, format: real -> string): (ExerciseEditorState, Option<seq<XmlEvent>>)
  {
    match ValidateExercise(name, description, s.exercise.rules)
    case Some(e) => (s.(errorXmlCreation := Some(ExerciseErrorMessage(e))), None)
    case None =>
      var exercise := s.exercise.(name := name, description := description);
      if dialog.None? then (s.(exercise := exercise), None)
      else if !writable then (s.(exercise := exercise, errorXmlCreation := Some(WriteErrorText(WriteFailedMessage))), None)
      else (s.(exercise := exercise, errorXmlCreation := None), Some([Declaration] + Flatten(ExerciseDocument(exercise, format))))
  }

  /** CreateRuleXMLPage_CreatedRule: the rule goes to the end and gets the next entry number. */
  function OnCreatedRule(s: ExerciseEditorState, newRule: ExerciseRule): ExerciseEditorState
  {
    s.(exercise := s.exercise.(rules := s.exercise.rules + [newRule]),
       ruleLabels := s.ruleLabels + [|s.exercise.rules| + 1])
  }

  /** What the save button does. A refused exercise only changes the error text. Once the
      checks pass, name and description are copied into the exercise whether or not the user
      then cancels the dialog. A file is written exactly when the checks pass, a file is chosen
      and the writer succeeds; it holds the checked exercise, and the error text is cleared.
      A failing writer leaves its message in the error text. */
  lemma SaveXmlOutcomes(s: ExerciseEditorState, name: string, description: string, dialog: Option<string>,
                        writable: bool, format: real -> string)
    ensures var (t, written) := OnSaveXml(s, name, description, dialog, writable, format);
            var checked := ValidateExercise(name, description, s.exercise.rules);
            && t.exercise.rules == s.exercise.rules && t.ruleLabels == s.ruleLabels
            && (checked.Some? ==>
                  t.exercise == s.exercise && t.errorXmlCreation == Some(ExerciseErrorMessage(checked.value)))
            && (checked.None? ==> t.exercise == ExerciseMultiPosition(name, description, s.exercise.rules))
            && (written.Some? <==> checked.None? && dialog.Some? && writable)
            && (written.Some? ==>
                  SavableExercise(t.exercise) && t.errorXmlCreation.None?
                  && written.value == [Declaration] + Flatten(ExerciseDocument(t.exercise, format)))
            && (checked.None? && dialog.Some? && !writable ==>
                  t.errorXmlCreation == Some("Error writing XML file: Error writing exercise to XML file."))
  {
    var checked := ValidateExercise(name, description, s.exercise.rules);
    if checked.None? && dialog.Some? && !writable {
      assert WriteErrorText(WriteFailedMessage) == "Error writing XML file: Error writing exercise to XML file.";
    }
  }

  /** A created rule is appended: one more rule, the new one last, the others unchanged, and
      the entries stay numbered. */
  lemma CreatedRuleAppends(s: ExerciseEditorState, newRule: ExerciseRule)
    requires LabelsNumbered(s)
    ensures var t := OnCreatedRule(s, newRule);
            && |t.exercise.rules| == |s.exercise.rules| + 1 && t.exercise.rules[|s.exercise.rules|] == newRule
            && t.exercise.rules[..|s.exercise.rules|] == s.exercise.rules
            && LabelsNumbered(t)
  {
    var t := OnCreatedRule(s, newRule);
    assert t.exercise.rules[..|s.exercise.rules|] == s.exercise.rules;
  }

  /** A file this page writes reads back, rule by rule, as the positions of its rules (each
      description trimmed) when read by the reader that looks for dwell time and description on
      the rule, provided its joints are ones the lookup knows and its numbers read back; the reader as written
      returns nothing from it as soon as one rule has a position. */
  lemma SavedFileReadsBack(s: ExerciseEditorState, name: string, description: string, dialog: Option<string>,
                           writable: bool, format: real -> string, toDouble: string -> Option<real>)
    requires OnSaveXml(s, name, description, dialog, writable, format).1.Some?
    requires RulesReadBack(s.exercise.rules, format, toDouble)
    ensures var written := OnSaveXml(s, name, description, dialog, writable, format).1.value;
            && ReadExerciseByRule(Some(written), toDouble) == Flattened(s.exercise.rules)
            && ((exists i :: 0 <= i < |s.exercise.rules| && s.exercise.rules[i].positions != []) ==>
                  ReadExercise(Some(written), toDouble) == [])
  {
    var e := ExerciseMultiPosition(name, description, s.exercise.rules);
    WrittenFileRoundTrip(e, format, toDouble);
    if exists i :: 0 <= i < |s.exercise.rules| && s.exercise.rules[i].positions != [] {
      WrittenFileReadsEmpty(e, format, toDouble);
    }
  }

  /** A file this page writes for rules of which the k-th has positions and a dwell time that
      does not read back reads back, rule by rule, as the positions of the rules before it. */
  lemma SavedFileStopsAtUnreadableTime(s: ExerciseEditorState, name: string, description: string, dialog: Option<string>,
                                       writable: bool, format: real -> string, toDouble: string -> Option<real>, k: int)
    requires OnSaveXml(s, name, description, dialog, writable, format).1.Some?
    requires 0 <= k < |s.exercise.rules| && RulesReadBack(s.exercise.rules[..k], format, toDouble)
    requires s.exercise.rules[k].positions != [] && toDouble(Trim(format(s.exercise.rules[k].positionTime))).None?
    ensures ReadExerciseByRule(Some(OnSaveXml(s, name, description, dialog, writable, format).1.value), toDouble)
         == Flattened(s.exercise.rules[..k])
  {
    var e := ExerciseMultiPosition(name, description, s.exercise.rules);
    WrittenFileStopsAtUnreadableTime(e, k, format, toDouble);
  }

  /** The newer CreateExerciseXMLPage. */
  class ExerciseEditorPage {
    var newExercise: ExerciseMultiPosition
    var ruleLabels: seq<int>
    var errorXmlCreation: Option<string>

    function State(): ExerciseEditorState
      reads this
    {
      ExerciseEditorState(newExercise, ruleLabels, errorXmlCreation)
    }

    constructor ()
      ensures State() == EmptyExerciseEditor
    {
      newExercise := NewExercise();
      ruleLabels := [];
      errorXmlCreation := None;
    }

    method SaveXml(name: string, description: string, dialog: Option<string>, writable: bool, format: real -> string)
      returns (written: Option<seq<XmlEvent>>)
      requires dialog.Some? ==> dialog.value != ""
      modifies this
      ensures (State(), written) == OnSaveXml(old(State()), name, description, dialog, writable, format)
    {
      written := None;
      var checked := ValidateExercise(name, description, newExercise.rules);
      if checked.Some? {
        errorXmlCreation := Some(ExerciseErrorMessage(checked.value));
        return;
      }
      newExercise := newExercise.(name := name);
      newExercise := newExercise.(description := description);
      if dialog.Some? {
        var r := WriteExerciseToFile(Some(newExercise), dialog.value, format, writable);
        if r.Failure? {
          assert r.error == WriteFailed(WriteFailedMessage);
          errorXmlCreation := Some(WriteErrorText(r.error.message));
          return;
        }
        errorXmlCreation := None;
        written := Some(r.value);
      }
    }

    method CreatedRule(newRule: ExerciseRule)
      modifies this`newExercise, this`ruleLabels
      ensures State() == OnCreatedRule(old(State()), newRule)
    {
      newExercise := newExercise.(rules := newExercise.rules + [newRule]);
      ruleLabels := ruleLabels + [|newExercise.rules|];
    }
  }
}
