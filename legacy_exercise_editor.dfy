/** The older exercise page (CreateExerciseXMLPage): the same checks, done by ValidateInput,
    which also sets or clears the error text; the exercise is written only after the checks
    pass and a file is chosen. The page never copies the name and description it checks into
    the exercise, so the file always carries an empty name and description. */
module LegacyExerciseEditor {
  import opened Wrappers
  import opened Exercises
  import opened Validation
  import opened Xml
  import opened ExerciseWriter
  import opened ExerciseEditor

  /** ValidateInput: the outcome and the error text it leaves. */
  function OnValidateInput(s: ExerciseEditorState, name: string, description: string): (ExerciseEditorState, bool)
  {
    match ValidateExercise(name, description, s.exercise.rules)
    case Some(e) => (s.(errorXmlCreation := Some(ExerciseErrorMessage(e))), false)
    case None => (s.(errorXmlCreation := None), true)
  }

  /** Button_Click_SaveXML: validate, then ask for a file, then write the exercise as it is. */
  function LegacyOnSaveXml(s: ExerciseEditorState, name: string, description: string, dialog: Option<string>,
                           writable: bool, format: real -> string): (ExerciseEditorState, Option<seq<XmlEvent>>)
  {
    var (t, valid) := OnValidateInput(s, name, description);
    if !valid || dialog.None? then (t, None)
    else if !writable then (t.(errorXmlCreation := Some(WriteErrorText(WriteFailedMessage))), None)
    else (t, Some([Declaration] + Flatten(ExerciseDocument(t.exercise, format))))
  }

  /** ValidateInput succeeds exactly for a savable exercise, and clears the error text when it
      does; otherwise the error text is the message of the first check that fails. */
  lemma ValidateInputOutcome(s: ExerciseEditorState, name: string, description: string)
    ensures var (t, valid) := OnValidateInput(s, name, description);
            && (valid <==> SavableExercise(ExerciseMultiPosition(name, description, s.exercise.rules)))
            && t.exercise == s.exercise && t.ruleLabels == s.ruleLabels
            && (valid ==> t.errorXmlCreation.None?)
            && (!valid ==> t.errorXmlCreation == Some(ExerciseErrorMessage(ValidateExercise(name, description, s.exercise.rules).value)))
  {
  }

  /** The writer runs only after the checks pass and a file is chosen, and the exercise it
      writes is the page's own, unchanged: the checked name and description never reach it. */
  lemma LegacySaveWritesUncheckedNames(s: ExerciseEditorState, name: string, description: string,
                                       dialog: Option<string>, writable: bool, format: real -> string)
    ensures var (t, written) := LegacyOnSaveXml(s, name, description, dialog, writable, format);
            && t.exercise == s.exercise
            && (written.Some? <==>
                  SavableExercise(ExerciseMultiPosition(name, description, s.exercise.rules)) && dialog.Some? && writable)
            && (written.Some? ==> written.value == [Declaration] + Flatten(ExerciseDocument(s.exercise, format)))
  {
  }

  /** Starting from a fresh page, whatever rules are created and whatever name is typed, a saved
      file names the exercise "" and describes it as "". */
  lemma LegacySavedNameIsEmpty(rules: seq<ExerciseRule>, name: string, description: string, dialog: Option<string>,
                               writable: bool, format: real -> string)
    requires SavableExercise(ExerciseMultiPosition(name, description, rules)) && dialog.Some? && writable
    ensures var s := EmptyExerciseEditor.(exercise := NewExercise().(rules := rules));
            LegacyOnSaveXml(s, name, description, dialog, writable, format).1
              == Some([Declaration] + Flatten(ExerciseDocument(ExerciseMultiPosition("", "", rules), format)))
  {
  }

  /** The older CreateExerciseXMLPage. */
  class LegacyExerciseEditorPage {
    var newExercise: ExerciseMultiPosition
    var ruleLabels: seq<int>
    var errorXmlCreation: Option<string>

    function State(): ExerciseEditorState
      reads this
    {
      ExerciseEditorState(newExercise, ruleLabels, errorXmlCreation)
    }

    constructor ()
      ensures State() == EmptyExerciseEditor
    {
      newExercise := NewExercise();
      ruleLabels := [];
      errorXmlCreation := None;
    }

    method ValidateInput(name: string, description: string) returns (valid: bool)
      modifies this`errorXmlCreation
      ensures (State(), valid) == OnValidateInput(old(State()), name, description)
    {
      if name == "" || |name| > 128 {
        errorXmlCreation := Some(ExerciseErrorMessage(NameLength));
        return false;
      }
      if |description| > 1028 {
        errorXmlCreation := Some(ExerciseErrorMessage(ExerciseDescriptionTooLong));
        return false;
      }
      if |newExercise.rules| == 0 {
        errorXmlCreation := Some(ExerciseErrorMessage(NoRules));
        return false;
      }
      errorXmlCreation := None;
      return true;
    }

    method SaveXml(name: string, description: string, dialog: Option<string>, writable: bool, format: real -> string)
      returns (written: Option<seq<XmlEvent>>)
      requires dialog.Some? ==> dialog.value != ""
      modifies this`errorXmlCreation
      ensures (State(), written) == LegacyOnSaveXml(old(State()), name, description, dialog, writable, format)
    {
      written := None;
      var valid := ValidateInput(name, description);
      if valid && dialog.Some? {
        var r := WriteExerciseToFile(Some(newExercise), dialog.value, format, writable);
        if r.Failure? {
          assert r.error == WriteFailed(WriteFailedMessage);
          errorXmlCreation := Some(WriteErrorText(r.error.message));
          return;
        }
        errorXmlCreation := None;
        written := Some(r.value);
      }
    }

    method CreatedRule(newRule: ExerciseRule)
      modifies this`newExercise, this`ruleLabels
      ensures State() == OnCreatedRule(old(State()), newRule)
    {
      newExercise := newExercise.(rules := newExercise.rules + [newRule]);
      ruleLabels := ruleLabels + [|newExercise.rules|];
    }
  }
}
