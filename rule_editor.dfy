/** The newer rule page (CreateRuleXMLPage): a list of positions edited in place beside a
    list box whose entries read `n) Joint1 -> Joint2: min°-max°`. Selecting an entry loads the
    position numbered `n` into the form; the add button then replaces it, otherwise it appends.
    The delete button removes the position numbered `n` and the entry at the same index, but
    does not renumber the entries that follow. */
module RuleEditor {
  import opened Wrappers
  import opened Joints
  import opened Exercises
  import opened Validation

  /** A list-box entry: the number its text starts with and the position its text shows. */
  datatype PositionLabel = PositionLabel(number: int, shown: SimplePosition)

  /** The entries LoadRule builds: numbered from 1 in list order. */
  function Labels(ps: seq<SimplePosition>): (r: seq<PositionLabel>)
    ensures |r| == |ps| && forall i :: 0 <= i < |ps| ==> r[i] == PositionLabel(i + 1, ps[i])
  {
    if ps == [] then [] else Labels(ps[..|ps| - 1]) + [PositionLabel(|ps|, ps[|ps| - 1])]
  }

  /** The page's editing fields. `selectedItem` is the list index of the selected entry, if
      any; `errorPosition` is the error text, `None` while it is null. */
  datatype EditorState = EditorState(
    positions: seq<SimplePosition>,
    items: seq<PositionLabel>,
    positionNumber: int,
    isPositionSelected: bool,
    selectedPositionIndex: int,
    selectedItem: Option<int>,
    errorPosition: Option<string>)

  /** What every handler keeps: one entry per position, each showing its position, and the
      selection inside the list. */
  predicate ValidEditor(s: EditorState)
  {
    |s.items| == |s.positions|
    && (forall i :: 0 <= i < |s.items| ==> s.items[i].shown == s.positions[i])
    && (s.selectedItem.Some? ==> 0 <= s.selectedItem.value < |s.items|)
  }

  /** The field initialisers: no positions, nothing selected, no error. */
  const EmptyEditor: EditorState := EditorState([], [], 0, false, -1, None, None)

  /** LoadRule on a rule: the list is cleared and refilled from the rule's positions. */
  function Load(s: EditorState, rule: ExerciseRule): EditorState
  {
    s.(positions := rule.positions, items := Labels(rule.positions), positionNumber := |rule.positions|,
       isPositionSelected := false, selectedPositionIndex := -1, selectedItem := None)
  }

  /** GetNumberOfThePositionSelected: the number at the head of the selected entry, 0 when
      nothing is selected. */
  function NumberOfSelected(s: EditorState): int
    requires ValidEditor(s)
  {
    if s.selectedItem.None? then 0 else s.items[s.selectedItem.value].number
  }

  /** listBoxPositionList_SelectionChanged: a selected entry whose number names an existing
      position selects that position; one whose number does not leaves the flags as they were;
      clearing the selection clears them. */
  function Select(s: EditorState, item: Option<int>): EditorState
    requires ValidEditor(s) && (item.Some? ==> 0 <= item.value < |s.items|)
  {
    if item.None? then s.(selectedItem := None, isPositionSelected := false, selectedPositionIndex := -1)
    else
      var k := s.items[item.value].number - 1;
      if 0 <= k < |s.positions| then s.(selectedItem := item, isPositionSelected := true, selectedPositionIndex := k)
      else s.(selectedItem := item)
  }

  /** The selection that remains when the entry at index `k` leaves the list: the removed
      entry is no longer selected, and the ones after it move up. */
  function SelectionAfterRemoval(selected: Option<int>, k: int): Option<int>
  {
    if selected == Some(k) then None
    else if selected.Some? && selected.value > k then Some(selected.value - 1)
    else selected
  }

  /** The selection that remains when the entry at index `k` is replaced: the list keeps its
      length, so only a selection on the replaced entry itself is dropped. */
  function SelectionAfterReplace(selected: Option<int>, k: int): Option<int>
  {
    if selected == Some(k) then None else selected
  }

  /** An add that throws: an unknown joint name, or a selected index that is no longer inside
      the list (possible after a delete, see `DeleteBreaksLabelSelection`). */
  predicate AddFaults(s: EditorState, joint1: Option<string>, joint2: Option<string>, minText: string, maxText: string,
                      parse: string -> Option<real>)
  {
    var r := ValidatePosition(joint1, joint2, minText, maxText, parse);
    (r.Failure? && r.error.UnknownJointName?)
    || (r.Success? && s.isPositionSelected && !(0 <= s.selectedPositionIndex < |s.positions|))
  }

  /** Button_Click_AddANewPosition. A refused position sets the error text; an accepted one
      replaces the selected position (and its entry, renumbered after its index), drops a
      list-box selection on that entry and ends the position selection, or is appended under the next number. A throwing add changes nothing. */
  function Add(s: EditorState, joint1: Option<string>, joint2: Option<string>, minText: string, maxText: string,
               parse: string -> Option<real>): EditorState
    requires ValidEditor(s)
  {
    if AddFaults(s, joint1, joint2, minText, maxText, parse) then s
    else match ValidatePosition(joint1, joint2, minText, maxText, parse)
    case Failure(e) => s.(errorPosition := Some(PositionErrorMessage(e)))
    case Success(p) =>
      if s.isPositionSelected then
        var k := s.selectedPositionIndex;
        s.(positions := s.positions[k := p], items := s.items[k := PositionLabel(k + 1, p)],
           isPositionSelected := false, selectedPositionIndex := -1,
           selectedItem := SelectionAfterReplace(s.selectedItem, k))
      else
        s.(positionNumber := s.positionNumber + 1, items := s.items + [PositionLabel(s.positionNumber + 1, p)],
           positions := s.positions + [p])
  }

  /** Button_Click_DeletePosition as written: the position numbered like the selected entry,
      and the entry at that index, are removed; the other entries keep their numbers. Removing
      the selected entry clears the selection, which clears the selection flags. */
  function Delete(s: EditorState): EditorState
    requires ValidEditor(s)
  {
    var k := NumberOfSelected(s) - 1;
    if s.selectedItem.None? || !(0 <= k < |s.positions|) then s
    else
      var selected := SelectionAfterRemoval(s.selectedItem, k);
      var t := s.(positions := s.positions[..k] + s.positions[k + 1..], items := s.items[..k] + s.items[k + 1..],
                  selectedItem := selected);
      if selected.None? then t.(isPositionSelected := false, selectedPositionIndex := -1) else t
  }

  /** Button_Click_SaveRule: the rule handed to the exercise page, or the error text. */
  function Save(s: EditorState, timeText: string, description: string, parse: string -> Option<real>): (EditorState, Option<ExerciseRule>)
  {
    match ValidateRule(timeText, description, s.positions, parse)
    case Failure(e) => (s.(errorPosition := Some(RuleErrorMessage(e))), None)
    case Success(rule) => (s, Some(rule))
  }

  /** Loading and selecting keep the list and the positions in step. */
  lemma LoadAndSelectKeepValid(s: EditorState, rule: ExerciseRule, item: Option<int>)
    requires ValidEditor(s) && (item.Some? ==> 0 <= item.value < |s.items|)
    ensures ValidEditor(EmptyEditor) && ValidEditor(Load(s, rule)) && ValidEditor(Select(s, item))
  {
  }

  /** Adding keeps the list and the positions in step. */
  lemma AddKeepsValid(s: EditorState, joint1: Option<string>, joint2: Option<string>, minText: string,
                      maxText: string, parse: string -> Option<real>)
    requires ValidEditor(s)
    ensures ValidEditor(Add(s, joint1, joint2, minText, maxText, parse))
  {
    var r := ValidatePosition(joint1, joint2, minText, maxText, parse);
    if !AddFaults(s, joint1, joint2, minText, maxText, parse) && r.Success? && !s.isPositionSelected {
      var t := Add(s, joint1, joint2, minText, maxText, parse);
      assert t.items == s.items + [PositionLabel(s.positionNumber + 1, r.value)];
      assert t.positions == s.positions + [r.value];
    }
  }

  /** Removing index `k` from both lists keeps each entry beside its position. */
  lemma RemoveKeepsShown(items: seq<PositionLabel>, ps: seq<SimplePosition>, k: int)
    requires |items| == |ps| && 0 <= k < |ps|
    requires forall i :: 0 <= i < |items| ==> items[i].shown == ps[i]
    ensures var items' := items[..k] + items[k + 1..];
            var ps' := ps[..k] + ps[k + 1..];
            |items'| == |ps'| && forall i :: 0 <= i < |items'| ==> items'[i].shown == ps'[i]
  {
    var items' := items[..k] + items[k + 1..];
    var ps' := ps[..k] + ps[k + 1..];
    forall i | 0 <= i < |items'|
      ensures items'[i].shown == ps'[i]
    {
      if i < k {
        assert items'[i] == items[i] && ps'[i] == ps[i];
      } else {
        assert items'[i] == items[i + 1] && ps'[i] == ps[i + 1];
      }
    }
  }

  /** Deleting keeps the list and the positions in step, and the selection inside the list. */
  lemma DeleteKeepsValid(s: EditorState)
    requires ValidEditor(s)
    ensures ValidEditor(Delete(s))
  {
    var k := NumberOfSelected(s) - 1;
    if s.selectedItem.Some? && 0 <= k < |s.positions| {
      RemoveKeepsShown(s.items, s.positions, k);
    }
  }

  /** An accepted position with no selection is appended and numbered one past the last
      number handed out; with a selection it replaces that position and nothing else. */
  lemma AddAppendsOrReplaces(s: EditorState, joint1: Option<string>, joint2: Option<string>, minText: string,
                             maxText: string, parse: string -> Option<real>)
    requires ValidEditor(s) && !AddFaults(s, joint1, joint2, minText, maxText, parse)
    requires ValidatePosition(joint1, joint2, minText, maxText, parse).Success?
    ensures var p := ValidatePosition(joint1, joint2, minText, maxText, parse).value;
            var t := Add(s, joint1, joint2, minText, maxText, parse);
            && (!s.isPositionSelected ==>
                  t.positions == s.positions + [p] && t.positionNumber == s.positionNumber + 1
                  && t.items[|t.items| - 1].number == t.positionNumber)
            && (s.isPositionSelected ==>
                  |t.positions| == |s.positions| && t.positions[s.selectedPositionIndex] == p
                  && (forall i :: 0 <= i < |s.positions| && i != s.selectedPositionIndex ==> t.positions[i] == s.positions[i])
                  && !t.isPositionSelected)
            && t.errorPosition == s.errorPosition
  {
  }

  /** A replace keeps the list's length, so a list-box selection on another entry stays on that
      entry, which still shows the same position; a selection on the replaced entry is dropped. */
  lemma ReplaceKeepsOtherSelection(s: EditorState, joint1: Option<string>, joint2: Option<string>, minText: string,
                                   maxText: string, parse: string -> Option<real>)
    requires ValidEditor(s) && !AddFaults(s, joint1, joint2, minText, maxText, parse)
    requires ValidatePosition(joint1, joint2, minText, maxText, parse).Success? && s.isPositionSelected
    ensures var t := Add(s, joint1, joint2, minText, maxText, parse);
            && |t.items| == |s.items|
            && (s.selectedItem == Some(s.selectedPositionIndex) ==> t.selectedItem.None?)
            && (s.selectedItem.Some? && s.selectedItem.value != s.selectedPositionIndex ==>
                  t.selectedItem == s.selectedItem
                  && t.items[s.selectedItem.value] == s.items[s.selectedItem.value]
                  && t.positions[s.selectedItem.value] == s.positions[s.selectedItem.value])
  {
  }

  /** The entries are numbered 1, 2, ... in list order and the counter equals the length:
      what the page needs for a label number to name the position it shows. */
  predicate Numbered(s: EditorState)
  {
    s.positionNumber == |s.positions| && forall i :: 0 <= i < |s.items| ==> s.items[i].number == i + 1
  }

  /** While the entries are numbered, selecting an entry selects exactly the position it shows. */
  lemma NumberedSelectionShowsClicked(s: EditorState, j: int)
    requires ValidEditor(s) && Numbered(s) && 0 <= j < |s.items|
    ensures Select(s, Some(j)).isPositionSelected && Select(s, Some(j)).selectedPositionIndex == j
    ensures Select(s, Some(j)).positions[j] == s.items[j].shown
  {
  }

  /** Loading, selecting, adding and saving keep the entries numbered. */
  lemma HandlersKeepNumbered(s: EditorState, rule: ExerciseRule, item: Option<int>, joint1: Option<string>,
                             joint2: Option<string>, minText: string, maxText: string, timeText: string,
                             description: string, parse: string -> Option<real>)
    requires ValidEditor(s) && Numbered(s) && (item.Some? ==> 0 <= item.value < |s.items|)
    ensures Numbered(EmptyEditor) && Numbered(Load(s, rule)) && Numbered(Select(s, item))
    ensures Numbered(Add(s, joint1, joint2, minText, maxText, parse))
    ensures Numbered(Save(s, timeText, description, parse).0)
  {
    var r := ValidatePosition(joint1, joint2, minText, maxText, parse);
    if !AddFaults(s, joint1, joint2, minText, maxText, parse) && r.Success? && !s.isPositionSelected {
      var t := Add(s, joint1, joint2, minText, maxText, parse);
      assert t.items == s.items + [PositionLabel(s.positionNumber + 1, r.value)];
    }
  }

  /** The delete button as written breaks the numbering. With three positions A, B, C loaded,
      deleting the first leaves entries numbered 2 and 3; the entry that shows B then selects C,
      and deleting it removes C and leaves B, still selected, with the selected index past the
      end of the list, so that the next accepted position throws (`AddFaults`). */
  lemma DeleteBreaksLabelSelection(a: SimplePosition, b: SimplePosition, c: SimplePosition)
    requires b != c
    ensures var s0 := Load(EmptyEditor, ExerciseRule(5.0, "", [a, b, c]));
            var s1 := Delete(Select(s0, Some(0)));
            var s2 := Select(s1, Some(0));
            && Numbered(s0) && !Numbered(s1)
            && s1.positions == [b, c] && s2.items[0].shown == b
            && s2.positions[s2.selectedPositionIndex] == c
            && Delete(s2).positions == [b]
            && Delete(s2).isPositionSelected && Delete(s2).selectedPositionIndex == |Delete(s2).positions|
  {
    var s0 := Load(EmptyEditor, ExerciseRule(5.0, "", [a, b, c]));
    assert s0.items == [PositionLabel(1, a), PositionLabel(2, b), PositionLabel(3, c)];
    var s1 := Delete(Select(s0, Some(0)));
    assert s1.items == [PositionLabel(2, b), PositionLabel(3, c)];
    assert s1.positions == [b, c];
    var s2 := Select(s1, Some(0));
    assert s2.selectedPositionIndex == 1;
    assert Delete(s2).positions == [b];
  }

  /** The intended delete: remove the position and its entry, then number the entries again
      from 1 and reset the counter to the new length. */
  function DeleteRenumbered(s: EditorState): EditorState
    requires ValidEditor(s)
  {
    var t := Delete(s);
    t.(items := Labels(t.positions), positionNumber := |t.positions|)
  }

  /** The corrected delete keeps the entries numbered, and after selecting entry `j` it removes
      exactly the position that entry shows. */
  lemma CorrectedDeleteRemovesSelected(s: EditorState, j: int)
    requires ValidEditor(s) && Numbered(s) && 0 <= j < |s.items|
    ensures var t := DeleteRenumbered(Select(s, Some(j)));
            && ValidEditor(t) && Numbered(t)
            && t.positions == s.positions[..j] + s.positions[j + 1..]
            && !t.isPositionSelected && t.selectedItem.None?
  {
    var u := Select(s, Some(j));
    NumberedSelectionShowsClicked(s, j);
    assert NumberOfSelected(u) == j + 1;
    var d := Delete(u);
    assert d.positions == s.positions[..j] + s.positions[j + 1..] && d.selectedItem.None?;
    assert ValidEditor(d);
  }

  /** A rule loaded into the page and saved unchanged comes back as it was, when it satisfies
      the save checks and the time shown reads back as the same number. */
  lemma LoadThenSave(rule: ExerciseRule, format: real -> string, parse: string -> Option<real>)
    requires AuthoredRule(rule) && parse(format(rule.positionTime)) == Some(rule.positionTime)
    ensures Save(Load(EmptyEditor, rule), format(rule.positionTime), rule.description, parse).1 == Some(rule)
  {
  }

  /** What selecting a position writes into the form: the joint names (the list entries that
      carry them) and the two angles as text. */
  datatype FormFields = FormFields(joint1: string, joint2: string, minText: string, maxText: string)

  function FormOf(p: SimplePosition, format: real -> string): FormFields
  {
    FormFields(Name(p.joint1), Name(p.joint2), format(p.angleMin), format(p.angleMax))
  }

  /** Selecting a position and adding the form unchanged writes the same position back in its
      place, when the position is one the form could have produced and its angles read back. */
  lemma EditUnchangedKeepsPosition(s: EditorState, j: int, format: real -> string, parse: string -> Option<real>)
    requires ValidEditor(s) && Numbered(s) && 0 <= j < |s.items|
    requires var p := s.positions[j];
             AuthoredPosition(p) && Parsable(p.joint1) && Parsable(p.joint2)
             && format(p.angleMin) != "" && format(p.angleMax) != ""
             && parse(format(p.angleMin)) == Some(p.angleMin) && parse(format(p.angleMax)) == Some(p.angleMax)
    ensures var f := FormOf(s.positions[j], format);
            Add(Select(s, Some(j)), Some(f.joint1), Some(f.joint2), f.minText, f.maxText, parse).positions == s.positions
  {
    var p := s.positions[j];
    var f := FormOf(p, format);
    ParseName(p.joint1);
    ParseName(p.joint2);
    var s1 := Select(s, Some(j));
    assert ValidatePosition(Some(f.joint1), Some(f.joint2), f.minText, f.maxText, parse) == Success(p);
    assert s1.positions[j := p] == s.positions;
  }

  /** The newer CreateRuleXMLPage. */
  class RuleEditorPage {
    var positions: seq<SimplePosition>
    var items: seq<PositionLabel>
    var positionNumber: int
    var isPositionSelected: bool
    var selectedPositionIndex: int
    var selectedItem: Option<int>
    var errorPosition: Option<string>

    function State(): EditorState
      reads this
    {
      EditorState(positions, items, positionNumber, isPositionSelected, selectedPositionIndex, selectedItem, errorPosition)
    }

    predicate Valid()
      reads this
    {
      ValidEditor(State())
    }

    /** The page, with an existing rule loaded when one is given. */
    constructor (existingRule: Option<ExerciseRule>, format: real -> string)
      ensures Valid()
      ensures State() == if existingRule.Some? then Load(EmptyEditor, existingRule.value) else EmptyEditor
    {
      positions := [];
      items := [];
      positionNumber := 0;
      isPositionSelected := false;
      selectedPositionIndex := -1;
      selectedItem := None;
      errorPosition := None;
      new;
      if existingRule.Some? {
        var timeText, descriptionText := LoadRule(existingRule.value, format);
      }
    }

    /** LoadRule: the list and the positions are cleared and refilled one position at a time;
        `timeText` and `descriptionText` are what the two text boxes then show. */
    method LoadRule(rule: ExerciseRule, format: real -> string) returns (timeText: string, descriptionText: string)
      modifies this
      ensures Valid() && State() == Load(old(State()), rule)
      ensures timeText == format(rule.positionTime) && descriptionText == rule.description
    {
      timeText := format(rule.positionTime);
      descriptionText := rule.description;
      items := [];
      positions := [];
      positionNumber := 0;
      isPositionSelected := false;
      selectedPositionIndex := -1;
      selectedItem := None;
      var i := 0;
      while i < |rule.positions|
        invariant 0 <= i <= |rule.positions|
        invariant positions == rule.positions[..i] && items == Labels(rule.positions[..i]) && positionNumber == i
        modifies this`positions, this`items, this`positionNumber
      {
        var position := rule.positions[i];
        assert rule.positions[..i + 1][..i] == rule.positions[..i];
        assert rule.positions[..i + 1] == rule.positions[..i] + [position];
        assert Labels(rule.positions[..i + 1]) == Labels(rule.positions[..i]) + [PositionLabel(i + 1, position)];
        positionNumber := positionNumber + 1;
        items := items + [PositionLabel(positionNumber, position)];
        positions := positions + [position];
        i := i + 1;
      }
      assert rule.positions[..i] == rule.positions;
    }

    method GetNumberOfThePositionSelected() returns (n: int)
      requires Valid()
      ensures n == NumberOfSelected(State())
      ensures selectedItem.None? ==> n == 0
    {
      n := 0;
      if selectedItem.Some? {
        n := items[selectedItem.value].number;
      }
    }

    /** The selection handler; `form` is what it writes into the form, if anything. */
    method SelectionChanged(item: Option<int>, format: real -> string) returns (form: Option<FormFields>)
      requires Valid() && (item.Some? ==> 0 <= item.value < |items|)
      modifies this`selectedItem, this`isPositionSelected, this`selectedPositionIndex
      ensures Valid() && State() == Select(old(State()), item)
      ensures form.Some? <==> item.Some? && 0 <= NumberOfSelected(State()) - 1 < |positions|
      ensures form.Some? ==>
        isPositionSelected && 0 <= selectedPositionIndex < |positions|
        && form.value == FormOf(positions[selectedPositionIndex], format)
    {
      selectedItem := item;
      form := None;
      if item.Some? {
        var positionSelected := GetNumberOfThePositionSelected();
        positionSelected := positionSelected - 1;
        if 0 <= positionSelected < |positions| {
          var selectedPosition := positions[positionSelected];
          form := Some(FormOf(selectedPosition, format));
          isPositionSelected := true;
          selectedPositionIndex := positionSelected;
        }
      } else {
        isPositionSelected := false;
        selectedPositionIndex := -1;
      }
    }

    /** The add button; `faulted` when the handler throws. */
    method AddANewPosition(joint1: Option<string>, joint2: Option<string>, minText: string, maxText: string,
                           parse: string -> Option<real>) returns (faulted: bool)
      requires Valid()
      modifies this
      ensures Valid() && State() == Add(old(State()), joint1, joint2, minText, maxText, parse)
      ensures faulted <==> AddFaults(old(State()), joint1, joint2, minText, maxText, parse)
    {
      AddKeepsValid(State(), joint1, joint2, minText, maxText, parse);
      faulted := AddFaults(State(), joint1, joint2, minText, maxText, parse);
      if faulted {
        return;
      }
      var r := ValidatePosition(joint1, joint2, minText, maxText, parse);
      if r.Failure? {
        errorPosition := Some(PositionErrorMessage(r.error));
        return;
      }
      var newPosition := r.value;
      if isPositionSelected {
        positions := positions[selectedPositionIndex := newPosition];
        items := items[selectedPositionIndex := PositionLabel(selectedPositionIndex + 1, newPosition)];
        selectedItem := SelectionAfterReplace(selectedItem, selectedPositionIndex);
        isPositionSelected := false;
        selectedPositionIndex := -1;
      } else {
        positionNumber := positionNumber + 1;
        items := items + [PositionLabel(positionNumber, newPosition)];
        positions := positions + [newPosition];
      }
    }

    /** The delete button as written. */
    method DeletePosition()
      requires Valid()
      modifies this
      ensures Valid() && State() == Delete(old(State()))
    {
      DeleteKeepsValid(State());
      if selectedItem.Some? {
        var positionSelected := GetNumberOfThePositionSelected();
        positionSelected := positionSelected - 1;
        if 0 <= positionSelected < |positions| {
          positions := positions[..positionSelected] + positions[positionSelected + 1..];
          items := items[..positionSelected] + items[positionSelected + 1..];
          selectedItem := SelectionAfterRemoval(selectedItem, positionSelected);
          if selectedItem.None? {
            isPositionSelected := false;
            selectedPositionIndex := -1;
          }
        }
      }
    }

    /** The delete button with the entries numbered again afterwards. */
    method DeletePositionRenumbered()
      requires Valid()
      modifies this
      ensures Valid() && State() == DeleteRenumbered(old(State()))
    {
      DeletePosition();
      items := [];
      var i := 0;
      while i < |positions|
        invariant 0 <= i <= |positions|
        invariant items == Labels(positions[..i])
        modifies this`items
      {
        assert positions[..i + 1][..i] == positions[..i];
        items := items + [PositionLabel(i + 1, positions[i])];
        i := i + 1;
      }
      assert positions[..i] == positions;
      positionNumber := |positions|;
    }

    /** The save button: the rule handed to the exercise page, or the error text. */
    method SaveRule(timeText: string, description: string, parse: string -> Option<real>) returns (createdRule: Option<ExerciseRule>)
      requires Valid()
      modifies this`errorPosition
      ensures Valid() && (State(), createdRule) == Save(old(State()), timeText, description, parse)
    {
      var r := ValidateRule(timeText, description, positions, parse);
      if r.Failure? {
        errorPosition := Some(RuleErrorMessage(r.error));
        return None;
      }
      createdRule := Some(r.value);
    }
  }
}
