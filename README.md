# MotionRecovery exercise rule engine, modelled in Dafny

MotionRecovery is a Kinect rehabilitation application. It checks a patient's pose against an
exercise. An exercise has ordered rules. Each rule lists joint-pair angle ranges (positions)
that must hold together for the rule's dwell time. This project models the rule engine in the
two generations of the repository:

- `motionRecovery/` is the newer application.
- `initKinect/` is the older one. It also holds the XML writer, the XML reader and the data
  model.

The model covers:

- **Joint-name lookup** (`Joints`). `ParseToJoint` is an exact string match onto 21 of the
  25 Kinect joints and throws `ArgumentException` for any other name.
- **Data model** (`Exercises`). An exercise holds rules; a rule holds positions, one dwell
  time and one description.
- **Angle predicates** (`Angles`). These are the wrap-aware inclusive `CheckAngle`, the `+360`
  normalisation of `CalculateAngle`, and the older page's strict test on the absolute raw
  angle.
- **Dwell timer and rule cursor** (`RuleTiming`). The timer is either absent or running since
  a start time. The cursor is clamped to the rule list.
- **The newer session page** (`Session`). Every position of the current rule must hold. When
  the dwell timer elapses, a success popup appears. Its one-second countdown then moves to
  the next rule. The page is a class whose methods are proved against pure transition
  functions on a state value. `checkMultiplePosition` keeps its loop over positions.
- **The older session page** (`LegacySession`). Only the first position is checked, and the
  timer's elapse moves straight to the next rule.
- **XML** (`Xml`). An XML document is a tree, and a file is the event sequence an `XmlWriter`
  emits. `Parse` models `XmlDocument.Load`, and `Descendants` models `SelectNodes("//name")`.
- **The writer** (`ExerciseWriter`). Methods stream events into an `XmlWriter` object in the
  fixed element order.
- **The reader** (`ExerciseReader`). It reads every `Position` element. The first failure
  ends the walk, and the positions read so far are returned.
- **The authoring checks** (`Validation`) and the four authoring pages: `RuleEditor`,
  `LegacyRuleEditor`, `ExerciseEditor` and `LegacyExerciseEditor`.

Some things are parameters:

- Time is a real number of seconds, passed as `now`.
- A sensor frame is a function from a joint pair to the raw `atan2` angle in degrees.
- `double.TryParse` and `Convert.ToDouble` are a partial function `string -> Option<real>`.
- `double.ToString()` is a function `real -> string`.
- The save dialog's answer and whether the chosen file can be written are parameters.

Where the XML is concerned, the model follows the code. The writer puts `PositionTime` and
`Description` under `rule`, but the reader looks for them under `Position` (see Findings).

The newer exercise page calls a writer of its own project. That writer is not part of this
model. The page is modelled with the `initKinect` writer.

## Model

| member | source | states |
|---|---|---|
| `Joints.ParseToJoint` | motionRecovery/modules/ParseJointType.cs:11-58 | On success the joint is one of the 21 accepted joints and its enumeration name is exactly the input. On failure the error message is "Unknown joint type: " followed by the input. |
| `Joints.ParseName` | motionRecovery/modules/ParseJointType.cs:11-54 | Parsing a joint's enumeration name (what the writer emits) gives that joint back for the 21 accepted joints. It fails for HandTipLeft, ThumbLeft, HandTipRight and ThumbRight. |
| `Joints.ParseSucceedsIff` | motionRecovery/modules/ParseJointType.cs:11-58 | The lookup succeeds exactly on the names of the accepted joints. |
| `Joints.ParseInjective` | motionRecovery/modules/ParseJointType.cs:11-54 | Distinct accepted names give distinct joints. |
| `Joints.ParseRejectsNearMisses` | motionRecovery/modules/ParseJointType.cs:57-58 | The match is case-sensitive: "neck" is rejected. "Elbow" is rejected with the message "Unknown joint type: Elbow". The hand tips and thumbs are rejected. |
| `Exercises.FreshValuesAreEmpty` | initKinect/ExerciseMultiPosition.cs:14-29 | A new exercise has no rules and a new rule has no positions. Neither passes the save checks. |
| `Exercises.UnvalidatedPositionsRepresentable` | initKinect/ExerciseMultiPosition.cs:32-38 | A position with equal joints and a minimum above its maximum is representable. |
| `Angles.CalculateAngle` | motionRecovery/pages/ExercisePage.xaml.cs:476-481 | The result is the raw angle, or the raw angle plus 360. It is never negative for a raw angle of at least -360. For an `atan2` angle in (-180, 180] it lies in [0, 360). |
| `Angles.CheckAngleCases` | motionRecovery/pages/ExercisePage.xaml.cs:384 | When max > min, CheckAngle is `min <= a <= max`. When min > max, it is `(min < a <= 360) or a <= max`, so `a == min` is rejected. When min == max it is always false. |
| `Angles.WrapRangeIsComplementOfGap` | motionRecovery/pages/ExercisePage.xaml.cs:384 | For angles in [0, 360], a wrapped range accepts exactly the angles outside the gap (max, min]. |
| `Angles.WrapRangeExamples` | motionRecovery/pages/ExercisePage.xaml.cs:382-392 | The range 350..10 accepts 5 and 355 and rejects 180 and 350 itself. A raw angle of -30 normalises to 330. |
| `Angles.Magnitude` | initKinect/ExercisePage.xaml.cs:314 | `Math.Abs`: the result is non-negative and is the angle or its negation. |
| `Angles.LegacyAcceptsProperties` | initKinect/ExercisePage.xaml.cs:314 | The strict test on the absolute angle cannot tell an angle from its mirror image. With a minimum of 180 or more it never accepts an `atan2` angle. With max <= min it accepts nothing. |
| `Angles.LegacyIsStricter` | initKinect/ExercisePage.xaml.cs:314 | For ranges inside [0, 180] and non-negative angles, whatever the older test accepts the newer one accepts too. The bounds themselves are accepted only by the newer test. |
| `RuleTiming.DueIffNothingRemains` | motionRecovery/pages/ExercisePage.xaml.cs:326-341 | A running dwell timer is due exactly when the reported remaining time (dwell time minus time since the start) is at most zero. |
| `RuleTiming.CursorMoves` | motionRecovery/pages/ExercisePage.xaml.cs:425-459 | Both cursor moves stay in range. The next-rule move changes nothing only at the last rule or with no rules. The previous-rule move changes nothing only at 0. Away from the bounds, each move undoes the other. |
| `RuleTiming.NextTimesClamps` | motionRecovery/pages/ExercisePage.xaml.cs:425-436 | `k` next-rule moves reach `min(index + k, count - 1)`. |
| `Session.Acceptances` | motionRecovery/pages/ExercisePage.xaml.cs:283-294 | One verdict per position, in order: CheckAngle on the position's normalised angle. |
| `Session.ScanAfterFailure` | motionRecovery/pages/ExercisePage.xaml.cs:318-356 | Once a position has failed, the rest of the loop leaves the timer cleared and the status "KO". |
| `Session.ScanComputesFrameEffect` | motionRecovery/pages/ExercisePage.xaml.cs:279-358 | The per-position loop, with its timer logic inside the loop, computes the same result as a loop-free statement of the frame's effect. |
| `Session.TimerIffAllPositionsHold` | motionRecovery/pages/ExercisePage.xaml.cs:279-357 | For a rule with a position, a timer exists after an unfaulted frame exactly when every position holds. A running timer keeps its start, and the reported remaining time is dwell time minus time since start. A new timer starts now with the full dwell time. A failing frame clears the timer. The frame faults exactly when the first position holds, no timer runs and the dwell time is not positive. |
| `Session.TransitionsKeepValid` | motionRecovery/pages/ExercisePage.xaml.cs:237-243 | Frames, elapse, ticks, skip, previous and stop keep the cursor in range, a positive countdown, and a running countdown only while the popup shows. |
| `Session.ElapseShowsPopupOnly` | motionRecovery/pages/ExercisePage.xaml.cs:405-412 | Elapse clears the timer and shows the popup without moving the cursor. While the popup shows, a frame is not evaluated and changes nothing. |
| `Session.CountdownThenAdvance` | motionRecovery/pages/ExercisePage.xaml.cs:513-529 | From a countdown `c`, the first `c - 1` ticks only count down. The `c`-th tick hides the popup, resets the countdown to 6 and moves to the next rule. |
| `Session.RunFrames` | motionRecovery/pages/ExercisePage.xaml.cs:237-243 | Any sequence of frames keeps the state invariant. |
| `Session.HeldPoseKeepsStart` | motionRecovery/pages/ExercisePage.xaml.cs:326-341 | While every position keeps holding, frames leave a running timer and its start time untouched. |
| `Session.InitialTimerNeverStarts` | motionRecovery/pages/ExercisePage.xaml.cs:55 | The page starts with an unstarted timer object instead of null. Frames in which the pose holds keep it, so the rule can never elapse until a failing frame clears it. |
| `Session.CorrectedStartBeginsDwell` | motionRecovery/pages/ExercisePage.xaml.cs:326-335 | From a null timer, the first frame in which the pose holds starts the timer at that frame's time. The timer is due one dwell time later and not half-way. |
| `Session.ThirtyHertzDwell` | motionRecovery/pages/ExercisePage.xaml.cs:323-357 | At 30 frames a second with a one-second dwell, the timer is not due at frames 0 to 29 and is due at frame 30. A failing frame drops it, and the next passing frame restarts the full second. |
| `Session.ZeroDwellFaults` | motionRecovery/pages/ExercisePage.xaml.cs:329-333 | A dwell time of 0 makes the first passing frame throw while the new timer's interval is set. |
| `Session.ExercisePage.constructor` | motionRecovery/pages/ExercisePage.xaml.cs:50-72 | The page starts at rule 0 with the unstarted timer object, the popup hidden and the countdown at 6. |
| `Session.ExercisePage.ExerciseDescription` | motionRecovery/pages/ExercisePage.xaml.cs:722-746 | With rules, the current rule's description is shown. Without rules, `...` is shown. |
| `Session.ExercisePage.CheckMultiplePosition` | motionRecovery/pages/ExercisePage.xaml.cs:277-361 | The loop leaves the timer fields and the status that the scan function gives. On an unfaulted frame, the listed angles are the normalised angles of all positions. |
| `Session.ExercisePage.FrameArrived` | motionRecovery/pages/ExercisePage.xaml.cs:235-245 | A frame is evaluated only when there are rules and the popup is hidden. The new state is the frame transition of the old one. |
| `Session.ExercisePage.RuleTimerElapsed` | motionRecovery/pages/ExercisePage.xaml.cs:405-412 | The new state is the elapse transition: no timer, the popup shown, the cursor unchanged. |
| `Session.ExercisePage.ShowRuleSuccessPopup` | motionRecovery/pages/ExercisePage.xaml.cs:484-502 | The popup becomes visible and its countdown timer runs. |
| `Session.ExercisePage.TimerTick` | motionRecovery/pages/ExercisePage.xaml.cs:513-529 | The new state is the tick transition of the old one. |
| `Session.ExercisePage.PassToNextRule` | motionRecovery/pages/ExercisePage.xaml.cs:425-436 | The cursor moves forward only below the last rule. |
| `Session.ExercisePage.PassToPreviousRule` | motionRecovery/pages/ExercisePage.xaml.cs:448-459 | The cursor moves back only above 0. |
| `Session.ExercisePage.DropRuleTimer` | motionRecovery/pages/ExercisePage.xaml.cs:553-558 | A running timer is stopped and the field becomes null. |
| `Session.ExercisePage.StopExercise` | motionRecovery/pages/ExercisePage.xaml.cs:551-565 | The stop button clears the timer and changes nothing else. |
| `Session.ExercisePage.PreviousRule` | motionRecovery/pages/ExercisePage.xaml.cs:567-576 | The timer is cleared before the cursor moves back. |
| `Session.ExercisePage.SkipRule` | motionRecovery/pages/ExercisePage.xaml.cs:578-587 | The timer is cleared before the cursor moves forward. |
| `Session.NavigationGetters` | motionRecovery/pages/ExercisePage.xaml.cs:640-670 | IsFirstRule holds exactly when "previous" cannot move. With rules, IsMaxRule holds exactly when "next" cannot move. Without rules, "next" cannot move, yet IsMaxRule is false. |
| `LegacySession.OnlyFirstPositionMatters` | initKinect/ExercisePage.xaml.cs:285-296 | Two rules with the same first position and dwell time behave the same on every frame, whatever their other positions. |
| `LegacySession.LegacyTimerIffFirstPositionHolds` | initKinect/ExercisePage.xaml.cs:309-348 | The cursor is unchanged. After an unfaulted frame a timer exists exactly when the first position passes the strict test. An existing timer is left untouched. A missing timer is created with the rule's dwell time and started at the frame's time, so all of the dwell time remains. A fault comes from a rule without positions, or from a passing first position with no timer and a non-positive dwell time. |
| `LegacySession.LegacyMovesKeepCursor` | initKinect/ExercisePage.xaml.cs:350-376 | Elapse, skip and previous keep the cursor in range and leave no timer. Elapse on the last rule stays and elapse on any other rule moves forward. |
| `LegacySession.MirrorExample` | initKinect/ExercisePage.xaml.cs:379-387 | A raw angle of -90 passes the older 80..100 test through its mirror image 90. Normalised to 270, it fails 80..100 in the newer page and passes 260..280 there. The older page rejects it for 260..280. |
| `LegacySession.LegacyExercisePage.constructor` | initKinect/ExercisePage.xaml.cs:38-42 | The page starts at rule 0 with the unstarted timer object. |
| `LegacySession.LegacyExercisePage.FrameArrived` | initKinect/ExercisePage.xaml.cs:285-296 | The new state and status are the older frame transition of the old state. |
| `LegacySession.LegacyExercisePage.CheckUserPositionOn` | initKinect/ExercisePage.xaml.cs:309-348 | The timer fields and the status are those of `CheckUserPosition`. |
| `LegacySession.LegacyExercisePage.RuleTimerElapsed` | initKinect/ExercisePage.xaml.cs:350-356 | Elapse moves to the next rule (clamped) and clears the timer. |
| `LegacySession.LegacyExercisePage.PassToNextRule` | initKinect/ExercisePage.xaml.cs:358-366 | The cursor moves forward only below the last rule. |
| `LegacySession.LegacyExercisePage.PassToPreviousRule` | initKinect/ExercisePage.xaml.cs:368-376 | The cursor moves back only above 0. |
| `LegacySession.LegacyExercisePage.StopExercise` | initKinect/ExercisePage.xaml.cs:391-405 | The timer is cleared and the cursor is kept. |
| `LegacySession.LegacyExercisePage.PreviousExercise` | initKinect/ExercisePage.xaml.cs:407-416 | The timer is cleared, then the cursor moves back. |
| `LegacySession.LegacyExercisePage.SkipExercise` | initKinect/ExercisePage.xaml.cs:418-427 | The timer is cleared, then the cursor moves forward. This ends in the same state as elapse. |
| `Xml.Parse` | initKinect/ExercisesReaderXML.cs:25-26 | A loaded document has an element as its root. |
| `Xml.LoadWritten` | initKinect/ExercisesReaderXML.cs:25-26 | Loading what an XmlWriter wrote for a document gives that document back. |
| `Xml.TruncatedDoesNotLoad` | initKinect/ExercisesReaderXML.cs:25-26 | An unclosed document does not load. |
| `Xml.SelectChild` | initKinect/ExercisesReaderXML.cs:34-39 | `SelectSingleNode(name)` finds a child element with that name, or reports that none exists. |
| `Xml.FirstNamedIsFirst` | initKinect/ExercisesReaderXML.cs:34-39 | The element found among siblings is the first with that name: no earlier sibling is an element with that name. |
| `Xml.SelectChildIsFirst` | initKinect/ExercisesReaderXML.cs:34-39 | `SelectSingleNode(name)` returns the first child element with that name. |
| `Xml.StringElementText` | initKinect/ExercisesReaderXML.cs:34-39 | The inner text of an element written by WriteElementString is the written value. |
| `Xml.Descendants` | initKinect/ExercisesReaderXML.cs:28 | Every node `//Position` selects is a `Position` element. |
| `Xml.DescendantsAreNamedSubtrees` | initKinect/ExercisesReaderXML.cs:28 | `//name` selects exactly the tree's elements with that name, the root included, in document order. Every such element is selected. |
| `Xml.DescendantsForestAreNamedSubtrees` | initKinect/ExercisesReaderXML.cs:28 | The same holds for a list of sibling trees, taken one after another. |
| `Xml.Named` | initKinect/ExercisesReaderXML.cs:28 | The filtered list holds exactly the nodes of the input that are elements with that name. |
| `ExerciseWriter.WritePosition` | initKinect/ExerciseWriterXML.cs:96-107 | The writer receives a `Position` element holding `Membre1`, `Membre2`, `AngleMin` and `AngleMax` in that order. Joints are written as enumeration names and numbers with `ToString()`. |
| `ExerciseWriter.WriteExerciseRule` | initKinect/ExerciseWriterXML.cs:74-89 | The writer receives a `rule` element: all its positions in order, then `PositionTime`, then `Description`. |
| `ExerciseWriter.WritePositions` | initKinect/ExerciseWriterXML.cs:79-82 | The writer receives one `Position` element per position, in list order. |
| `ExerciseWriter.WriteExerciseElement` | initKinect/ExerciseWriterXML.cs:44-57 | The writer receives the `ExerciseRule` root: `name`, then `description`, then the rules, then the end tag. |
| `ExerciseWriter.WriteRules` | initKinect/ExerciseWriterXML.cs:51-54 | The writer receives one `rule` element per rule, in list order. |
| `ExerciseWriter.WriteExerciseToFile` | initKinect/ExerciseWriterXML.cs:18-67 | A null exercise or an empty path fails with the unwrapped ArgumentNullException before anything is written. A failing write is reported as "Error writing exercise to XML file.", with no file content in the result. Otherwise the complete file is the declaration followed by the `ExerciseRule` root with `name`, `description` and one `rule` per rule in order. |
| `ExerciseReader.ReadUntilFailure` | initKinect/ExercisesReaderXML.cs:30-49 | The result is the readings of a prefix of the nodes, in order. When it is shorter than the node list, the next node failed to read. |
| `ExerciseReader.ReadUntilFailureExactly` | initKinect/ExercisesReaderXML.cs:30-49 | If the first `k` nodes read and node `k` fails, exactly `k` positions come back. |
| `ExerciseReader.ReadExerciseFile` | initKinect/ExercisesReaderXML.cs:18-50 | The method's walk returns the reader function's result. An unloadable file gives an empty list, and no error escapes. |
| `ExerciseReader.ReadPositionNodes` | initKinect/ExercisesReaderXML.cs:30-42 | The loop, given the body that reads one node, returns the positions read before the first failing node, in order. |
| `ExerciseReader.UnknownJointKeepsPrefix` | initKinect/ExercisesReaderXML.cs:34-49 | An unknown joint name in `Membre1` or `Membre2` of the `k`-th `Position` element yields exactly the first `k` positions. |
| `ExerciseReader.UnknownJointStopsWalk` | initKinect/ExercisesReaderXML.cs:30-49 | The walk over the selected nodes stops at the first node whose `Membre1` or `Membre2` is an unknown joint name. |
| `ExerciseReader.UnknownJointUnreadable` | initKinect/ExercisesReaderXML.cs:34-35 | A `Position` element whose `Membre1` or `Membre2` is an unknown joint name cannot be read. |
| `ExerciseReader.WrittenDocumentPositions` | initKinect/ExercisesReaderXML.cs:28 | In a written file, `//Position` selects the position elements of all rules, rule by rule, in order. |
| `ExerciseReader.WrittenFileReadsEmpty` | initKinect/ExercisesReaderXML.cs:38-39 | A file the writer produced for an exercise with at least one position reads back as the empty list. |
| `ExerciseReader.NameIsTrimmed` | initKinect/ExercisesReaderXML.cs:34-35 | A joint's written name has no white space at either end, so the reader's `Trim` keeps it. |
| `ExerciseReader.WrittenFileStopsAtUnreadableTime` | initKinect/ExercisesReaderXML.cs:28-47 | When the k-th written rule has positions and a dwell time that does not read back, and the rules before it read back, the corrected reader returns exactly the positions of those earlier rules. The first position of rule k throws, and the catch ends the walk. |
| `ExerciseReader.ReadWrittenRulesUntil` | initKinect/ExercisesReaderXML.cs:30-41 | The walk over written rules reads every rule before the k-th in full and stops at the k-th's first position. |
| `ExerciseReader.FirstRuleStops` | initKinect/ExercisesReaderXML.cs:37 | A rule with positions whose dwell time does not read back fails at its first position, so the walk returns nothing from there on. |
| `ExerciseReader.WrittenFileRoundTrip` | initKinect/ExercisesReaderXML.cs:28-42 | The corrected reader takes dwell time and description from the enclosing rule. A written file then reads back as every rule's positions, each with its rule's dwell time and its rule's description trimmed. The rule pages do not trim a description, so one with surrounding white space comes back without it. This holds when each rule's dwell time and angles read back as written and every joint is one the lookup accepts. |
| `Text.TrimStart` | initKinect/ExercisesReaderXML.cs:34-39 | The result is a suffix of the input that does not start with white space, and everything removed is white space. |
| `Text.TrimEnd` | initKinect/ExercisesReaderXML.cs:34-39 | The result is a prefix of the input that does not end with white space, and everything removed is white space. |
| `Text.TrimIdentity` | initKinect/ExercisesReaderXML.cs:34-39 | `Trim` leaves a string unchanged exactly when it has no white space at either end. |
| `Validation.ValidateRule` | motionRecovery/pages/CreateRuleXMLPage.xaml.cs:69-120 | The checks run in order: time not a number or negative, time above 1024, description above 512 characters, no positions. Each refusal is characterised. A rule is built exactly when every check passes. It carries the parsed time, the description and the positions, and satisfies the saved-rule constraints. |
| `Validation.ValidatePosition` | motionRecovery/pages/CreateRuleXMLPage.xaml.cs:123-202 | A position is accepted exactly when all four fields are filled, the joint names differ and are known, and both angles are numbers in [0, 360]. The result has the parsed joints and angles and is an authored position. A minimum above the maximum is never refused. |
| `Validation.LegacyValidatePosition` | initKinect/CreateRuleXMLPage.xaml.cs:90-165 | The older page accepts exactly the positions the newer one accepts whose minimum is at most the maximum. It refuses `min > max` with its own message before looking up the joints. |
| `Validation.WrapRangeOnlyInNewerEditor` | initKinect/CreateRuleXMLPage.xaml.cs:121-125 | 360 is a valid angle. The range 350..10 is accepted by the newer page and refused by the older page for any joints. |
| `Validation.ValidateExercise` | motionRecovery/pages/CreateExerciseXMLPage.xaml.cs:40-54 | The exercise passes exactly when the name has 1 to 128 characters, the description at most 1028 and there is a rule. The name is checked first, then the description, then the rules, and the first failure decides the message. |
| `RuleEditor.Labels` | motionRecovery/pages/CreateRuleXMLPage.xaml.cs:47-55 | Loading numbers the entries 1, 2, ... in list order, one entry per position, each showing its position. |
| `RuleEditor.LoadAndSelectKeepValid` | motionRecovery/pages/CreateRuleXMLPage.xaml.cs:218-245 | Loading and selection keep one list entry per position, each beside its position. |
| `RuleEditor.AddKeepsValid` | motionRecovery/pages/CreateRuleXMLPage.xaml.cs:163-175 | Replacing or appending keeps one list entry per position. |
| `RuleEditor.DeleteKeepsValid` | motionRecovery/pages/CreateRuleXMLPage.xaml.cs:278-279 | Removing the same index from both lists keeps them equal in length and each entry beside its position. |
| `RuleEditor.ReplaceKeepsOtherSelection` | motionRecovery/pages/CreateRuleXMLPage.xaml.cs:163-168 | Replacing the selected position keeps the list's length. A list-box selection on the replaced entry is dropped; a selection on any other entry stays on it, and that entry and its position are unchanged. |
| `RuleEditor.AddAppendsOrReplaces` | motionRecovery/pages/CreateRuleXMLPage.xaml.cs:163-175 | With no selection, an accepted position is appended and `positionNumber` grows by one. With a selection, only the selected index is replaced and the selection ends. The error text is untouched. |
| `RuleEditor.NumberedSelectionShowsClicked` | motionRecovery/pages/CreateRuleXMLPage.xaml.cs:218-234 | While the entries are numbered 1, 2, ..., selecting an entry selects exactly the position it shows. |
| `RuleEditor.HandlersKeepNumbered` | motionRecovery/pages/CreateRuleXMLPage.xaml.cs:163-175 | Loading, selecting, adding and saving keep that numbering. |
| `RuleEditor.DeleteBreaksLabelSelection` | motionRecovery/pages/CreateRuleXMLPage.xaml.cs:270-285 | After one delete the numbering is broken. Then the entry showing B selects C, and deleting it removes C. The page is left selecting an index past the end. |
| `RuleEditor.CorrectedDeleteRemovesSelected` | motionRecovery/pages/CreateRuleXMLPage.xaml.cs:270-285 | A delete that renumbers the entries keeps the numbering. It removes exactly the position of the clicked entry and ends the selection. |
| `RuleEditor.LoadThenSave` | motionRecovery/pages/CreateRuleXMLPage.xaml.cs:40-104 | A valid rule loaded and saved unchanged comes back unchanged, when its time text reads back as the same number. |
| `RuleEditor.EditUnchangedKeepsPosition` | motionRecovery/pages/CreateRuleXMLPage.xaml.cs:218-234 | Selecting a position and adding the form unchanged writes the same position back. |
| `RuleEditor.RuleEditorPage.constructor` | motionRecovery/pages/CreateRuleXMLPage.xaml.cs:25-37 | A new page is empty, or holds the given rule loaded. |
| `RuleEditor.RuleEditorPage.LoadRule` | motionRecovery/pages/CreateRuleXMLPage.xaml.cs:40-58 | The loop refills positions and entries from the rule. The text boxes show the time and the description. |
| `RuleEditor.RuleEditorPage.GetNumberOfThePositionSelected` | motionRecovery/pages/CreateRuleXMLPage.xaml.cs:205-215 | The number heading the selected entry, or 0 without a selection. |
| `RuleEditor.RuleEditorPage.SelectionChanged` | motionRecovery/pages/CreateRuleXMLPage.xaml.cs:218-245 | The form is filled exactly when the entry's number names an existing position. It then shows that position, and the position becomes selected. |
| `RuleEditor.RuleEditorPage.AddANewPosition` | motionRecovery/pages/CreateRuleXMLPage.xaml.cs:123-179 | The new state is the add transition. The handler throws exactly on an unknown joint or a stale selected index. A replace keeps the list's length, so only a selection on the replaced entry is dropped. |
| `RuleEditor.RuleEditorPage.DeletePosition` | motionRecovery/pages/CreateRuleXMLPage.xaml.cs:270-285 | The new state is the delete transition as written. |
| `RuleEditor.RuleEditorPage.DeletePositionRenumbered` | motionRecovery/pages/CreateRuleXMLPage.xaml.cs:270-285 | The new state is the corrected delete. |
| `RuleEditor.RuleEditorPage.SaveRule` | motionRecovery/pages/CreateRuleXMLPage.xaml.cs:69-110 | The page emits the checked rule, or sets the message of the first failing check. |
| `LegacyRuleEditor.LegacyAddAppends` | initKinect/CreateRuleXMLPage.xaml.cs:90-143 | An accepted position is appended at the end. A refused one leaves the list alone. Every listed position stays authored with its minimum at most its maximum. |
| `LegacyRuleEditor.LegacySavedRulesDoNotWrap` | initKinect/CreateRuleXMLPage.xaml.cs:36-77 | A saved rule passes the rule checks, holds the collected positions and has no range that wraps across 0/360. |
| `LegacyRuleEditor.LegacyRuleEditorPage.constructor` | initKinect/CreateRuleXMLPage.xaml.cs:18-25 | A new page has no positions and no error. |
| `LegacyRuleEditor.LegacyRuleEditorPage.AddANewPosition` | initKinect/CreateRuleXMLPage.xaml.cs:90-143 | The new state is the older add transition. The handler throws exactly on an unknown joint. |
| `LegacyRuleEditor.LegacyRuleEditorPage.SaveRule` | initKinect/CreateRuleXMLPage.xaml.cs:36-77 | The page emits the checked rule, or sets the message of the first failing check. |
| `ExerciseEditor.SaveXmlOutcomes` | motionRecovery/pages/CreateExerciseXMLPage.xaml.cs:37-92 | A refused exercise changes only the error text. Once the checks pass, name and description are copied even if the dialog is cancelled. A complete file is written exactly when the checks pass, a file is chosen and the write succeeds. It holds the checked exercise, and the error is cleared. A failing write leaves "Error writing XML file: " followed by the writer's message. |
| `ExerciseEditor.CreatedRuleAppends` | motionRecovery/pages/CreateExerciseXMLPage.xaml.cs:103-109 | A created rule is appended: the count grows by one, earlier rules are unchanged and the entries stay numbered. |
| `ExerciseEditor.SavedFileReadsBack` | motionRecovery/pages/CreateExerciseXMLPage.xaml.cs:72-75 | A saved file reads back through the corrected reader as the rules' positions, each with its rule's dwell time and trimmed description. This holds when every joint is one the lookup accepts and each rule's dwell time and angles read back as written. The reader as written returns nothing from it once any rule has a position. |
| `ExerciseEditor.SavedFileStopsAtUnreadableTime` | motionRecovery/pages/CreateExerciseXMLPage.xaml.cs:72-75 | When the k-th saved rule has positions and a dwell time that does not read back, the saved file reads back through the corrected reader as the positions of the rules before it. |
| `ExerciseEditor.ExerciseEditorPage.constructor` | motionRecovery/pages/CreateExerciseXMLPage.xaml.cs:18-26 | A new page holds an exercise with no rules and no error. |
| `ExerciseEditor.ExerciseEditorPage.SaveXml` | motionRecovery/pages/CreateExerciseXMLPage.xaml.cs:37-92 | The method, calling the writer, ends in the state and file of the save transition. |
| `ExerciseEditor.ExerciseEditorPage.CreatedRule` | motionRecovery/pages/CreateExerciseXMLPage.xaml.cs:103-109 | The new state is the created-rule transition. |
| `LegacyExerciseEditor.ValidateInputOutcome` | initKinect/CreateExerciseXMLPage.xaml.cs:112-133 | ValidateInput returns true exactly for a savable exercise and then clears the error. Otherwise it sets the first failing check's message. It never changes the exercise. |
| `LegacyExerciseEditor.LegacySaveWritesUncheckedNames` | initKinect/CreateExerciseXMLPage.xaml.cs:45-85 | The writer runs only after validation passes and a file is chosen. It writes the page's exercise unchanged, without the checked name and description. |
| `LegacyExerciseEditor.LegacySavedNameIsEmpty` | initKinect/CreateExerciseXMLPage.xaml.cs:45-85 | From a fresh page, a saved file has an empty name and description whatever was typed. |
| `LegacyExerciseEditor.LegacyExerciseEditorPage.constructor` | initKinect/CreateExerciseXMLPage.xaml.cs:21-31 | A new page holds an exercise with no rules and no error. |
| `LegacyExerciseEditor.LegacyExerciseEditorPage.ValidateInput` | initKinect/CreateExerciseXMLPage.xaml.cs:112-133 | The checks set or clear the error as the validation function says. |
| `LegacyExerciseEditor.LegacyExerciseEditorPage.SaveXml` | initKinect/CreateExerciseXMLPage.xaml.cs:45-85 | The method, calling the writer, ends in the state and file of the older save transition. |
| `LegacyExerciseEditor.LegacyExerciseEditorPage.CreatedRule` | initKinect/CreateExerciseXMLPage.xaml.cs:100-105 | A created rule is appended at the end of `Rules`. |

## Left out

- Kinect sensor setup, frame acquisition, coordinate mapping and drawing are not modelled (`SkeletonGraphicInterface.cs`, the skeleton canvas of the rule page). A frame is a function from a joint pair to a raw angle.
- `Math.Atan2` and the degree conversion are floating-point numerics. The raw angle is an abstract real, and all arithmetic is exact real arithmetic rather than IEEE doubles. NaN and infinities are not modelled.
- The timer threads are not modelled. Elapse and countdown ticks are explicit calls, so the race between `RuleTimerElapsed` and frame handling is not covered.
- `Timer.Interval` above `Int32.MaxValue` milliseconds is not modelled. Only the refusal of a non-positive interval is.
- Navigation, the save and open dialogs, `INotifyPropertyChanged` and the status and validation strings are not modelled. The dialog is a parameter, and so is whether the write succeeds.
- The attribute-editing helpers of the writer and reader (`WriteAttributes`, `WriteNewAttributes`) and the unused `CalculateAngleWithDouble` are not modelled.
- The label text `n) J1 -> J2: min°-max°` is kept as its number and the position it shows. `int.Parse` of the text before `)` is taken to give that number back.
- The list box's selection is modelled as the WPF behaviour the handlers rely on. Removing or replacing the selected entry clears the selection, which raises the selection handler with no item.
- The rule handed back by the save button shares its `positions` list with the page (aliasing). The model hands back a value.
- The reader returns `List<Position>`, which callers assign to an exercise. That type mismatch is not reconciled; the reader is modelled as written.
- `String.Trim` white space is limited to the ASCII and Latin-1 white-space characters. `Length` counts Dafny characters, not UTF-16 code units.
- The culture used by `ToString()` and `Convert.ToDouble` is a parameter. `ToString()` keeps a limited number of digits, so not every number reads back. Whether one does is stated per written number (`ExerciseReader.ReadsBack`, `ExerciseReader.RuleNumbersReadBack`). The round-trip lemmas require it for the dwell time and angles of each written rule. `ExerciseReader.WrittenFileStopsAtUnreadableTime` covers a dwell time that `Convert.ToDouble` rejects. A dwell time that `ToString()` shortens, so that it reads back as another number (0.30000000000000004 is printed "0.3"), is not covered: the positions of that rule would then carry the other number.
- A rule whose dwell time reads back but one of whose angles does not is not covered by a lemma. `Convert.ToDouble` (initKinect/ExercisesReaderXML.cs:36-37) then either throws, and the walk stops at that position, or returns another number, which the position carries.
- The older page declares its exercise as `ExerciseMultiPosition` (initKinect/CreateExerciseXMLPage.xaml.cs:12,24). The class in this source is spelled `ExerciseMultiPositon` (initKinect/ExerciseMultiPosition.cs:8-17), and `WriteExerciseToFile` takes that type (initKinect/ExerciseWriterXML.cs:18). The model treats the two names as one class with `Name`, `Description` and `Rules`. `LegacyExerciseEditor.LegacySavedNameIsEmpty` relies on this.
- `WriteElementString` throws on a character XML cannot carry, such as U+0001. The writer's catch wraps that failure like any other (initKinect/ExerciseWriterXML.cs:26-66). The model does not tell the two apart: `destinationWritable` says whether the write succeeds.
- `ExerciseWriter.WriteExerciseToFile` and `ExerciseEditor.SaveXmlOutcomes` do not represent what a failed write leaves on disk. `XmlWriter.Create` (initKinect/ExerciseWriterXML.cs:39) creates or truncates the file before any element is written. A write that fails after that point leaves the file truncated or partly written, and its previous content is gone. The model returns no file for a failed write.
- A null `Name` or `Description` is written as an empty element, so the model uses the empty string for null.
- `Exercises.UnvalidatedPositionsRepresentable` shows one such position, not every combination.
- Several tracked bodies in one frame are not modelled as such. The handlers loop over every tracked body (motionRecovery/pages/ExercisePage.xaml.cs:209-243, initKinect/ExercisePage.xaml.cs:283-294). Such a frame is one frame call per tracked body, in body order, all with the same `now`. For the newer page `Session.RunFrames` composes these calls. For the older page each body is one more `LegacyFrame` call.
- A `Faulted` frame stands for an exception that escapes the sensor handler. The model does not follow the page after it.
- The reader's `Console.WriteLine` of the failure message (initKinect/ExercisesReaderXML.cs:44-47) is a dropped effect. Only the returned list is modelled.

## Findings

| source | as written | input that shows it | evidently intended | confidence | as-written member | corrected member |
|---|---|---|---|---|---|---|
| initKinect/ExercisesReaderXML.cs:38-39 | The reader looks for `PositionTime` and `Description` inside each `Position`. The writer puts them in the enclosing `rule` (initKinect/ExerciseWriterXML.cs:85-86). | Any exercise with one rule holding one position, written by the writer and read back. | A written exercise reads back with every position carrying its rule's dwell time and description. | not executed | `ExerciseReader.WrittenFileReadsEmpty` | `ExerciseReader.WrittenFileRoundTrip` |
| motionRecovery/pages/CreateRuleXMLPage.xaml.cs:278-279 | Delete removes the position named by the entry's number but does not renumber the entries that follow. The number-based selection then names another position. | Load A, B, C. Select "1)" and delete. Select the entry showing B ("2)"): C is loaded. Deleting it removes C, and a later add throws on the stale index. | Entries stay numbered 1..n, so a selected entry always names the position it shows. | not executed | `RuleEditor.DeleteBreaksLabelSelection` | `RuleEditor.CorrectedDeleteRemovesSelected` |
| motionRecovery/pages/ExercisePage.xaml.cs:55 | The rule timer field starts as an unstarted `new Timer()`, not null. The frame logic only creates and starts a timer when the field is null. | Start an exercise and hold the pose from the first frame: the timer never starts and the rule never completes. It completes only if a failing frame first clears the field. | The first passing frame starts the dwell timer. | not executed | `Session.InitialTimerNeverStarts` | `Session.CorrectedStartBeginsDwell` |
