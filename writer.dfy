/** ExerciseWriterXML: the exercise as an XML document, streamed element by element into an
    XmlWriter. Numbers are written with the culture-dependent `ToString()`, given here as the
    parameter `format`; joints are written with their enumeration name. */
module ExerciseWriter {
  import opened Wrappers
  import opened Joints
  import opened Exercises
  import opened Xml

  /** The document shape the writer produces, as a tree. */
  function PositionElement(p: SimplePosition, format: real -> string): Node
  {
    Element("Position", [StringElement("Membre1", Name(p.joint1)), StringElement("Membre2", Name(p.joint2)),
                         StringElement("AngleMin", format(p.angleMin)), StringElement("AngleMax", format(p.angleMax))])
  }

  function PositionElements(ps: seq<SimplePosition>, format: real -> string): (r: seq<Node>)
    ensures |r| == |ps| && forall i :: 0 <= i < |ps| ==> r[i] == PositionElement(ps[i], format)
  {
    if ps == [] then [] else [PositionElement(ps[0], format)] + PositionElements(ps[1..], format)
  }

  /** A rule: its positions in order, then PositionTime, then Description. */
  function RuleElement(r: ExerciseRule, format: real -> string): Node
  {
    Element("rule", PositionElements(r.positions, format)
                    + [StringElement("PositionTime", format(r.positionTime)), StringElement("Description", r.description)])
  }

  function RuleElements(rs: seq<ExerciseRule>, format: real -> string): (r: seq<Node>)
    ensures |r| == |rs| && forall i :: 0 <= i < |rs| ==> r[i] == RuleElement(rs[i], format)
  {
    if rs == [] then [] else [RuleElement(rs[0], format)] + RuleElements(rs[1..], format)
  }

  /** The root `ExerciseRule`: name, then description, then one `rule` per rule in order. */
  function ExerciseDocument(e: ExerciseMultiPosition, format: real -> string): Node
  {
    Element("ExerciseRule", [StringElement("name", e.name), StringElement("description", e.description)]
                            + RuleElements(e.rules, format))
  }

  /** The ways WriteExerciseToFile fails: the ArgumentNullException of the argument check,
      raised as is (its single argument is the parameter name), or any failure of the write
      itself wrapped in a new exception with a fixed message. */
  datatype WriteError = ArgumentNull(paramName: string) | WriteFailed(message: string)

  const NullArgumentName := "Exercise and file path cannot be null or empty."
  const WriteFailedMessage := "Error writing exercise to XML file."

  /** An XmlWriter: the events written so far. */
  class XmlWriter {
    var events: seq<XmlEvent>

    constructor ()
      ensures events == []
    {
      events := [];
    }

    method WriteStartDocument()
      modifies this
      ensures events == old(events) + [Declaration]
    {
      events := events + [Declaration];
    }

    method WriteStartElement(name: string)
      modifies this
      ensures events == old(events) + [StartElement(name)]
    {
      events := events + [StartElement(name)];
    }

    method WriteEndElement()
      modifies this
      ensures events == old(events) + [EndElement]
    {
      events := events + [EndElement];
    }

    method WriteElementString(name: string, value: string)
      modifies this
      ensures events == old(events) + Flatten(StringElement(name, value))
    {
      events := events + [StartElement(name), Chars(value), EndElement];
      assert FlattenForest([Text(value)]) == [Chars(value)] + FlattenForest([]);
    }
  }

  /** FlattenForest of a longer forest is that of the shorter one followed by the new node. */
  lemma {:induction false} FlattenForestSnoc(ns: seq<Node>, n: Node)
    ensures FlattenForest(ns + [n]) == FlattenForest(ns) + Flatten(n)
    decreases |ns|
  {
    if ns == [] {
      assert ns + [n] == [n];
      assert FlattenForest([n]) == Flatten(n) + FlattenForest([]);
    } else {
      assert (ns + [n])[0] == ns[0] && (ns + [n])[1..] == ns[1..] + [n];
      FlattenForestSnoc(ns[1..], n);
    }
  }

  lemma {:induction false} FlattenForestAppend(a: seq<Node>, b: seq<Node>)
    ensures FlattenForest(a + b) == FlattenForest(a) + FlattenForest(b)
    decreases |a|
  {
    if a == [] {
      assert a + b == b;
    } else {
      assert (a + b)[0] == a[0] && (a + b)[1..] == a[1..] + b;
      FlattenForestAppend(a[1..], b);
    }
  }

  /** The events of a forest of four nodes, node by node. */
  lemma {:induction false} FlattenFour(a: Node, b: Node, c: Node, d: Node)
    ensures FlattenForest([a, b, c, d]) == Flatten(a) + Flatten(b) + Flatten(c) + Flatten(d)
  {
    FlattenForestSnoc([a, b, c], d);
    FlattenForestSnoc([a, b], c);
    FlattenForestSnoc([a], b);
    FlattenForestSnoc([], a);
    assert [] + [a] == [a] && [a] + [b] == [a, b] && [a, b] + [c] == [a, b, c] && [a, b, c] + [d] == [a, b, c, d];
  }

  method WritePosition(writer: XmlWriter, position: SimplePosition, format: real -> string)
    modifies writer
    ensures writer.events == old(writer.events) + Flatten(PositionElement(position, format))
  {
    var m1 := StringElement("Membre1", Name(position.joint1));
    var m2 := StringElement("Membre2", Name(position.joint2));
    var lo := StringElement("AngleMin", format(position.angleMin));
    var hi := StringElement("AngleMax", format(position.angleMax));
    ghost var e0 := writer.events;
    writer.WriteStartElement("Position");
    writer.WriteElementString("Membre1", Name(position.joint1));
    writer.WriteElementString("Membre2", Name(position.joint2));
    writer.WriteElementString("AngleMin", format(position.angleMin));
    writer.WriteElementString("AngleMax", format(position.angleMax));
    writer.WriteEndElement();
    assert writer.events == e0 + ([StartElement("Position")] + (Flatten(m1) + Flatten(m2) + Flatten(lo) + Flatten(hi)) + [EndElement]);
    FlattenFour(m1, m2, lo, hi);
  }

  /** The events of a forest of two nodes, node by node. */
  lemma {:induction false} FlattenTwo(a: Node, b: Node)
    ensures FlattenForest([a, b]) == Flatten(a) + Flatten(b)
  {
    FlattenForestSnoc([a], b);
    FlattenForestSnoc([], a);
    assert [] + [a] == [a] && [a] + [b] == [a, b];
  }

  /** Writing one more position extends the written positions by that position's events. */
  lemma PositionsStep(ps: seq<SimplePosition>, i: int, format: real -> string,
                  prefix: seq<XmlEvent>, before: seq<XmlEvent>, after: seq<XmlEvent>)
    requires 0 <= i < |ps|
    requires before == prefix + FlattenForest(PositionElements(ps[..i], format))
    requires after == before + Flatten(PositionElement(ps[i], format))
    ensures after == prefix + FlattenForest(PositionElements(ps[..i + 1], format))
  {
    PositionElementsSnoc(ps, i, format);
    EventsStep(prefix, before, after, PositionElements(ps[..i], format), PositionElement(ps[i], format),
               PositionElements(ps[..i + 1], format));
  }

  /** Writing one more node after a written forest gives the events of the longer forest. */
  lemma EventsStep(prefix: seq<XmlEvent>, before: seq<XmlEvent>, after: seq<XmlEvent>, done: seq<Node>, last: Node,
                   next: seq<Node>)
    requires next == done + [last]
    requires before == prefix + FlattenForest(done)
    requires after == before + Flatten(last)
    ensures after == prefix + FlattenForest(next)
  {
    FlattenForestSnoc(done, last);
  }

  /** The elements of one more position are those of the shorter list and the new one. */
  lemma PositionElementsSnoc(ps: seq<SimplePosition>, i: int, format: real -> string)
    requires 0 <= i < |ps|
    ensures PositionElements(ps[..i + 1], format) == PositionElements(ps[..i], format) + [PositionElement(ps[i], format)]
  {
    assert ps[..i + 1] == ps[..i] + [ps[i]];
    PositionElementsAppend(ps[..i], ps[i], format);
  }

  lemma {:induction false} PositionElementsAppend(ps: seq<SimplePosition>, p: SimplePosition, format: real -> string)
    ensures PositionElements(ps + [p], format) == PositionElements(ps, format) + [PositionElement(p, format)]
    decreases |ps|
  {
    if ps == [] {
      assert ps + [p] == [p];
    } else {
      assert (ps + [p])[0] == ps[0] && (ps + [p])[1..] == ps[1..] + [p];
      PositionElementsAppend(ps[1..], p, format);
    }
  }

  /** The events an element receives when its start tag, a forest, two more nodes and its end
      tag are written one after the other: the shape of a `rule` element. */
  lemma ElementEventsThenTwo(e0: seq<XmlEvent>, name: string, front: seq<Node>, a: Node, b: Node,
                             events: seq<XmlEvent>)
    requires events == e0 + [StartElement(name)] + FlattenForest(front) + Flatten(a) + Flatten(b) + [EndElement]
    ensures events == e0 + Flatten(Element(name, front + [a, b]))
  {
    FlattenForestAppend(front, [a, b]);
    FlattenTwo(a, b);
  }

  /** The same with the two nodes before the forest: the shape of the `ExerciseRule` root. */
  lemma ElementEventsTwoThen(e0: seq<XmlEvent>, name: string, a: Node, b: Node, back: seq<Node>,
                             events: seq<XmlEvent>)
    requires events == e0 + [StartElement(name)] + Flatten(a) + Flatten(b) + FlattenForest(back) + [EndElement]
    ensures events == e0 + Flatten(Element(name, [a, b] + back))
  {
    FlattenForestAppend([a, b], back);
    FlattenTwo(a, b);
  }

  /** WriteExerciseRule: a foreach over the positions, then the two rule fields. */
  method WriteExerciseRule(writer: XmlWriter, rule: ExerciseRule, format: real -> string)
    modifies writer
    ensures writer.events == old(writer.events) + Flatten(RuleElement(rule, format))
  {
    ghost var e0 := writer.events;
    writer.WriteStartElement("rule");
    WritePositions(writer, rule.positions, format);
    writer.WriteElementString("PositionTime", format(rule.positionTime));
    writer.WriteElementString("Description", rule.description);
    writer.WriteEndElement();
    ElementEventsThenTwo(e0, "rule", PositionElements(rule.positions, format),
                         StringElement("PositionTime", format(rule.positionTime)),
                         StringElement("Description", rule.description), writer.events);
  }

  /** The foreach of WriteExerciseRule: every position, in list order. */
  method WritePositions(writer: XmlWriter, ps: seq<SimplePosition>, format: real -> string)
    modifies writer
    ensures writer.events == old(writer.events) + FlattenForest(PositionElements(ps, format))
  {
    ghost var prefix := writer.events;
    for i := 0 to |ps|
      invariant writer.events == prefix + FlattenForest(PositionElements(ps[..i], format))
    {
      ghost var before := writer.events;
      WritePosition(writer, ps[i], format);
      PositionsStep(ps, i, format, prefix, before, writer.events);
    }
    assert ps[..|ps|] == ps;
  }

  /** Writing one more rule extends the written rules by that rule's events. */
  lemma RulesStep(rs: seq<ExerciseRule>, i: int, format: real -> string,
                  prefix: seq<XmlEvent>, before: seq<XmlEvent>, after: seq<XmlEvent>)
    requires 0 <= i < |rs|
    requires before == prefix + FlattenForest(RuleElements(rs[..i], format))
    requires after == before + Flatten(RuleElement(rs[i], format))
    ensures after == prefix + FlattenForest(RuleElements(rs[..i + 1], format))
  {
    assert rs[..i + 1] == rs[..i] + [rs[i]];
    RuleElementsAppend(rs[..i], [rs[i]], format);
    EventsStep(prefix, before, after, RuleElements(rs[..i], format), RuleElement(rs[i], format),
               RuleElements(rs[..i + 1], format));
  }

  lemma {:induction false} RuleElementsAppend(a: seq<ExerciseRule>, b: seq<ExerciseRule>, format: real -> string)
    ensures RuleElements(a + b, format) == RuleElements(a, format) + RuleElements(b, format)
    decreases |a|
  {
    if a == [] {
      assert a + b == b;
    } else {
      assert (a + b)[0] == a[0] && (a + b)[1..] == a[1..] + b;
      RuleElementsAppend(a[1..], b, format);
    }
  }

  /** WriteExerciseToFile. `exercise` is None for a null reference; `destinationWritable` says
      whether the write succeeds: every failure of the body (a file that cannot be created or
      written, a character XML cannot carry) reaches the same catch. On success the result is
      the content of the file; a failure carries no content, although the file may already have
      been created or truncated. */
  method WriteExerciseToFile(exercise: Option<ExerciseMultiPosition>, filePath: string, format: real -> string,
                             destinationWritable: bool)
    returns (r: Result<seq<XmlEvent>, WriteError>)
    ensures exercise.None? || filePath == "" <==> r == Failure(ArgumentNull(NullArgumentName))
    ensures exercise.Some? && filePath != "" && !destinationWritable ==> r == Failure(WriteFailed(WriteFailedMessage))
    ensures r.Success? <==> exercise.Some? && filePath != "" && destinationWritable
    ensures r.Success? ==> r.value == [Declaration] + Flatten(ExerciseDocument(exercise.value, format))
  {
    if exercise.None? || filePath == "" {
      return Failure(ArgumentNull(NullArgumentName));
    }
    if !destinationWritable {
      return Failure(WriteFailed(WriteFailedMessage));
    }
    var writer := new XmlWriter();
    writer.WriteStartDocument();
    WriteExerciseElement(writer, exercise.value, format);
    return Success(writer.events);
  }

  /** The body of WriteExerciseToFile's `using` block after the declaration: the root element
      with name, description and a foreach over the rules. */
  method WriteExerciseElement(writer: XmlWriter, e: ExerciseMultiPosition, format: real -> string)
    modifies writer
    ensures writer.events == old(writer.events) + Flatten(ExerciseDocument(e, format))
  {
    ghost var e0 := writer.events;
    writer.WriteStartElement("ExerciseRule");
    writer.WriteElementString("name", e.name);
    writer.WriteElementString("description", e.description);
    WriteRules(writer, e.rules, format);
    writer.WriteEndElement();
    ElementEventsTwoThen(e0, "ExerciseRule", StringElement("name", e.name),
                         StringElement("description", e.description), RuleElements(e.rules, format), writer.events);
  }

  /** The foreach of WriteExerciseToFile: every rule, in list order. */
  method WriteRules(writer: XmlWriter, rules: seq<ExerciseRule>, format: real -> string)
    modifies writer
    ensures writer.events == old(writer.events) + FlattenForest(RuleElements(rules, format))
  {
    ghost var prefix := writer.events;
    for i := 0 to |rules|
      invariant writer.events == prefix + FlattenForest(RuleElements(rules[..i], format))
    {
      ghost var before := writer.events;
      WriteExerciseRule(writer, rules[i], format);
      RulesStep(rules, i, format, prefix, before, writer.events);
    }
    assert rules[..|rules|] == rules;
  }
}
