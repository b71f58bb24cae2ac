/** ExercisesReaderXML: every `Position` element of the file, in document order, read into a
    flat list of positions; the first failure ends the walk and the positions read so far are
    returned. `Convert.ToDouble` is the parameter `toDouble`, None where it throws. */
module ExerciseReader {
  import opened Wrappers
  import opened Text
  import opened Joints
  import opened Exercises
  import opened Xml
  import opened ExerciseWriter

  /** A position as the reader returns it: the angle constraint with its dwell time and description. */
  datatype Position = Position(joint1: JointType, joint2: JointType, angleMin: real, angleMax: real,
                               positionTime: real, description: string)

  /** `node.SelectSingleNode(name).InnerText.Trim()`; None where the child is missing, which
      dereferences null. */
  function ChildText(n: Node, name: string): Option<string>
  {
    match SelectChild(n, name)
    case None => None
    case Some(c) => Some(Trim(InnerText(c)))
  }

  function ChildJoint(n: Node, name: string): Option<JointType>
  {
    match ChildText(n, name)
    case None => None
    case Some(t) => if ParseToJoint(t).Success? then Some(ParseToJoint(t).value) else None
  }

  function ChildNumber(n: Node, name: string, toDouble: string -> Option<real>): Option<real>
  {
    match ChildText(n, name)
    case None => None
    case Some(t) => toDouble(t)
  }

  /** The six fields: the joints and bounds from `positionNode`, the dwell time and the
      description from `fieldsNode`. */
  function ReadFields(positionNode: Node, fieldsNode: Node, toDouble: string -> Option<real>): Option<Position>
  {
    var j1 := ChildJoint(positionNode, "Membre1");
    var j2 := ChildJoint(positionNode, "Membre2");
    var lo := ChildNumber(positionNode, "AngleMin", toDouble);
    var hi := ChildNumber(positionNode, "AngleMax", toDouble);
    var time := ChildNumber(fieldsNode, "PositionTime", toDouble);
    var description := ChildText(fieldsNode, "Description");
    if j1.Some? && j2.Some? && lo.Some? && hi.Some? && time.Some? && description.Some? then
      Some(Position(j1.value, j2.value, lo.value, hi.value, time.value, description.value))
    else None
  }

  /** The body of the foreach: all six children are looked up under the Position element. */
  function ReadPosition(positionNode: Node, toDouble: string -> Option<real>): Option<Position>
  {
    ReadFields(positionNode, positionNode, toDouble)
  }

  /** The items read in order until the first that cannot be read: the result is the first k
      items read, and the item after them, if any, is the one that failed. */
  function ReadUntilFailure<T>(items: seq<T>, read: T -> Option<Position>): (r: seq<Position>)
    ensures |r| <= |items|
    ensures forall i :: 0 <= i < |r| ==> read(items[i]) == Some(r[i])
    ensures |r| < |items| ==> read(items[|r|]).None?
  {
    if items == [] then []
    else
      match read(items[0])
      case None => []
      case Some(p) => [p] + ReadUntilFailure(items[1..], read)
  }

  /** The result of ReadUntilFailure is determined by how many items read successfully. */
  lemma ReadUntilFailureExactly<T>(items: seq<T>, read: T -> Option<Position>, k: int)
    requires 0 <= k <= |items|
    requires forall i :: 0 <= i < k ==> read(items[i]).Some?
    requires k < |items| ==> read(items[k]).None?
    ensures |ReadUntilFailure(items, read)| == k
  {
  }

  /** ReadUntilFailure is the only list of readings that stops at the first item that fails:
      a list that reads a prefix of the items, and that stops either at the end or at an item
      that fails, is its result. */
  lemma {:induction false} ReadUntilFailureIs<T>(items: seq<T>, read: T -> Option<Position>, out: seq<Position>)
    requires |out| <= |items|
    requires forall k :: 0 <= k < |out| ==> read(items[k]) == Some(out[k])
    requires |out| < |items| ==> read(items[|out|]).None?
    ensures ReadUntilFailure(items, read) == out
    decreases |out|
  {
    if out == [] {
      if items != [] {
        assert read(items[0]).None?;
      }
    } else {
      assert forall k :: 0 <= k < |out| - 1 ==> items[1..][k] == items[k + 1] && out[1..][k] == out[k + 1];
      ReadUntilFailureIs(items[1..], read, out[1..]);
      assert read(items[0]) == Some(out[0]);
      assert out == [out[0]] + out[1..];
    }
  }

  /** The body of the foreach as a function value. */
  function PositionReader(toDouble: string -> Option<real>): Node -> Option<Position>
  {
    n => ReadPosition(n, toDouble)
  }

  /** ReadExerciseFile as a function of the file: None when it cannot be opened. */
  function ReadExercise(file: Option<seq<XmlEvent>>, toDouble: string -> Option<real>): seq<Position>
  {
    if file.None? then []
    else
      match Parse(file.value)
      case None => []
      case Some(root) => ReadUntilFailure(Descendants(root, "Position"), PositionReader(toDouble))
  }

  /** ReadExerciseFile: load, select `//Position`, and append each position read; the catch
      ends the loop and the list built so far is returned. */
  method ReadExerciseFile(file: Option<seq<XmlEvent>>, toDouble: string -> Option<real>) returns (positionList: seq<Position>)
    ensures positionList == ReadExercise(file, toDouble)
  {
    positionList := [];
    if file.None? {
      return;
    }
    var document := Parse(file.value);
    if document.None? {
      return;
    }
    var positionNodes := Descendants(document.value, "Position");
    positionList := ReadPositionNodes(positionNodes, PositionReader(toDouble));
  }

  /** The foreach over the selected nodes: `read` is its body (ReadExerciseFile passes
      PositionReader, i.e. ReadPosition); the first node that fails ends the loop. */
  method ReadPositionNodes(positionNodes: seq<Node>, read: Node -> Option<Position>) returns (positionList: seq<Position>)
    ensures positionList == ReadUntilFailure(positionNodes, read)
  {
    positionList := [];
    var i := 0;
    while i < |positionNodes|
      invariant 0 <= i <= |positionNodes| && |positionList| == i
      invariant forall k :: 0 <= k < i ==> read(positionNodes[k]) == Some(positionList[k])
    {
      var myPosition := read(positionNodes[i]);
      if myPosition.None? {
        ReadUntilFailureIs(positionNodes, read, positionList);
        return;
      }
      positionList := positionList + [myPosition.value];
      i := i + 1;
    }
    ReadUntilFailureIs(positionNodes, read, positionList);
  }

  /** An unknown joint name, first or second, in the k-th Position element of a file (counting from 0) leaves
      exactly the first k positions, provided those read. */
  lemma UnknownJointKeepsPrefix(file: seq<XmlEvent>, root: Node, toDouble: string -> Option<real>, k: int, name: string)
    requires Parse(file) == Some(root)
    requires var nodes := Descendants(root, "Position");
      0 <= k < |nodes| && (forall i :: 0 <= i < k ==> ReadPosition(nodes[i], toDouble).Some?)
      && (ChildText(nodes[k], "Membre1") == Some(name) || ChildText(nodes[k], "Membre2") == Some(name))
      && ParseToJoint(name).Failure?
    ensures var nodes := Descendants(root, "Position");
      var r := ReadExercise(Some(file), toDouble);
      |r| == k && forall i :: 0 <= i < k ==> Some(r[i]) == ReadPosition(nodes[i], toDouble)
  {
    ReadParsedFile(file, root, toDouble);
    UnknownJointStopsWalk(Descendants(root, "Position"), toDouble, k, name);
  }

  /** A file that loads is read as the walk over its Position elements, or over its rules. */
  lemma ReadParsedFile(file: seq<XmlEvent>, root: Node, toDouble: string -> Option<real>)
    requires Parse(file) == Some(root)
    ensures ReadExercise(Some(file), toDouble) == ReadUntilFailure(Descendants(root, "Position"), PositionReader(toDouble))
    ensures ReadExerciseByRule(Some(file), toDouble)
         == ReadUntilFailure(RulePositionPairs(Descendants(root, "rule")), PairReader(toDouble))
  {
  }

  /** The walk over the selected nodes stops at the k-th, whose joint name is unknown. */
  lemma UnknownJointStopsWalk(nodes: seq<Node>, toDouble: string -> Option<real>, k: int, name: string)
    requires 0 <= k < |nodes| && (forall i :: 0 <= i < k ==> ReadPosition(nodes[i], toDouble).Some?)
    requires ChildText(nodes[k], "Membre1") == Some(name) || ChildText(nodes[k], "Membre2") == Some(name)
    requires ParseToJoint(name).Failure?
    ensures var r := ReadUntilFailure(nodes, PositionReader(toDouble));
      |r| == k && forall i :: 0 <= i < k ==> Some(r[i]) == ReadPosition(nodes[i], toDouble)
  {
    UnknownJointUnreadable(nodes[k], toDouble, name);
    ReadUntilFailureExactly(nodes, PositionReader(toDouble), k);
  }

  /** A Position element whose first or second joint is not a known name cannot be read. */
  lemma UnknownJointUnreadable(n: Node, toDouble: string -> Option<real>, name: string)
    requires ChildText(n, "Membre1") == Some(name) || ChildText(n, "Membre2") == Some(name)
    requires ParseToJoint(name).Failure?
    ensures PositionReader(toDouble)(n).None?
  {
    if ChildText(n, "Membre1") == Some(name) {
      UnknownChildJoint(n, "Membre1", name);
    } else {
      UnknownChildJoint(n, "Membre2", name);
    }
  }

  /** A child whose text is not a known joint name gives no joint. */
  lemma UnknownChildJoint(n: Node, tag: string, name: string)
    requires ChildText(n, tag) == Some(name) && ParseToJoint(name).Failure?
    ensures ChildJoint(n, tag).None?
  {
  }

  /** The Position elements of the written document, rule after rule. */
  function WrittenPositions(rs: seq<ExerciseRule>, format: real -> string): seq<Node>
  {
    if rs == [] then [] else PositionElements(rs[0].positions, format) + WrittenPositions(rs[1..], format)
  }

  /** A string element has no element inside it. */
  lemma {:induction false} StringElementHasNoElements(tag: string, value: string, name: string)
    requires tag != name
    ensures Descendants(StringElement(tag, value), name) == []
  {
    assert DescendantsForest([Text(value)], name) == Descendants(Text(value), name) + DescendantsForest([], name);
  }

  /** A forest whose nodes hold no match holds none. */
  lemma {:induction false} NoMatchesInForest(ns: seq<Node>, name: string)
    requires forall i :: 0 <= i < |ns| ==> Descendants(ns[i], name) == []
    ensures DescendantsForest(ns, name) == []
    decreases |ns|
  {
    if ns != [] {
      NoMatchesInForest(ns[1..], name);
    }
  }

  lemma {:induction false} PositionElementMatches(p: SimplePosition, format: real -> string)
    ensures Descendants(PositionElement(p, format), "Position") == [PositionElement(p, format)]
  {
    var kids := PositionElement(p, format).children;
    StringElementHasNoElements("Membre1", Name(p.joint1), "Position");
    StringElementHasNoElements("Membre2", Name(p.joint2), "Position");
    StringElementHasNoElements("AngleMin", format(p.angleMin), "Position");
    StringElementHasNoElements("AngleMax", format(p.angleMax), "Position");
    NoMatchesInForest(kids, "Position");
  }

  lemma {:induction false} PositionElementsMatch(ps: seq<SimplePosition>, format: real -> string)
    ensures DescendantsForest(PositionElements(ps, format), "Position") == PositionElements(ps, format)
    decreases |ps|
  {
    if ps != [] {
      var es := PositionElements(ps, format);
      assert es[1..] == PositionElements(ps[1..], format);
      PositionElementMatches(ps[0], format);
      PositionElementsMatch(ps[1..], format);
      assert es == [es[0]] + es[1..];
    }
  }

  /** The Position elements of a rule element are its positions' elements. */
  lemma {:induction false} RulePositionNodes(r: ExerciseRule, format: real -> string)
    ensures DescendantsForest(RuleElement(r, format).children, "Position") == PositionElements(r.positions, format)
  {
    var t := StringElement("PositionTime", format(r.positionTime));
    var d := StringElement("Description", r.description);
    DescendantsAppend(PositionElements(r.positions, format), [t, d], "Position");
    PositionElementsMatch(r.positions, format);
    StringElementHasNoElements("PositionTime", format(r.positionTime), "Position");
    StringElementHasNoElements("Description", r.description, "Position");
    assert [t, d][1..] == [d];
    assert DescendantsForest([d], "Position") == Descendants(d, "Position") + DescendantsForest([], "Position");
  }

  lemma {:induction false} RuleElementsMatch(rs: seq<ExerciseRule>, format: real -> string)
    ensures DescendantsForest(RuleElements(rs, format), "Position") == WrittenPositions(rs, format)
    decreases |rs|
  {
    if rs != [] {
      var es := RuleElements(rs, format);
      assert es[0] == RuleElement(rs[0], format) && es[1..] == RuleElements(rs[1..], format);
      RulePositionNodes(rs[0], format);
      assert Descendants(es[0], "Position") == PositionElements(rs[0].positions, format);
      RuleElementsMatch(rs[1..], format);
      assert DescendantsForest(es, "Position") == Descendants(es[0], "Position") + DescendantsForest(es[1..], "Position");
    }
  }

  /** The `//Position` walk over a written document visits exactly the written positions, in
      the order of the rules and, within a rule, of its positions. */
  lemma {:induction false} WrittenDocumentPositions(e: ExerciseMultiPosition, format: real -> string)
    ensures Descendants(ExerciseDocument(e, format), "Position") == WrittenPositions(e.rules, format)
  {
    var n := StringElement("name", e.name);
    var d := StringElement("description", e.description);
    DescendantsAppend([n, d], RuleElements(e.rules, format), "Position");
    StringElementHasNoElements("name", e.name, "Position");
    StringElementHasNoElements("description", e.description, "Position");
    assert [n, d][1..] == [d];
    assert DescendantsForest([d], "Position") == Descendants(d, "Position") + DescendantsForest([], "Position");
    RuleElementsMatch(e.rules, format);
  }

  /** A written Position element holds no PositionTime child, so it cannot be read. */
  lemma PositionElementUnreadable(p: SimplePosition, format: real -> string, toDouble: string -> Option<real>)
    ensures ReadPosition(PositionElement(p, format), toDouble).None?
  {
    var kids := PositionElement(p, format).children;
    assert forall c :: c in kids ==> !(c.Element? && c.name == "PositionTime");
  }

  lemma {:induction false} WrittenPositionsUnreadable(rs: seq<ExerciseRule>, format: real -> string, toDouble: string -> Option<real>)
    requires WrittenPositions(rs, format) != []
    ensures ReadPosition(WrittenPositions(rs, format)[0], toDouble).None?
    decreases |rs|
  {
    if rs[0].positions != [] {
      PositionElementUnreadable(rs[0].positions[0], format, toDouble);
    } else {
      assert WrittenPositions(rs, format) == WrittenPositions(rs[1..], format);
      WrittenPositionsUnreadable(rs[1..], format, toDouble);
    }
  }

  /** What the writer writes, the reader reads as nothing: as soon as the exercise has a
      position, the file written for it reads back as an empty list, whatever the numbers. */
  lemma WrittenFileReadsEmpty(e: ExerciseMultiPosition, format: real -> string, toDouble: string -> Option<real>)
    requires exists i :: 0 <= i < |e.rules| && e.rules[i].positions != []
    ensures ReadExercise(Some([Declaration] + Flatten(ExerciseDocument(e, format))), toDouble) == []
  {
    LoadWritten(ExerciseDocument(e, format));
    ReadParsedFile([Declaration] + Flatten(ExerciseDocument(e, format)), ExerciseDocument(e, format), toDouble);
    WrittenDocumentPositions(e, format);
    var i :| 0 <= i < |e.rules| && e.rules[i].positions != [];
    WrittenPositionsNonEmpty(e.rules, format, i);
    WrittenPositionsUnreadable(e.rules, format, toDouble);
  }

  lemma {:induction false} WrittenPositionsNonEmpty(rs: seq<ExerciseRule>, format: real -> string, i: int)
    requires 0 <= i < |rs| && rs[i].positions != []
    ensures WrittenPositions(rs, format) != []
    decreases |rs|
  {
    if i > 0 && rs[0].positions == [] {
      WrittenPositionsNonEmpty(rs[1..], format, i - 1);
    }
  }

  /** The reader as the writer's document shape calls for: every Position element inside a
      `rule` element, paired with that rule, whose PositionTime and Description it takes. */
  function RulePositionPairs(rules: seq<Node>): seq<(Node, Node)>
  {
    if rules == [] then [] else RulePairs(rules[0]) + RulePositionPairs(rules[1..])
  }

  /** The Position elements inside one rule element, each paired with the rule. */
  function RulePairs(rule: Node): (pairs: seq<(Node, Node)>)
    ensures |pairs| == |Descendants(rule, "Position")|
    ensures forall i :: 0 <= i < |pairs| ==> pairs[i] == (Descendants(rule, "Position")[i], rule)
  {
    var ps := Descendants(rule, "Position");
    seq(|ps|, i requires 0 <= i < |ps| => (ps[i], rule))
  }

  function PairReader(toDouble: string -> Option<real>): ((Node, Node)) -> Option<Position>
  {
    (pair: (Node, Node)) => ReadFields(pair.0, pair.1, toDouble)
  }

  /** The corrected ReadExerciseFile, with the same error handling. */
  function ReadExerciseByRule(file: Option<seq<XmlEvent>>, toDouble: string -> Option<real>): seq<Position>
  {
    if file.None? then []
    else
      match Parse(file.value)
      case None => []
      case Some(root) => ReadUntilFailure(RulePositionPairs(Descendants(root, "rule")), PairReader(toDouble))
  }

  /** The positions of an exercise as a flat list, each with its rule's dwell time and its
      rule's description as the reader returns it, trimmed. */
  function RulePositions(r: ExerciseRule): (ps: seq<Position>)
    ensures |ps| == |r.positions|
  {
    seq(|r.positions|, i requires 0 <= i < |r.positions| =>
      Position(r.positions[i].joint1, r.positions[i].joint2, r.positions[i].angleMin, r.positions[i].angleMax,
               r.positionTime, Trim(r.description)))
  }

  function Flattened(rs: seq<ExerciseRule>): seq<Position>
  {
    if rs == [] then [] else RulePositions(rs[0]) + Flattened(rs[1..])
  }

  /** An item that cannot be read ends the walk there. */
  lemma ReadStops<T>(x: T, rest: seq<T>, read: T -> Option<Position>)
    requires read(x).None?
    ensures ReadUntilFailure([x] + rest, read) == []
  {
    assert ([x] + rest)[0] == x;
  }

  /** An item that reads is followed by the walk over the rest. */
  lemma ReadCons<T>(x: T, rest: seq<T>, read: T -> Option<Position>, p: Position)
    requires read(x) == Some(p)
    ensures ReadUntilFailure([x] + rest, read) == [p] + ReadUntilFailure(rest, read)
  {
    assert ([x] + rest)[1..] == rest;
  }

  /** Items that all read are read in full, and the walk goes on into what follows them. */
  lemma {:induction false} ReadPrefixAllSucceed<T>(a: seq<T>, b: seq<T>, read: T -> Option<Position>, out: seq<Position>)
    requires |a| == |out| && forall i :: 0 <= i < |a| ==> read(a[i]) == Some(out[i])
    ensures ReadUntilFailure(a + b, read) == out + ReadUntilFailure(b, read)
    decreases |a|
  {
    if a == [] {
      assert a + b == b;
    } else {
      calc {
        ReadUntilFailure(a + b, read);
        { assert a + b == [a[0]] + (a[1..] + b); }
        ReadUntilFailure([a[0]] + (a[1..] + b), read);
        { ReadCons(a[0], a[1..] + b, read, out[0]); }
        [out[0]] + ReadUntilFailure(a[1..] + b, read);
        { ReadPrefixAllSucceed(a[1..], b, read, out[1..]); }
        [out[0]] + (out[1..] + ReadUntilFailure(b, read));
        { assert out == [out[0]] + out[1..]; }
        out + ReadUntilFailure(b, read);
      }
    }
  }

  /** The first element of a name is found past siblings that carry another name. */
  lemma {:induction false} FirstNamedSkips(a: seq<Node>, b: seq<Node>, name: string)
    requires forall i :: 0 <= i < |a| ==> a[i].Element? && a[i].name != name
    ensures FirstNamed(a + b, name) == FirstNamed(b, name)
    decreases |a|
  {
    if a == [] {
      assert a + b == b;
    } else {
      assert (a + b)[0] == a[0] && (a + b)[1..] == a[1..] + b;
      FirstNamedSkips(a[1..], b, name);
    }
  }

  /** Enumeration names carry no white space at either end. */
  lemma NameIsTrimmed(j: JointType)
    ensures Trim(Name(j)) == Name(j)
  {
    assert IsTrimmed(Name(j)) by {
      match j
      case SpineBase => case SpineMid => case Neck => case Head =>
      case ShoulderLeft => case ElbowLeft => case WristLeft => case HandLeft =>
      case ShoulderRight => case ElbowRight => case WristRight => case HandRight =>
      case HipLeft => case KneeLeft => case AnkleLeft => case FootLeft =>
      case HipRight => case KneeRight => case AnkleRight => case FootRight =>
      case SpineShoulder => case HandTipLeft => case ThumbLeft => case HandTipRight => case ThumbRight =>
    }
    TrimIdentity(Name(j));
  }

  /** `toDouble` reads back the number `format` printed for `x`. ToString() keeps a limited
      number of digits and both calls depend on the culture, so this is a property of the
      number written, not of the pair of functions. */
  predicate ReadsBack(x: real, format: real -> string, toDouble: string -> Option<real>)
  {
    toDouble(Trim(format(x))) == Some(x)
  }

  /** Every number written for a rule reads back: its dwell time and both bounds of each of
      its positions. */
  predicate RuleNumbersReadBack(r: ExerciseRule, format: real -> string, toDouble: string -> Option<real>)
  {
    ReadsBack(r.positionTime, format, toDouble)
    && forall p :: p in r.positions ==> ReadsBack(p.angleMin, format, toDouble) && ReadsBack(p.angleMax, format, toDouble)
  }

  /** Every rule in `rs` can be read back, numbers included. */
  predicate RulesReadBack(rs: seq<ExerciseRule>, format: real -> string, toDouble: string -> Option<real>)
  {
    forall r :: r in rs ==> ReadableRule(r) && RuleNumbersReadBack(r, format, toDouble)
  }

  /** What a written rule needs for its joints to read back: each is one the lookup knows. */
  predicate ReadableRule(r: ExerciseRule)
  {
    forall p :: p in r.positions ==> Parsable(p.joint1) && Parsable(p.joint2)
  }

  /** Reading back one written field: a joint, a number, a text. */
  lemma ReadJointField(n: Node, tag: string, j: JointType)
    requires SelectChild(n, tag) == Some(StringElement(tag, Name(j))) && Parsable(j)
    ensures ChildJoint(n, tag) == Some(j)
  {
    StringElementText(tag, Name(j));
    NameIsTrimmed(j);
    ParseName(j);
  }

  lemma ReadNumberField(n: Node, tag: string, x: real, format: real -> string, toDouble: string -> Option<real>)
    requires SelectChild(n, tag) == Some(StringElement(tag, format(x))) && toDouble(Trim(format(x))) == Some(x)
    ensures ChildNumber(n, tag, toDouble) == Some(x)
  {
    StringElementText(tag, format(x));
  }

  lemma ReadTextField(n: Node, tag: string, s: string)
    requires SelectChild(n, tag) == Some(StringElement(tag, s))
    ensures ChildText(n, tag) == Some(Trim(s))
  {
    StringElementText(tag, s);
  }

  /** The four fields of a written Position element read back. */
  lemma {:induction false} ReadPositionFields(p: SimplePosition, format: real -> string, toDouble: string -> Option<real>)
    requires Parsable(p.joint1) && Parsable(p.joint2)
    requires toDouble(Trim(format(p.angleMin))) == Some(p.angleMin) && toDouble(Trim(format(p.angleMax))) == Some(p.angleMax)
    ensures var pe := PositionElement(p, format);
      ChildJoint(pe, "Membre1") == Some(p.joint1) && ChildJoint(pe, "Membre2") == Some(p.joint2)
      && ChildNumber(pe, "AngleMin", toDouble) == Some(p.angleMin) && ChildNumber(pe, "AngleMax", toDouble) == Some(p.angleMax)
  {
    var pe := PositionElement(p, format);
    PositionChildren(Name(p.joint1), Name(p.joint2), format(p.angleMin), format(p.angleMax));
    ReadJointField(pe, "Membre1", p.joint1);
    ReadJointField(pe, "Membre2", p.joint2);
    ReadNumberField(pe, "AngleMin", p.angleMin, format, toDouble);
    ReadNumberField(pe, "AngleMax", p.angleMax, format, toDouble);
  }

  /** Each field of a Position element is found under its own tag. */
  lemma PositionChildren(m1: string, m2: string, lo: string, hi: string)
    ensures var pe := Element("Position", [StringElement("Membre1", m1), StringElement("Membre2", m2),
                                          StringElement("AngleMin", lo), StringElement("AngleMax", hi)]);
      SelectChild(pe, "Membre1") == Some(StringElement("Membre1", m1))
      && SelectChild(pe, "Membre2") == Some(StringElement("Membre2", m2))
      && SelectChild(pe, "AngleMin") == Some(StringElement("AngleMin", lo))
      && SelectChild(pe, "AngleMax") == Some(StringElement("AngleMax", hi))
  {
    var kids := [StringElement("Membre1", m1), StringElement("Membre2", m2), StringElement("AngleMin", lo), StringElement("AngleMax", hi)];
    assert kids[1..] == [kids[1], kids[2], kids[3]] && kids[1..][1..] == [kids[2], kids[3]] && kids[1..][1..][1..] == [kids[3]];
  }

  /** The two rule fields of a written rule element are found past its Position elements. */
  lemma RuleFieldChildren(r: ExerciseRule, format: real -> string)
    ensures SelectChild(RuleElement(r, format), "PositionTime") == Some(StringElement("PositionTime", format(r.positionTime)))
    ensures SelectChild(RuleElement(r, format), "Description") == Some(StringElement("Description", r.description))
  {
    var t := StringElement("PositionTime", format(r.positionTime));
    var d := StringElement("Description", r.description);
    var pes := PositionElements(r.positions, format);
    assert RuleElement(r, format).children == pes + [t, d];
    FieldPastPositions(pes, [t, d], "PositionTime");
    FieldPastPositions(pes, [t, d], "Description");
    assert [t, d][1..] == [d];
  }

  /** A field element is found past the Position elements that precede it. */
  lemma FieldPastPositions(pes: seq<Node>, rest: seq<Node>, name: string)
    requires forall i :: 0 <= i < |pes| ==> pes[i].Element? && pes[i].name == "Position"
    requires name != "Position"
    ensures FirstNamed(pes + rest, name) == FirstNamed(rest, name)
  {
    FirstNamedSkips(pes, rest, name);
  }

  /** The two rule fields of a written rule element read back. */
  lemma ReadRuleFields(r: ExerciseRule, format: real -> string, toDouble: string -> Option<real>)
    requires toDouble(Trim(format(r.positionTime))) == Some(r.positionTime)
    ensures ChildNumber(RuleElement(r, format), "PositionTime", toDouble) == Some(r.positionTime)
    ensures ChildText(RuleElement(r, format), "Description") == Some(Trim(r.description))
  {
    RuleFieldChildren(r, format);
    ReadNumberField(RuleElement(r, format), "PositionTime", r.positionTime, format, toDouble);
    ReadTextField(RuleElement(r, format), "Description", r.description);
  }

  /** One written position read inside its written rule gives the position back. */
  lemma {:induction false} ReadWrittenPosition(r: ExerciseRule, i: int, format: real -> string, toDouble: string -> Option<real>)
    requires 0 <= i < |r.positions| && ReadableRule(r) && RuleNumbersReadBack(r, format, toDouble)
    ensures ReadFields(PositionElement(r.positions[i], format), RuleElement(r, format), toDouble) == Some(RulePositions(r)[i])
  {
    var p := r.positions[i];
    assert Parsable(p.joint1) && Parsable(p.joint2) && ReadsBack(p.angleMin, format, toDouble)
           && ReadsBack(p.angleMax, format, toDouble) by {
      assert p in r.positions;
    }
    ReadPositionFields(p, format, toDouble);
    ReadRuleFields(r, format, toDouble);
    ReadFieldsOf(PositionElement(p, format), RuleElement(r, format), toDouble, RulePositions(r)[i]);
  }

  /** ReadFields succeeds with the six values its lookups give. */
  lemma ReadFieldsOf(positionNode: Node, fieldsNode: Node, toDouble: string -> Option<real>, pos: Position)
    requires ChildJoint(positionNode, "Membre1") == Some(pos.joint1) && ChildJoint(positionNode, "Membre2") == Some(pos.joint2)
    requires ChildNumber(positionNode, "AngleMin", toDouble) == Some(pos.angleMin)
    requires ChildNumber(positionNode, "AngleMax", toDouble) == Some(pos.angleMax)
    requires ChildNumber(fieldsNode, "PositionTime", toDouble) == Some(pos.positionTime)
    requires ChildText(fieldsNode, "Description") == Some(pos.description)
    ensures ReadFields(positionNode, fieldsNode, toDouble) == Some(pos)
  {
  }

  /** No element of another name sits inside a written Position element. */
  lemma {:induction false} PositionElementHolds(p: SimplePosition, format: real -> string, name: string)
    requires name != "Position" && name != "Membre1" && name != "Membre2" && name != "AngleMin" && name != "AngleMax"
    ensures Descendants(PositionElement(p, format), name) == []
  {
    StringElementHasNoElements("Membre1", Name(p.joint1), name);
    StringElementHasNoElements("Membre2", Name(p.joint2), name);
    StringElementHasNoElements("AngleMin", format(p.angleMin), name);
    StringElementHasNoElements("AngleMax", format(p.angleMax), name);
    NoMatchesInForest(PositionElement(p, format).children, name);
  }

  /** A written rule element is the only `rule` element in itself. */
  lemma {:induction false} RuleElementMatches(r: ExerciseRule, format: real -> string)
    ensures Descendants(RuleElement(r, format), "rule") == [RuleElement(r, format)]
  {
    var t := StringElement("PositionTime", format(r.positionTime));
    var d := StringElement("Description", r.description);
    var kids := PositionElements(r.positions, format) + [t, d];
    forall i | 0 <= i < |kids| ensures Descendants(kids[i], "rule") == [] {
      if i < |r.positions| {
        PositionElementHolds(r.positions[i], format, "rule");
      } else {
        StringElementHasNoElements(kids[i].name, kids[i].children[0].value, "rule");
      }
    }
    NoMatchesInForest(kids, "rule");
  }

  lemma {:induction false} RuleElementsAreTheRules(rs: seq<ExerciseRule>, format: real -> string)
    ensures DescendantsForest(RuleElements(rs, format), "rule") == RuleElements(rs, format)
    decreases |rs|
  {
    if rs != [] {
      var es := RuleElements(rs, format);
      assert es[1..] == RuleElements(rs[1..], format);
      RuleElementMatches(rs[0], format);
      RuleElementsAreTheRules(rs[1..], format);
      assert es == [es[0]] + es[1..];
    }
  }

  /** The `//rule` walk over a written document visits exactly the written rules, in order. */
  lemma {:induction false} WrittenDocumentRules(e: ExerciseMultiPosition, format: real -> string)
    ensures Descendants(ExerciseDocument(e, format), "rule") == RuleElements(e.rules, format)
  {
    var n := StringElement("name", e.name);
    var d := StringElement("description", e.description);
    DescendantsAppend([n, d], RuleElements(e.rules, format), "rule");
    StringElementHasNoElements("name", e.name, "rule");
    StringElementHasNoElements("description", e.description, "rule");
    NoMatchesInForest([n, d], "rule");
    RuleElementsAreTheRules(e.rules, format);
  }

  /** The positions of one written rule are read in full, and the walk goes on past them. */
  lemma {:induction false} ReadWrittenRule(r: ExerciseRule, rest: seq<(Node, Node)>, format: real -> string,
                                           toDouble: string -> Option<real>)
    requires ReadableRule(r) && RuleNumbersReadBack(r, format, toDouble)
    ensures ReadUntilFailure(RulePairs(RuleElement(r, format)) + rest, PairReader(toDouble))
         == RulePositions(r) + ReadUntilFailure(rest, PairReader(toDouble))
  {
    var pairs := RulePairs(RuleElement(r, format));
    RulePositionNodes(r, format);
    assert Descendants(RuleElement(r, format), "Position") == PositionElements(r.positions, format);
    forall i | 0 <= i < |pairs| ensures PairReader(toDouble)(pairs[i]) == Some(RulePositions(r)[i]) {
      ReadWrittenPosition(r, i, format, toDouble);
    }
    ReadPrefixAllSucceed(pairs, rest, PairReader(toDouble), RulePositions(r));
  }

  /** The written rules, read rule by rule, give the exercise's positions in order. */
  lemma {:induction false} ReadWrittenRules(rs: seq<ExerciseRule>, format: real -> string, toDouble: string -> Option<real>)
    requires RulesReadBack(rs, format, toDouble)
    ensures ReadUntilFailure(RulePositionPairs(RuleElements(rs, format)), PairReader(toDouble)) == Flattened(rs)
    decreases |rs|
  {
    if rs != [] {
      var es := RuleElements(rs, format);
      assert es[1..] == RuleElements(rs[1..], format);
      calc {
        ReadUntilFailure(RulePositionPairs(es), PairReader(toDouble));
        ReadUntilFailure(RulePairs(RuleElement(rs[0], format)) + RulePositionPairs(es[1..]), PairReader(toDouble));
        { assert rs[0] in rs;
          ReadWrittenRule(rs[0], RulePositionPairs(es[1..]), format, toDouble); }
        RulePositions(rs[0]) + ReadUntilFailure(RulePositionPairs(es[1..]), PairReader(toDouble));
        { ReadWrittenRules(rs[1..], format, toDouble); }
        RulePositions(rs[0]) + Flattened(rs[1..]);
      }
    }
  }

  /** The corrected reader completes the round trip: the file written for an exercise reads
      back as the exercise's positions, each with its rule's dwell time and its rule's description
      trimmed, as the reader trims every text it reads. */
  lemma WrittenFileRoundTrip(e: ExerciseMultiPosition, format: real -> string, toDouble: string -> Option<real>)
    requires RulesReadBack(e.rules, format, toDouble)
    ensures ReadExerciseByRule(Some([Declaration] + Flatten(ExerciseDocument(e, format))), toDouble) == Flattened(e.rules)
  {
    LoadWritten(ExerciseDocument(e, format));
    ReadParsedFile([Declaration] + Flatten(ExerciseDocument(e, format)), ExerciseDocument(e, format), toDouble);
    WrittenDocumentRules(e, format);
    ReadWrittenRules(e.rules, format, toDouble);
  }

  /** Rule elements whose first was written for a rule with positions and a dwell time that
      does not read back end the corrected reader's walk at once: the first position's
      PositionTime lookup throws. */
  lemma FirstRuleStops(es: seq<Node>, r: ExerciseRule, format: real -> string, toDouble: string -> Option<real>)
    requires es != [] && es[0] == RuleElement(r, format)
    requires r.positions != [] && toDouble(Trim(format(r.positionTime))).None?
    ensures ReadUntilFailure(RulePositionPairs(es), PairReader(toDouble)) == []
  {
    RulePositionPairsCons(es);
    var pairs := RulePairs(es[0]);
    RulePairsCount(r, format);
    RuleTimeField(r, format, toDouble);
    ReadFieldsNeedsTime(pairs[0].0, es[0], toDouble);
    ReadStopsAtFirst(pairs, RulePositionPairs(es[1..]), PairReader(toDouble));
  }

  /** Items whose first cannot be read end the walk at once, whatever follows them. */
  lemma ReadStopsAtFirst<T>(xs: seq<T>, rest: seq<T>, read: T -> Option<Position>)
    requires xs != [] && read(xs[0]).None?
    ensures ReadUntilFailure(xs + rest, read) == []
  {
    assert (xs + rest)[0] == xs[0];
  }

  /** A written rule element pairs each of its positions with itself. */
  lemma RulePairsCount(r: ExerciseRule, format: real -> string)
    ensures |RulePairs(RuleElement(r, format))| == |r.positions|
  {
    RulePositionNodes(r, format);
    assert Descendants(RuleElement(r, format), "Position") == PositionElements(r.positions, format);
  }

  /** The dwell time of a written rule element is read as `toDouble` reads the printed number. */
  lemma RuleTimeField(r: ExerciseRule, format: real -> string, toDouble: string -> Option<real>)
    ensures ChildNumber(RuleElement(r, format), "PositionTime", toDouble) == toDouble(Trim(format(r.positionTime)))
  {
    RuleFieldChildren(r, format);
    StringElementText("PositionTime", format(r.positionTime));
  }

  /** ReadFields fails when the dwell time cannot be read. */
  lemma ReadFieldsNeedsTime(positionNode: Node, fieldsNode: Node, toDouble: string -> Option<real>)
    requires ChildNumber(fieldsNode, "PositionTime", toDouble).None?
    ensures ReadFields(positionNode, fieldsNode, toDouble).None?
  {
  }

  /** Rules whose numbers read back are read in full, up to the first rule with positions whose
      dwell time does not read back, where the walk stops. */
  lemma ReadWrittenRulesUntil(rs: seq<ExerciseRule>, k: int, format: real -> string, toDouble: string -> Option<real>)
    requires 0 <= k < |rs| && RulesReadBack(rs[..k], format, toDouble)
    requires rs[k].positions != [] && toDouble(Trim(format(rs[k].positionTime))).None?
    ensures ReadUntilFailure(RulePositionPairs(RuleElements(rs, format)), PairReader(toDouble)) == Flattened(rs[..k])
  {
    var before, after := rs[..k], rs[k..];
    var read := PairReader(toDouble);
    var a := RulePositionPairs(RuleElements(before, format));
    var b := RulePositionPairs(RuleElements(after, format));
    SplitAt(rs, k);
    RuleElementsAppend(before, after, format);
    RulePositionPairsAppend(RuleElements(before, format), RuleElements(after, format));
    ReadWrittenRules(before, format, toDouble);
    WrittenPairsCount(before, format);
    ReadPrefixAllSucceed(a, b, read, Flattened(before));
    FirstRuleStops(RuleElements(after, format), rs[k], format, toDouble);
  }

  lemma RulePositionPairsCons(rules: seq<Node>)
    requires rules != []
    ensures RulePositionPairs(rules) == RulePairs(rules[0]) + RulePositionPairs(rules[1..])
  {
  }

  lemma SplitAt<T>(s: seq<T>, k: int)
    requires 0 <= k <= |s|
    ensures s == s[..k] + s[k..]
  {
  }

  lemma {:induction false} RulePositionPairsAppend(x: seq<Node>, y: seq<Node>)
    ensures RulePositionPairs(x + y) == RulePositionPairs(x) + RulePositionPairs(y)
    decreases |x|
  {
    if x == [] {
      assert x + y == y;
    } else {
      assert (x + y)[0] == x[0] && (x + y)[1..] == x[1..] + y;
      RulePositionPairsAppend(x[1..], y);
    }
  }

  /** The written rules hold one Position element per position. */
  lemma {:induction false} WrittenPairsCount(rs: seq<ExerciseRule>, format: real -> string)
    ensures |RulePositionPairs(RuleElements(rs, format))| == |Flattened(rs)|
    decreases |rs|
  {
    if rs != [] {
      var es := RuleElements(rs, format);
      assert es[1..] == RuleElements(rs[1..], format);
      RulePairsCount(rs[0], format);
      WrittenPairsCount(rs[1..], format);
    }
  }

  /** A written file whose k-th rule has positions and a dwell time that does not read back
      reads back, through the corrected reader, as the positions of the rules before it. */
  lemma WrittenFileStopsAtUnreadableTime(e: ExerciseMultiPosition, k: int, format: real -> string,
                                         toDouble: string -> Option<real>)
    requires 0 <= k < |e.rules| && RulesReadBack(e.rules[..k], format, toDouble)
    requires e.rules[k].positions != [] && toDouble(Trim(format(e.rules[k].positionTime))).None?
    ensures ReadExerciseByRule(Some([Declaration] + Flatten(ExerciseDocument(e, format))), toDouble) == Flattened(e.rules[..k])
  {
    LoadWritten(ExerciseDocument(e, format));
    ReadParsedFile([Declaration] + Flatten(ExerciseDocument(e, format)), ExerciseDocument(e, format), toDouble);
    WrittenDocumentRules(e, format);
    ReadWrittenRulesUntil(e.rules, k, format, toDouble);
  }
}
