/** The slice of XML the exercise files use: elements with children and text nodes, the event
    stream an XmlWriter emits, and the parse of that stream back into a tree. Attributes,
    namespaces and white-space-only text (which XmlDocument.Load drops by default) do not occur. */
module Xml {
  import opened Wrappers

  datatype Node = Element(name: string, children: seq<Node>) | Text(value: string)

  /** What the writer emits: the XML declaration, a start tag, an end tag, character data. */
  datatype XmlEvent = Declaration | StartElement(name: string) | EndElement | Chars(text: string)

  /** The events that serialise a node. */
  function Flatten(n: Node): seq<XmlEvent>
  {
    match n
    case Text(t) => [Chars(t)]
    case Element(name, kids) => [StartElement(name)] + FlattenForest(kids) + [EndElement]
  }

  function FlattenForest(ns: seq<Node>): seq<XmlEvent>
  {
    if ns == [] then [] else Flatten(ns[0]) + FlattenForest(ns[1..])
  }

  /** Parses sibling nodes up to an end tag, a declaration or the end of input, and returns
      them with the events that follow; an element whose end tag is missing stops the parse
      at its start tag. */
  function ParseForest(evs: seq<XmlEvent>): (r: (seq<Node>, seq<XmlEvent>))
    ensures |r.1| <= |evs|
    decreases |evs|
  {
    if evs == [] then ([], [])
    else
      match evs[0]
      case Chars(t) =>
        var (rest, tail) := ParseForest(evs[1..]);
        ([Text(t)] + rest, tail)
      case StartElement(name) =>
        var (kids, after) := ParseForest(evs[1..]);
        if after != [] && after[0] == EndElement then
          var (rest, tail) := ParseForest(after[1..]);
          ([Element(name, kids)] + rest, tail)
        else ([], evs)
      case _ => ([], evs)
  }

  /** XmlDocument.Load on a stream of events: an optional declaration, then exactly one root
      element and nothing after it; anything else is not a well-formed document. */
  function Parse(evs: seq<XmlEvent>): (r: Option<Node>)
    ensures r.Some? ==> r.value.Element?
  {
    var body := if evs != [] && evs[0] == Declaration then evs[1..] else evs;
    var (forest, rest) := ParseForest(body);
    if rest == [] && |forest| == 1 && forest[0].Element? then Some(forest[0]) else None
  }

  /** One step of the parse on character data. */
  lemma ParseChars(t: string, rest: seq<XmlEvent>)
    ensures ParseForest([Chars(t)] + rest) == ([Text(t)] + ParseForest(rest).0, ParseForest(rest).1)
  {
    assert ([Chars(t)] + rest)[1..] == rest;
  }

  /** One step of the parse on a start tag whose children end at an end tag. */
  lemma ParseStart(name: string, body: seq<XmlEvent>)
    requires ParseForest(body).1 != [] && ParseForest(body).1[0] == EndElement
    ensures var after := ParseForest(body).1;
      ParseForest([StartElement(name)] + body)
      == ([Element(name, ParseForest(body).0)] + ParseForest(after[1..]).0, ParseForest(after[1..]).1)
  {
    assert ([StartElement(name)] + body)[1..] == body;
  }

  /** Serialising a forest and parsing it back gives the forest, and parsing stops exactly
      where the serialised forest ends. */
  lemma {:induction false} ParseFlattenForest(ns: seq<Node>, tail: seq<XmlEvent>)
    requires tail == [] || tail[0] == EndElement
    ensures ParseForest(FlattenForest(ns) + tail) == (ns, tail)
    decreases ns
  {
    if ns == [] {
      assert FlattenForest(ns) + tail == tail;
    } else {
      var rest := FlattenForest(ns[1..]) + tail;
      ParseFlattenForest(ns[1..], tail);
      FlattenForestCons(ns, tail);
      match ns[0]
      case Text(t) =>
        ParseChars(t, rest);
      case Element(name, kids) =>
        ParseFlattenForest(kids, [EndElement] + rest);
        ParseElement(name, kids, rest);
    }
  }

  /** The events of a non-empty forest followed by more events, regrouped at its first node. */
  lemma FlattenForestCons(ns: seq<Node>, tail: seq<XmlEvent>)
    requires ns != []
    ensures FlattenForest(ns) + tail == Flatten(ns[0]) + (FlattenForest(ns[1..]) + tail)
    ensures [ns[0]] + ns[1..] == ns
  {
    SeqAssoc(Flatten(ns[0]), FlattenForest(ns[1..]), tail);
  }

  lemma SeqAssoc(a: seq<XmlEvent>, b: seq<XmlEvent>, c: seq<XmlEvent>)
    ensures (a + b) + c == a + (b + c)
  {
  }

  /** One step of ParseFlattenForest: an element whose children parse back is parsed back. */
  lemma ParseElement(name: string, kids: seq<Node>, rest: seq<XmlEvent>)
    requires ParseForest(FlattenForest(kids) + ([EndElement] + rest)) == (kids, [EndElement] + rest)
    ensures ParseForest(Flatten(Element(name, kids)) + rest)
         == ([Element(name, kids)] + ParseForest(rest).0, ParseForest(rest).1)
  {
    FlattenElement(name, kids, rest);
    ParseStart(name, FlattenForest(kids) + ([EndElement] + rest));
  }

  /** The events of an element followed by more events, regrouped as the parse reads them. */
  lemma FlattenElement(name: string, kids: seq<Node>, rest: seq<XmlEvent>)
    ensures Flatten(Element(name, kids)) + rest == [StartElement(name)] + (FlattenForest(kids) + ([EndElement] + rest))
  {
  }

  /** A document the writer produced loads back as the same tree. */
  lemma LoadWritten(root: Node)
    requires root.Element?
    ensures Parse([Declaration] + Flatten(root)) == Some(root)
  {
    ParseFlattenForest([root], []);
    assert FlattenForest([root]) + [] == Flatten(root);
    assert ([Declaration] + Flatten(root))[1..] == Flatten(root);
  }

  /** A document cut short before its end tag does not load. */
  lemma TruncatedDoesNotLoad(name: string)
    ensures Parse([Declaration, StartElement(name)]) == None
  {
    assert [Declaration, StartElement(name)][1..] == [StartElement(name)];
  }

  /** InnerText: the concatenated text of every text node inside. */
  function InnerText(n: Node): string
  {
    match n
    case Text(t) => t
    case Element(_, kids) => InnerTextForest(kids)
  }

  function InnerTextForest(ns: seq<Node>): string
  {
    if ns == [] then "" else InnerText(ns[0]) + InnerTextForest(ns[1..])
  }

  /** SelectSingleNode(name) on an element: its first child element of that name. */
  function SelectChild(n: Node, name: string): (r: Option<Node>)
    ensures r.Some? ==> n.Element? && r.value in n.children && r.value.Element? && r.value.name == name
    ensures r.None? ==> n.Text? || forall c :: c in n.children ==> !(c.Element? && c.name == name)
  {
    if n.Text? then None else FirstNamed(n.children, name)
  }

  /** The first element of that name among siblings. */
  function FirstNamed(ns: seq<Node>, name: string): (r: Option<Node>)
    ensures r.Some? ==> r.value in ns && r.value.Element? && r.value.name == name
    ensures r.None? ==> forall c :: c in ns ==> !(c.Element? && c.name == name)
    ensures ns != [] && ns[0].Element? && ns[0].name == name ==> r == Some(ns[0])
  {
    if ns == [] then None
    else if ns[0].Element? && ns[0].name == name then Some(ns[0])
    else FirstNamed(ns[1..], name)
  }

  /** The element found is the first of that name: it sits at some index, and no sibling
      before that index is an element of that name. */
  lemma {:induction false} FirstNamedIsFirst(ns: seq<Node>, name: string)
    ensures var r := FirstNamed(ns, name);
      r.Some? ==> exists i :: 0 <= i < |ns| && ns[i] == r.value && NoneNamed(ns[..i], name)
    decreases |ns|
  {
    if ns == [] {
    } else if ns[0].Element? && ns[0].name == name {
      assert ns[0] == ns[0] && NoneNamed(ns[..0], name);
    } else {
      var r := FirstNamed(ns[1..], name);
      FirstNamedIsFirst(ns[1..], name);
      if r.Some? {
        var i :| 0 <= i < |ns[1..]| && ns[1..][i] == r.value && NoneNamed(ns[1..][..i], name);
        assert ns[..i + 1] == [ns[0]] + ns[1..][..i];
        assert NoneNamed(ns[..i + 1], name);
        assert ns[i + 1] == r.value;
      }
    }
  }

  /** SelectSingleNode returns the first child element of that name. */
  lemma SelectChildIsFirst(n: Node, name: string)
    ensures var r := SelectChild(n, name);
      r.Some? ==> exists i :: 0 <= i < |n.children| && n.children[i] == r.value && NoneNamed(n.children[..i], name)
  {
    if n.Element? {
      FirstNamedIsFirst(n.children, name);
    }
  }

  /** No node of `ns` is an element of that name. */
  predicate NoneNamed(ns: seq<Node>, name: string)
  {
    forall j :: 0 <= j < |ns| ==> !(ns[j].Element? && ns[j].name == name)
  }

  /** The element `<name>value</name>` that WriteElementString emits. An empty value is kept
      as an empty text node, which has the same inner text as the missing text node of `<name />`. */
  function StringElement(name: string, value: string): Node
  {
    Element(name, [Text(value)])
  }

  /** Reading back the text of a written string element gives the value. */
  lemma StringElementText(name: string, value: string)
    ensures InnerText(StringElement(name, value)) == value
  {
    assert InnerTextForest([Text(value)]) == value + InnerTextForest([]);
  }

  /** SelectNodes("//name"): every element of that name, the root included, in document order. */
  function Descendants(n: Node, name: string): (r: seq<Node>)
    ensures forall m :: m in r ==> m.Element? && m.name == name
  {
    match n
    case Text(_) => []
    case Element(m, kids) => (if m == name then [n] else []) + DescendantsForest(kids, name)
  }

  function DescendantsForest(ns: seq<Node>, name: string): (r: seq<Node>)
    ensures forall m :: m in r ==> m.Element? && m.name == name
  {
    if ns == [] then [] else Descendants(ns[0], name) + DescendantsForest(ns[1..], name)
  }

  /** Every node of a tree, the root first, in document order (the order of their start tags). */
  function Subtrees(n: Node): (r: seq<Node>)
    ensures r != [] && r[0] == n
  {
    match n
    case Text(_) => [n]
    case Element(_, kids) => [n] + SubtreesForest(kids)
  }

  function SubtreesForest(ns: seq<Node>): seq<Node>
  {
    if ns == [] then [] else Subtrees(ns[0]) + SubtreesForest(ns[1..])
  }

  /** The elements of that name among `ns`, in their order there. */
  function Named(ns: seq<Node>, name: string): (r: seq<Node>)
    ensures forall m :: m in r <==> m in ns && m.Element? && m.name == name
  {
    if ns == [] then []
    else (if ns[0].Element? && ns[0].name == name then [ns[0]] else []) + Named(ns[1..], name)
  }

  lemma {:induction false} NamedAppend(a: seq<Node>, b: seq<Node>, name: string)
    ensures Named(a + b, name) == Named(a, name) + Named(b, name)
    decreases |a|
  {
    if a == [] {
      assert a + b == b;
    } else {
      assert (a + b)[0] == a[0] && (a + b)[1..] == a[1..] + b;
      NamedAppend(a[1..], b, name);
    }
  }

  /** SelectNodes("//name") is complete and in document order: it is exactly the list of
      the tree's nodes, in document order, that are elements of that name. */
  lemma {:induction false} DescendantsAreNamedSubtrees(n: Node, name: string)
    ensures Descendants(n, name) == Named(Subtrees(n), name)
    ensures forall m :: m in Subtrees(n) && m.Element? && m.name == name ==> m in Descendants(n, name)
    decreases n, 1
  {
    match n
    case Text(_) =>
    case Element(m, kids) =>
      DescendantsForestAreNamedSubtrees(kids, name);
      NamedAppend([n], SubtreesForest(kids), name);
  }

  lemma {:induction false} DescendantsForestAreNamedSubtrees(ns: seq<Node>, name: string)
    ensures DescendantsForest(ns, name) == Named(SubtreesForest(ns), name)
    decreases ns, 0
  {
    if ns != [] {
      DescendantsAreNamedSubtrees(ns[0], name);
      DescendantsForestAreNamedSubtrees(ns[1..], name);
      NamedAppend(Subtrees(ns[0]), SubtreesForest(ns[1..]), name);
    }
  }

  /** The walk distributes over siblings: the matches in `a + b` are those in `a`, then those in `b`. */
  lemma {:induction false} DescendantsAppend(a: seq<Node>, b: seq<Node>, name: string)
    ensures DescendantsForest(a + b, name) == DescendantsForest(a, name) + DescendantsForest(b, name)
    decreases |a|
  {
    if a != [] {
      assert (a + b)[0] == a[0] && (a + b)[1..] == a[1..] + b;
      DescendantsAppend(a[1..], b, name);
      calc {
        DescendantsForest(a + b, name);
        Descendants(a[0], name) + DescendantsForest(a[1..] + b, name);
        Descendants(a[0], name) + (DescendantsForest(a[1..], name) + DescendantsForest(b, name));
        (Descendants(a[0], name) + DescendantsForest(a[1..], name)) + DescendantsForest(b, name);
      }
    } else {
      assert a + b == b;
    }
  }
}
