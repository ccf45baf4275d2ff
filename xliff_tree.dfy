/** The parsed XLIFF document and the per-unit annotation lookup: where the
    trans-units sit in the tree, and how a unit's id, source, target, meaning
    and description are read from its children. */
module XliffTree {
  import opened Wrappers

  /** A node of the tree that `xml2js` builds. An element's attribute map and
      child list are left out of the tree when empty, so an empty map or
      sequence here is a property that JavaScript reads as `undefined`.
      A processing instruction `<?name ...?>` has a name, as an element has,
      but no attributes and no children. `Other` stands for the node kinds
      (comments, CDATA, doctype) that have neither a name nor a `text`
      property. */
  datatype Node =
    | Element(name: string, attributes: map<string, string>, children: seq<Node>)
    | Instruction(name: string, instruction: string)
    | Text(text: string)
    | Other

  /** The parsed document: the top-level `elements` list. */
  datatype Document = Document(elements: seq<Node>)

  /** A translation unit after its lookup. `meaning` and `description` are
      `None` where JavaScript has `undefined` (a note whose first child is
      not text); `source` and `target` are the serialised markup. */
  datatype TransUnit = TransUnit(transId: Option<string>, source: string, target: Option<string>,
                                 meaning: Option<string>, description: Option<string>)

  /** The faults by which the conversion stops without output. In JavaScript
      each is a `TypeError` from reading a property of `undefined`. */
  datatype ConvertError =
    | MalformedDocument          // a missing first node at one of the three levels, or a third with no children
    | MalformedUnit(unit: nat)   // a unit that is not an element, or has no attributes or children
    | MalformedNote(unit: nat)   // a note without attributes met during the lookup, or without children
    | MissingSource(unit: nat)   // a unit without a source child

  /** `element.name === name`: elements and processing instructions have names. */
  predicate IsNamed(n: Node, name: string) {
    (n.Element? || n.Instruction?) && n.name == name
  }

  /** `xs.find((element) => element.name === name)`, as an index. */
  function FindNamed(xs: seq<Node>, name: string): (r: Option<nat>)
    ensures r.Some? ==> r.value < |xs| && IsNamed(xs[r.value], name)
                        && forall j :: 0 <= j < r.value ==> !IsNamed(xs[j], name)
    ensures r.None? ==> forall j :: 0 <= j < |xs| ==> !IsNamed(xs[j], name)
  {
    if xs == [] then None
    else if IsNamed(xs[0], name) then Some(0)
    else match FindNamed(xs[1..], name)
      case None => None
      case Some(k) => Some(k + 1)
  }

  /** `xs.filter((element) => element.name === name)`. */
  function FilterNamed(xs: seq<Node>, name: string): (r: seq<Node>)
    ensures |r| <= |xs|
    ensures forall i :: 0 <= i < |r| ==> IsNamed(r[i], name)
    ensures forall i :: 0 <= i < |xs| && IsNamed(xs[i], name) ==> xs[i] in r
  {
    if xs == [] then []
    else (if IsNamed(xs[0], name) then [xs[0]] else []) + FilterNamed(xs[1..], name)
  }

  /** A single element is kept exactly when it has the name. */
  lemma FilterNamedOne(x: Node, name: string)
    ensures FilterNamed([x], name) == if IsNamed(x, name) then [x] else []
  {
    assert [x][1..] == [];
  }

  /** Filtering works element by element, so the kept elements stay in
      document order and keep their multiplicity. */
  lemma {:induction false} FilterNamedAppend(xs: seq<Node>, ys: seq<Node>, name: string)
    ensures FilterNamed(xs + ys, name) == FilterNamed(xs, name) + FilterNamed(ys, name)
  {
    if xs == [] {
      assert xs + ys == ys;
    } else {
      assert (xs + ys)[0] == xs[0] && (xs + ys)[1..] == xs[1..] + ys;
      FilterNamedAppend(xs[1..], ys, name);
    }
  }

  /** `element.attributes` is `undefined`: any node but an element, or an
      element whose attribute map is empty. */
  predicate LacksAttributes(n: Node) {
    !n.Element? || n.attributes == map[]
  }

  predicate HasRole(n: Node, role: string) {
    n.Element? && "from" in n.attributes && n.attributes["from"] == role
  }

  /** `notes.find((element) => element.attributes.from === role)`: the index of
      the first note with that role; reading `from` of a note that has no
      attributes (such as a `<?note ...?>` instruction) fails. */
  function FindRole(notes: seq<Node>, role: string, unit: nat): (r: Result<Option<nat>, ConvertError>)
    ensures r.Failure? ==> r.error == MalformedNote(unit)
    ensures r.Success? && r.value.Some? ==>
      r.value.value < |notes| && HasRole(notes[r.value.value], role)
      && forall j :: 0 <= j < r.value.value ==> !HasRole(notes[j], role)
    ensures r.Success? && r.value.None? ==> forall j :: 0 <= j < |notes| ==> !HasRole(notes[j], role)
    ensures r.Failure? <==> exists j :: 0 <= j < |notes| && LacksAttributes(notes[j])
                                        && forall i :: 0 <= i < j ==> !HasRole(notes[i], role)
  {
    if notes == [] then Success(None)
    else if LacksAttributes(notes[0]) then Failure(MalformedNote(unit))
    else if HasRole(notes[0], role) then Success(Some(0))
    else match FindRole(notes[1..], role, unit)
      case Failure(e) => Failure(e)
      case Success(None) => Success(None)
      case Success(Some(k)) => Success(Some(k + 1))
  }

  /** `element.elements[0]` can be read: an element with children. */
  predicate NoteReadable(n: Node) {
    n.Element? && n.children != []
  }

  /** `element ? element.elements[0].text : ''`: the text of a note, `''`
      without one, `None` (JavaScript `undefined`) when its first child is not
      text; a note without children fails. */
  function NoteText(notes: seq<Node>, found: Option<nat>, unit: nat): (r: Result<Option<string>, ConvertError>)
    requires found.Some? ==> found.value < |notes|
    ensures found.None? ==> r == Success(Some(""))
    ensures r.Failure? ==> r.error == MalformedNote(unit)
    ensures r.Failure? <==> found.Some? && (!notes[found.value].Element? || notes[found.value].children == [])
    ensures r.Success? && found.Some? ==>
      var first := notes[found.value].children[0];
      r.value == if first.Text? then Some(first.text) else None
  {
    match found
    case None => Success(Some(""))
    case Some(k) =>
      var note := notes[k];
      if !note.Element? || note.children == [] then Failure(MalformedNote(unit))
      else if note.children[0].Text? then Success(Some(note.children[0].text))
      else Success(None)
  }

  /** The text of the first note of a unit whose `from` is `role`, as lines
      72-75 read it: `''` without such a note, `None` (JavaScript
      `undefined`) when its first child is not text. */
  function RoleText(children: seq<Node>, role: string, unit: nat): (r: Result<Option<string>, ConvertError>)
    ensures r.Failure? ==> r.error == MalformedNote(unit)
    ensures var notes := FilterNamed(children, "note");
            var found := FindRole(notes, role, unit);
            r.Success? <==> found.Success? && (found.value.Some? ==> NoteReadable(notes[found.value.value]))
    ensures r.Success? ==>
      var notes := FilterNamed(children, "note");
      FindRole(notes, role, unit).Success?
      && match FindRole(notes, role, unit).value
         case None => r.value == Some("")
         case Some(k) =>
           notes[k].Element? && notes[k].children != []
           && r.value == if notes[k].children[0].Text? then Some(notes[k].children[0].text) else None
  {
    var notes := FilterNamed(children, "note");
    var at :- FindRole(notes, role, unit);
    NoteText(notes, at, unit)
  }

  /** A unit whose `attributes` and `elements` JavaScript can read. */
  predicate UnitShaped(n: Node) {
    n.Element? && n.attributes != map[] && n.children != []
  }

  /** Both role lookups of a unit's children succeed. */
  predicate NotesRead(children: seq<Node>, unit: nat) {
    RoleText(children, "meaning", unit).Success? && RoleText(children, "description", unit).Success?
  }

  /** Looks up one trans-unit as the loop body does, in the same order:
      the `id` attribute, the source, the notes and their texts, the
      serialised source, the serialised target. `serialize` stands for
      `js2xml`. */
  function ResolveUnit(n: Node, unit: nat, serialize: Node -> string): (r: Result<TransUnit, ConvertError>)
    ensures r.Failure? ==> r.error in {MalformedUnit(unit), MalformedNote(unit), MissingSource(unit)}
    ensures r.Success? <==> UnitShaped(n) && NotesRead(n.children, unit) && FindNamed(n.children, "source").Some?
    ensures r == Failure(MalformedNote(unit)) <==> UnitShaped(n) && !NotesRead(n.children, unit)
    ensures r == Failure(MissingSource(unit)) <==> UnitShaped(n) && NotesRead(n.children, unit)
                                                   && FindNamed(n.children, "source").None?
    ensures !n.Element? || n.attributes == map[] || n.children == [] ==> r == Failure(MalformedUnit(unit))
    ensures r == Failure(MissingSource(unit)) ==> n.Element? && FindNamed(n.children, "source").None?
    ensures r.Success? ==>
      && n.Element? && FindNamed(n.children, "source").Some?
      && r.value.transId == (if "id" in n.attributes then Some(n.attributes["id"]) else None)
      && r.value.source == serialize(n.children[FindNamed(n.children, "source").value])
      && r.value.target == (match FindNamed(n.children, "target")
                            case None => None
                            case Some(t) => Some(serialize(n.children[t])))
      && RoleText(n.children, "meaning", unit) == Success(r.value.meaning)
      && RoleText(n.children, "description", unit) == Success(r.value.description)
  {
    if !n.Element? || n.attributes == map[] || n.children == [] then Failure(MalformedUnit(unit))
    else
      var transId := if "id" in n.attributes then Some(n.attributes["id"]) else None;
      var source := FindNamed(n.children, "source");
      var meaning :- RoleText(n.children, "meaning", unit);
      var description :- RoleText(n.children, "description", unit);
      if source.None? then Failure(MissingSource(unit))
      else
        var target := FindNamed(n.children, "target");
        Success(TransUnit(transId, serialize(n.children[source.value]),
                          if target.Some? then Some(serialize(n.children[target.value])) else None,
                          meaning, description))
  }

  /** Nothing is kept from a list in which no node has the name. */
  lemma {:induction false} FilterNamedNone(xs: seq<Node>, name: string)
    requires forall j :: 0 <= j < |xs| ==> !IsNamed(xs[j], name)
    ensures FilterNamed(xs, name) == []
  {
    if xs != [] {
      FilterNamedNone(xs[1..], name);
    }
  }

  /** A unit with attributes and a source but no `note` child looks up,
      with `''` for both the meaning and the description. */
  lemma NoNotesReadEmpty(n: Node, unit: nat, serialize: Node -> string)
    requires n.Element? && n.attributes != map[] && FindNamed(n.children, "source").Some?
    requires forall j :: 0 <= j < |n.children| ==> !IsNamed(n.children[j], "note")
    ensures ResolveUnit(n, unit, serialize).Success?
    ensures ResolveUnit(n, unit, serialize).value.meaning == Some("")
    ensures ResolveUnit(n, unit, serialize).value.description == Some("")
  {
    FilterNamedNone(n.children, "note");
  }

  /** `<trans-unit id="1"><source>Hello</source></trans-unit>` looks up to
      id `1`, its serialised source, no target, and `''` for both notes. */
  lemma BareUnitExample(unit: nat, serialize: Node -> string)
    ensures var source := Element("source", map[], [Text("Hello")]);
            ResolveUnit(Element("trans-unit", map["id" := "1"], [source]), unit, serialize)
            == Success(TransUnit(Some("1"), serialize(source), None, Some(""), Some("")))
  {
    var source := Element("source", map[], [Text("Hello")]);
    var n := Element("trans-unit", map["id" := "1"], [source]);
    assert "id" in n.attributes;
    assert IsNamed(n.children[0], "source") && !IsNamed(n.children[0], "note");
    NoNotesReadEmpty(n, unit, serialize);
  }

  /** A trans-unit element as an XLIFF writer lays it out: the id, the
      source, the target when there is one, then a meaning note and a
      description note, each holding one text. */
  function UnitElement(id: string, source: Node, target: Option<Node>, meaning: string, description: string): Node {
    Element("trans-unit", map["id" := id],
            [source] + (if target.Some? then [target.value] else [])
            + [Element("note", map["from" := "meaning"], [Text(meaning)]),
               Element("note", map["from" := "description"], [Text(description)])])
  }

  /** In the children of a unit element the source comes first, the target
      (if any) second, and the notes are the last two. */
  lemma UnitChildrenFind(source: Node, target: Option<Node>, m: Node, d: Node)
    requires IsNamed(source, "source") && (target.Some? ==> IsNamed(target.value, "target"))
    requires IsNamed(m, "note") && IsNamed(d, "note")
    ensures var children := [source] + (if target.Some? then [target.value] else []) + [m, d];
            && FindNamed(children, "source") == Some(0)
            && FindNamed(children, "target") == (if target.Some? then Some(1) else None)
            && FilterNamed(children, "note") == [m, d]
  {
    var middle := if target.Some? then [target.value] else [];
    var children := [source] + middle + [m, d];
    if target.Some? {
      assert children == [source, target.value, m, d];
      FindTarget(source, target.value, m, d);
    } else {
      assert children == [source, m, d];
      FindNoTarget(source, m, d);
    }
    FilterNamedAppend([source] + middle, [m, d], "note");
    FilterNamedAppend([source], middle, "note");
    FilterTwoNotes(m, d);
  }

  lemma FindTarget(source: Node, target: Node, m: Node, d: Node)
    requires IsNamed(source, "source") && IsNamed(target, "target") && IsNamed(m, "note") && IsNamed(d, "note")
    ensures FindNamed([source, target, m, d], "target") == Some(1)
  {
    assert [source, target, m, d][1..] == [target, m, d];
  }

  lemma FindNoTarget(source: Node, m: Node, d: Node)
    requires IsNamed(source, "source") && IsNamed(m, "note") && IsNamed(d, "note")
    ensures FindNamed([source, m, d], "target") == None
  {
    var xs := [source, m, d];
    assert !IsNamed(xs[0], "target") && !IsNamed(xs[1], "target") && !IsNamed(xs[2], "target");
  }

  lemma FilterTwoNotes(m: Node, d: Node)
    requires IsNamed(m, "note") && IsNamed(d, "note")
    ensures FilterNamed([m, d], "note") == [m, d]
  {
    assert [m, d][1..] == [d];
  }

  /** A meaning note followed by a description note: each role reads its
      own note's text. */
  lemma RoleNotesRead(children: seq<Node>, meaning: string, description: string, unit: nat)
    requires FilterNamed(children, "note")
             == [Element("note", map["from" := "meaning"], [Text(meaning)]),
                 Element("note", map["from" := "description"], [Text(description)])]
    ensures RoleText(children, "meaning", unit) == Success(Some(meaning))
    ensures RoleText(children, "description", unit) == Success(Some(description))
  {
    var notes := FilterNamed(children, "note");
    assert "from" in notes[0].attributes && "from" in notes[1].attributes;
    assert HasRole(notes[0], "meaning") && !HasRole(notes[0], "description");
    assert notes[1..] == [notes[1]];
    assert FindRole(notes[1..], "description", unit) == Success(Some(0));
    assert FindRole(notes, "description", unit) == Success(Some(1));
  }

  /** Looking up a unit element gives back what it was built from. */
  lemma UnitElementReadsBack(id: string, source: Node, target: Option<Node>, meaning: string, description: string,
                             unit: nat, serialize: Node -> string)
    requires IsNamed(source, "source") && (target.Some? ==> IsNamed(target.value, "target"))
    ensures ResolveUnit(UnitElement(id, source, target, meaning, description), unit, serialize)
            == Success(TransUnit(Some(id), serialize(source), if target.Some? then Some(serialize(target.value)) else None,
                                 Some(meaning), Some(description)))
  {
    var m := Element("note", map["from" := "meaning"], [Text(meaning)]);
    var d := Element("note", map["from" := "description"], [Text(description)]);
    var n := UnitElement(id, source, target, meaning, description);
    UnitChildrenFind(source, target, m, d);
    RoleNotesRead(n.children, meaning, description, unit);
    assert "id" in n.attributes;
  }

  /** `node.elements[0]`, which fails on a node without children. */
  function FirstChild(n: Node): (r: Result<Node, ConvertError>)
    ensures r.Success? <==> n.Element? && n.children != []
    ensures r.Success? ==> r.value == n.children[0]
  {
    if n.Element? && n.children != [] then Success(n.children[0]) else Failure(MalformedDocument)
  }

  /** The document has an element first, whose first child is an element,
      whose first child is an element with children. The names are never
      looked at: in a usual file the three are xliff, file and body. */
  predicate HasUnitList(doc: Document) {
    && doc.elements != [] && doc.elements[0].Element? && doc.elements[0].children != []
    && var file := doc.elements[0].children[0];
       file.Element? && file.children != [] && file.children[0].Element? && file.children[0].children != []
  }

  /** The unit nodes: the children of the first child of the first child of
      the first top-level node, whatever their names; a missing level or a
      third level without children fails. */
  function UnitNodes(doc: Document): (r: Result<seq<Node>, ConvertError>)
    ensures r.Failure? ==> r.error == MalformedDocument
    ensures r.Success? <==> HasUnitList(doc)
    ensures r.Success? ==> r.value == doc.elements[0].children[0].children[0].children && r.value != []
  {
    if doc.elements == [] then Failure(MalformedDocument)
    else
      var file :- FirstChild(doc.elements[0]);
      var body :- FirstChild(file);
      if body.Element? && body.children != [] then Success(body.children) else Failure(MalformedDocument)
  }

  /** The walk is positional: in `<xliff><file><header><tool/></header><body>…`
      the header comes first, so its children are taken as the units. */
  lemma HeaderFirstExample(units: seq<Node>)
    ensures var tool := Element("tool", map["tool-id" := "ng"], []);
            var header := Element("header", map[], [tool]);
            var body := Element("body", map[], units);
            var file := Element("file", map["original" := "ng2.template"], [header, body]);
            UnitNodes(Document([Element("xliff", map["version" := "1.2"], [file])])) == Success([tool])
  {
  }

  /** All units looked up in order; the first unit that fails stops the run. */
  function ResolveAll(nodes: seq<Node>, serialize: Node -> string): (r: Result<seq<TransUnit>, ConvertError>)
    ensures r.Success? ==> LookedUp(nodes, r.value, serialize)
    decreases |nodes|
  {
    if nodes == [] then Success([])
    else
      var earlier :- ResolveAll(nodes[..|nodes| - 1], serialize);
      var last :- ResolveUnit(nodes[|nodes| - 1], |nodes| - 1, serialize);
      LookedUpSnoc(nodes, earlier, last, serialize);
      Success(earlier + [last])
  }

  /** Unit `k` is the lookup of node `k`, for every `k`. */
  ghost predicate LookedUp(nodes: seq<Node>, units: seq<TransUnit>, serialize: Node -> string) {
    |units| == |nodes| && forall k :: 0 <= k < |nodes| ==> ResolveUnit(nodes[k], k, serialize) == Success(units[k])
  }

  lemma LookedUpSnoc(nodes: seq<Node>, earlier: seq<TransUnit>, last: TransUnit, serialize: Node -> string)
    requires nodes != [] && LookedUp(nodes[..|nodes| - 1], earlier, serialize)
    requires ResolveUnit(nodes[|nodes| - 1], |nodes| - 1, serialize) == Success(last)
    ensures LookedUp(nodes, earlier + [last], serialize)
  {
    var init := nodes[..|nodes| - 1];
    forall k | 0 <= k < |nodes|
      ensures ResolveUnit(nodes[k], k, serialize) == Success((earlier + [last])[k])
    {
      if k < |init| {
        assert init[k] == nodes[k];
      }
    }
  }

  /** Node `k` is the first whose lookup fails, and it fails with `e`. */
  ghost predicate FaultAt(nodes: seq<Node>, k: nat, e: ConvertError, serialize: Node -> string) {
    k < |nodes| && ResolveUnit(nodes[k], k, serialize) == Failure(e)
    && forall j :: 0 <= j < k ==> ResolveUnit(nodes[j], j, serialize).Success?
  }

  /** A first fault of a prefix is a first fault of the whole list. */
  lemma FaultAtPrefix(nodes: seq<Node>, init: seq<Node>, k: nat, e: ConvertError, serialize: Node -> string)
    requires |init| <= |nodes| && init == nodes[..|init|] && FaultAt(init, k, e, serialize)
    ensures FaultAt(nodes, k, e, serialize)
  {
    forall j | 0 <= j <= k
      ensures ResolveUnit(nodes[j], j, serialize) == ResolveUnit(init[j], j, serialize)
    {
      assert init[j] == nodes[j];
    }
  }

  /** When every unit before the last was looked up, a failing last unit is
      the first fault. */
  lemma LastFaultAt(nodes: seq<Node>, earlier: seq<TransUnit>, e: ConvertError, serialize: Node -> string)
    requires nodes != [] && LookedUp(nodes[..|nodes| - 1], earlier, serialize)
    requires ResolveUnit(nodes[|nodes| - 1], |nodes| - 1, serialize) == Failure(e)
    ensures FaultAt(nodes, |nodes| - 1, e, serialize)
  {
    var init := nodes[..|nodes| - 1];
    forall j | 0 <= j < |init|
      ensures ResolveUnit(nodes[j], j, serialize).Success?
    {
      assert init[j] == nodes[j];
    }
  }

  /** A failed lookup of all units reports the fault of the first unit that
      fails; every unit before it was looked up. */
  lemma {:induction false} ResolveAllFirstFault(nodes: seq<Node>, serialize: Node -> string)
    requires ResolveAll(nodes, serialize).Failure?
    ensures exists k :: FaultAt(nodes, k, ResolveAll(nodes, serialize).error, serialize)
    decreases |nodes|
  {
    var n := |nodes| - 1;
    var init := nodes[..n];
    var e := ResolveAll(nodes, serialize).error;
    match ResolveAll(init, serialize)
    case Failure(_) =>
      ResolveAllFirstFault(init, serialize);
      var k :| FaultAt(init, k, e, serialize);
      FaultAtPrefix(nodes, init, k, e, serialize);
    case Success(earlier) =>
      LastFaultAt(nodes, earlier, e, serialize);
  }

  /** The units of a document, or the fault that stops the conversion. */
  function ResolveDocument(doc: Document, serialize: Node -> string): Result<seq<TransUnit>, ConvertError> {
    var nodes :- UnitNodes(doc);
    ResolveAll(nodes, serialize)
  }
}
