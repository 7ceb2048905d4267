/** The XML document tree the settings store works on, and the resolution of
    the section path inside it.

    A node is addressed by the sequence of child positions that leads to it
    from the document node; the settings store edits the child list of one
    element (the section) and leaves the rest of the tree as it was. */
module XmlTree {

  datatype Option<+T> = None | Some(value: T)

  /** An XML node, reduced to what the settings store reads and writes.
      Attributes are a map: their order in the file is not modelled. */
  datatype Node =
    | Document(children: seq<Node>)
    | Element(name: string, attrs: map<string, string>, children: seq<Node>)
    | Comment(text: string)
    | Other  // text, CDATA, processing instruction, declaration, ...

  /** A parsed `XmlDocument`: the tree in memory, a stored file, a parsed fragment. */
  type Doc = n: Node | n.Document? witness Document([])

  /** What `XmlDocument.Load` leaves behind when the file is missing or malformed. */
  const EmptyDocument: Doc := Document([])

  /** The document a stored file parses to; `None` stands for a file that cannot be read or parsed. */
  function LoadTree(file: Option<Doc>): Doc
  {
    match file
    case Some(t) => t
    case None => EmptyDocument
  }

  function Children(n: Node): seq<Node>
  {
    match n
    case Document(cs) => cs
    case Element(_, _, cs) => cs
    case _ => []
  }

  predicate HasChildList(n: Node)
  {
    n.Document? || n.Element?
  }

  /** `n` with its child list replaced; a node without a child list is returned as it is. */
  function WithChildren(n: Node, cs: seq<Node>): Node
  {
    match n
    case Document(_) => Document(cs)
    case Element(name, attrs, _) => Element(name, attrs, cs)
    case _ => n
  }

  predicate IsElementNamed(n: Node, name: string)
  {
    n.Element? && n.name == name
  }

  /** `SelectSingleNode(name)` for a plain element name: the position of the
      first child element called `name`. */
  function FirstChildElement(cs: seq<Node>, name: string): (r: Option<nat>)
    ensures r.Some? ==> r.value < |cs| && IsElementNamed(cs[r.value], name)
    ensures r.Some? ==> forall j :: 0 <= j < r.value ==> !IsElementNamed(cs[j], name)
    ensures r.None? ==> forall j :: 0 <= j < |cs| ==> !IsElementNamed(cs[j], name)
  {
    if cs == [] then None
    else if IsElementNamed(cs[0], name) then Some(0)
    else
      match FirstChildElement(cs[1..], name)
      case None => None
      case Some(i) => Some(i + 1)
  }

  /** Concatenation regroups freely. */
  lemma ConcatAssoc<T>(a: seq<T>, b: seq<T>, c: seq<T>)
    ensures a + (b + c) == (a + b) + c
  {
  }

  type Address = seq<nat>

  predicate ValidAddress(n: Node, a: Address)
    decreases |a|
  {
    a == [] || (a[0] < |Children(n)| && ValidAddress(Children(n)[a[0]], a[1..]))
  }

  function At(n: Node, a: Address): Node
    requires ValidAddress(n, a)
    decreases |a|
  {
    if a == [] then n else At(Children(n)[a[0]], a[1..])
  }

  /** The tree `n` in which the node at `a` has the child list `cs`. */
  function SetChildrenAt(n: Node, a: Address, cs: seq<Node>): (r: Node)
    requires ValidAddress(n, a)
    ensures r.Document? == n.Document?
    decreases |a|
  {
    if a == [] then WithChildren(n, cs)
    else WithChildren(n, Children(n)[a[0] := SetChildrenAt(Children(n)[a[0]], a[1..], cs)])
  }

  /** The walk of `GetappSettings`: from `n`, take for each name of `path` in
      turn the first child element with that name. `None` when some name is
      not found. */
  function Resolve(n: Node, path: seq<string>): (r: Option<Address>)
    ensures r.Some? ==> |r.value| == |path| && ValidAddress(n, r.value)
    ensures r.Some? && path != [] ==> IsElementNamed(At(n, r.value), path[|path| - 1])
    decreases |path|
  {
    if path == [] then Some([])
    else
      match FirstChildElement(Children(n), path[0])
      case None => None
      case Some(i) =>
        match Resolve(Children(n)[i], path[1..])
        case None => None
        case Some(a) =>
          assert ([i] + a)[0] == i && ([i] + a)[1..] == a;
          Some([i] + a)
  }

  /** One segment of the walk: the first child element with the first name, then the rest of the path from it. */
  lemma ResolveUnfold(n: Node, path: seq<string>)
    requires path != []
    ensures Resolve(n, path) ==
      match FirstChildElement(Children(n), path[0])
      case None => None
      case Some(i) =>
        match Resolve(Children(n)[i], path[1..])
        case None => None
        case Some(a) => Some([i] + a)
  {
  }

  /** Following a longer address first steps to the child it starts with. */
  lemma AtCons(n: Node, i: nat, a: Address)
    requires ValidAddress(n, [i] + a)
    ensures i < |Children(n)| && ValidAddress(Children(n)[i], a)
    ensures At(n, [i] + a) == At(Children(n)[i], a)
  {
    assert ([i] + a)[0] == i && ([i] + a)[1..] == a;
  }

  /** Resolving one more name is one more `SelectSingleNode` step from the
      node already reached: the names are applied in list order. */
  lemma {:induction false} ResolveExtend(n: Node, path: seq<string>, name: string)
    ensures Resolve(n, path + [name]) ==
      match Resolve(n, path)
      case None => None
      case Some(a) =>
        match FirstChildElement(Children(At(n, a)), name)
        case None => None
        case Some(i) => Some(a + [i])
    decreases |path|
  {
    var p := path + [name];
    assert p[0] == (if path == [] then name else path[0]);
    ResolveUnfold(n, p);
    if path == [] {
      assert p == [name] && p[1..] == [];
      match FirstChildElement(Children(n), name)
      case None =>
      case Some(i) =>
        assert [i] + [] == [] + [i];
    } else {
      assert p[1..] == path[1..] + [name];
      ResolveUnfold(n, path);
      match FirstChildElement(Children(n), path[0])
      case None =>
      case Some(i) =>
        var c := Children(n)[i];
        ResolveExtend(c, path[1..], name);
        match Resolve(c, path[1..])
        case None =>
        case Some(a) =>
          AtCons(n, i, a);
          match FirstChildElement(Children(At(c, a)), name)
          case None =>
          case Some(j) =>
            ConcatAssoc([i], a, [j]);
    }
  }

  /** Replacing a child list keeps the kind, name and attributes of every node on the way. */
  lemma {:induction false} SetChildrenAtKeepsLabel(n: Node, a: Address, cs: seq<Node>, name: string)
    requires ValidAddress(n, a)
    ensures IsElementNamed(SetChildrenAt(n, a, cs), name) == IsElementNamed(n, name)
    ensures HasChildList(SetChildrenAt(n, a, cs)) == HasChildList(n)
  {
  }

  /** After the child list at `a` is replaced, `a` still names a node, and that node has the new child list. */
  lemma {:induction false} AtSetChildrenAt(n: Node, a: Address, cs: seq<Node>)
    requires ValidAddress(n, a) && HasChildList(At(n, a))
    ensures ValidAddress(SetChildrenAt(n, a, cs), a)
    ensures Children(At(SetChildrenAt(n, a, cs), a)) == cs
    decreases |a|
  {
    if a != [] {
      var c := Children(n)[a[0]];
      AtSetChildrenAt(c, a[1..], cs);
      assert Children(SetChildrenAt(n, a, cs)) == Children(n)[a[0] := SetChildrenAt(c, a[1..], cs)];
    }
  }

  /** Writing back the child list a node already has changes nothing. */
  lemma {:induction false} SetChildrenAtSame(n: Node, a: Address)
    requires ValidAddress(n, a) && HasChildList(At(n, a))
    ensures SetChildrenAt(n, a, Children(At(n, a))) == n
    decreases |a|
  {
    if a != [] {
      var c := Children(n)[a[0]];
      SetChildrenAtSame(c, a[1..]);
      assert Children(n)[a[0] := c] == Children(n);
    }
  }

  /** A second replacement of the same child list overrides the first. */
  lemma {:induction false} SetChildrenAtTwice(n: Node, a: Address, cs: seq<Node>, ds: seq<Node>)
    requires ValidAddress(n, a) && HasChildList(At(n, a))
    ensures ValidAddress(SetChildrenAt(n, a, cs), a)
    ensures SetChildrenAt(SetChildrenAt(n, a, cs), a, ds) == SetChildrenAt(n, a, ds)
    decreases |a|
  {
    AtSetChildrenAt(n, a, cs);
    if a != [] {
      var c := Children(n)[a[0]];
      SetChildrenAtTwice(c, a[1..], cs, ds);
      var n' := SetChildrenAt(n, a, cs);
      assert Children(n') == Children(n)[a[0] := SetChildrenAt(c, a[1..], cs)];
      assert Children(n')[a[0] := SetChildrenAt(SetChildrenAt(c, a[1..], cs), a[1..], ds)]
          == Children(n)[a[0] := SetChildrenAt(c, a[1..], ds)];
    }
  }

  /** Editing the children of the resolved section does not move the section:
      the same path resolves to the same address in the edited tree. */
  lemma {:induction false} ResolveAfterSetChildren(n: Node, path: seq<string>, cs: seq<Node>)
    requires Resolve(n, path).Some?
    ensures Resolve(SetChildrenAt(n, Resolve(n, path).value, cs), path) == Resolve(n, path)
    decreases |path|
  {
    if path != [] {
      var i := FirstChildElement(Children(n), path[0]).value;
      var c := Children(n)[i];
      var a := Resolve(c, path[1..]).value;
      assert ([i] + a)[0] == i && ([i] + a)[1..] == a;
      var c' := SetChildrenAt(c, a, cs);
      SetChildrenAtKeepsLabel(c, a, cs, path[0]);
      var kids := Children(n)[i := c'];
      assert Children(SetChildrenAt(n, [i] + a, cs)) == kids;
      var k := FirstChildElement(kids, path[0]);
      assert k == Some(i) by {
        assert IsElementNamed(kids[i], path[0]);
      }
      ResolveAfterSetChildren(c, path[1..], cs);
    }
  }

  /** The child list of the section that `path` names in `t`, or `None` when some segment is missing. */
  function SectionOf(t: Node, path: seq<string>): Option<seq<Node>>
  {
    match Resolve(t, path)
    case None => None
    case Some(a) => Some(Children(At(t, a)))
  }

  /** `t` with the child list of its section replaced by `cs` (unchanged when the section is missing). */
  function WithSection(t: Node, path: seq<string>, cs: seq<Node>): (r: Node)
    ensures r.Document? == t.Document?
  {
    match Resolve(t, path)
    case None => t
    case Some(a) => SetChildrenAt(t, a, cs)
  }

  /** After an edit of the section, the section is found again and holds exactly the new children. */
  lemma WithSectionResolves(t: Node, path: seq<string>, cs: seq<Node>)
    requires path != [] && SectionOf(t, path).Some?
    ensures Resolve(WithSection(t, path, cs), path) == Resolve(t, path)
    ensures SectionOf(WithSection(t, path, cs), path) == Some(cs)
  {
    var a := Resolve(t, path).value;
    ResolveAfterSetChildren(t, path, cs);
    AtSetChildrenAt(t, a, cs);
  }

  /** Writing back the section's own children leaves the tree as it was. */
  lemma WithSectionSame(t: Node, path: seq<string>)
    requires path != [] && SectionOf(t, path).Some?
    ensures WithSection(t, path, SectionOf(t, path).value) == t
  {
    SetChildrenAtSame(t, Resolve(t, path).value);
  }

  /** Two edits of the section in a row amount to the last one. */
  lemma WithSectionTwice(t: Node, path: seq<string>, cs: seq<Node>, ds: seq<Node>)
    requires path != [] && SectionOf(t, path).Some?
    ensures WithSection(WithSection(t, path, cs), path, ds) == WithSection(t, path, ds)
  {
    var a := Resolve(t, path).value;
    ResolveAfterSetChildren(t, path, cs);
    SetChildrenAtTwice(t, a, cs, ds);
  }
}
