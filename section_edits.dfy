/** What each mutating operation does to the child list of the section, as
    functions of the old child list, and what that means for the records a
    reload then derives. */
module SectionEdits {
  import opened XmlTree
  import opened ConfigRecords

  /** An element named `add`, the only kind of child SetValue and DelConfig look at. */
  predicate IsAdd(n: Node)
  {
    n.Element? && n.name == "add"
  }

  /** An `add` element whose `key` attribute is `key`. */
  predicate KeyedAdd(n: Node, key: string)
  {
    IsAdd(n) && "key" in n.attrs && n.attrs["key"] == key
  }

  // ---------------------------------------------------------------------
  // SetValue(key, value) and SetValue(key, value, remarks)

  /** The two forms of SetValue. */
  datatype Rewrite =
    | SetValueOp(key: string, value: string)
    | SetRemarksOp(key: string, value: string, remark: string)

  /** The loop body of SetValue applied to one child. `None` is the null
      dereference of a missing attribute: a matching `add` without `value`,
      and, in the form with remarks, any `add` without `key`. */
  function RewriteChild(op: Rewrite, n: Node): (r: Option<Node>)
    ensures r.Some? && !KeyedAdd(n, op.key) ==> r.value == n
    ensures r.None? <==>
      (IsAdd(n) && ((KeyedAdd(n, op.key) && "value" !in n.attrs) || (op.SetRemarksOp? && "key" !in n.attrs)))
    ensures r.Some? && KeyedAdd(n, op.key) ==>
      && KeyedAdd(r.value, op.key)
      && r.value.children == n.children
      && r.value.attrs.Keys == n.attrs.Keys + (if op.SetRemarksOp? then {"remarks"} else {})
      && r.value.attrs["value"] == op.value
      && (op.SetRemarksOp? ==> r.value.attrs["remarks"] == op.remark)
      && (forall a :: a in n.attrs && a != "value" && (op.SetValueOp? || a != "remarks") ==>
            r.value.attrs[a] == n.attrs[a])
  {
    if !IsAdd(n) then Some(n)
    else
      match op
      case SetValueOp(key, value) =>
        if "key" !in n.attrs || n.attrs["key"] != key then Some(n)
        else if "value" !in n.attrs then None
        else Some(Element("add", n.attrs["value" := value], n.children))
      case SetRemarksOp(key, value, remark) =>
        if "key" !in n.attrs then None
        else if n.attrs["key"] != key then Some(n)
        else if "value" !in n.attrs then None
        else Some(Element("add", n.attrs["value" := value]["remarks" := remark], n.children))
  }

  /** The section after the SetValue loop, and where it stopped with an error. */
  datatype Edit = Edit(children: seq<Node>, failedAt: Option<nat>)

  /** The SetValue loop over a child list: the children before the first one
      that fails are rewritten, that one and the rest are left as they were. */
  function RewriteAll(op: Rewrite, cs: seq<Node>): (r: Edit)
    ensures |r.children| == |cs|
    ensures r.failedAt.Some? ==> r.failedAt.value < |cs| && RewriteChild(op, cs[r.failedAt.value]).None?
    ensures forall j :: 0 <= j < |cs| && (r.failedAt.None? || j < r.failedAt.value) ==>
      RewriteChild(op, cs[j]).Some? && r.children[j] == RewriteChild(op, cs[j]).value
    ensures r.failedAt.Some? ==> r.children[r.failedAt.value..] == cs[r.failedAt.value..]
    decreases |cs|
  {
    if cs == [] then Edit([], None)
    else
      match RewriteChild(op, cs[0])
      case None => Edit(cs, Some(0))
      case Some(m) =>
        var rest := RewriteAll(op, cs[1..]);
        Edit([m] + rest.children, match rest.failedAt case None => None case Some(k) => Some(k + 1))
  }

  /** The loop of SetValue over the section's children: each child is
      rewritten in turn until one fails. */
  method RewriteChildren(op: Rewrite, cs: seq<Node>) returns (e: Edit)
    ensures e == RewriteAll(op, cs)
  {
    var out := cs;
    var i := 0;
    while i < |cs|
      invariant 0 <= i <= |cs| && |out| == |cs|
      invariant forall j :: 0 <= j < i ==> RewriteChild(op, cs[j]).Some? && out[j] == RewriteChild(op, cs[j]).value
      invariant out[i..] == cs[i..]
    {
      var m := RewriteChild(op, cs[i]);
      if m.None? {
        e := Edit(out, Some(i));
        assert RewriteAll(op, cs).failedAt == Some(i);
        assert RewriteAll(op, cs).children == out;
        return;
      }
      out := out[i := m.value];
      i := i + 1;
    }
    e := Edit(out, None);
    assert RewriteAll(op, cs).failedAt.None?;
    assert RewriteAll(op, cs).children == out;
  }

  /** SetValue with no matching `add` child leaves the section as it was and
      reports no error; the form with remarks needs in addition that every
      `add` child has a `key` attribute. */
  lemma RewriteWithoutMatch(op: Rewrite, cs: seq<Node>)
    requires forall j :: 0 <= j < |cs| ==> !KeyedAdd(cs[j], op.key)
    requires op.SetRemarksOp? ==> forall j :: 0 <= j < |cs| && IsAdd(cs[j]) ==> "key" in cs[j].attrs
    ensures RewriteAll(op, cs) == Edit(cs, None)
  {
    var r := RewriteAll(op, cs);
    assert r.failedAt.None?;
    assert r.children == cs;
  }

  /** After a SetValue that completes, GetValue finds the new value, provided
      there is a matching `add` child and every element the lookup would take
      for that key is such a child (GetValue reads any element, SetValue only
      `add` elements with a `key` attribute). */
  lemma {:induction false} ValueAfterRewrite(op: Rewrite, cs: seq<Node>)
    requires RewriteAll(op, cs).failedAt.None?
    requires exists j :: 0 <= j < |cs| && KeyedAdd(cs[j], op.key)
    requires forall j :: 0 <= j < |cs| && cs[j].Element? && AttrOrEmpty(cs[j].attrs, "key") == op.key ==>
      KeyedAdd(cs[j], op.key)
    ensures ValueOf(Records(RewriteAll(op, cs).children), op.key) == Some(op.value)
    decreases |cs|
  {
    var x := cs[0];
    var m := RewriteChild(op, x).value;
    var rest := RewriteAll(op, cs[1..]);
    assert RewriteAll(op, cs).children == [m] + rest.children;
    RecordsConcat([m], rest.children);
    ValueOfConcat(Records([m]), Records(rest.children), op.key);
    if KeyedAdd(x, op.key) {
      assert Records([m]) == [ConfigContent(Some(op.key), op.value, Some(AttrOrEmpty(m.attrs, "remarks")), ElementType)];
    } else {
      assert m == x;
      assert !(x.Element? && AttrOrEmpty(x.attrs, "key") == op.key);
      assert ValueOf(Records([m]), op.key) == None;
      ShiftedRequires(op, cs);
      ValueAfterRewrite(op, cs[1..]);
    }
  }

  /** The requirements of ValueAfterRewrite carry over from `cs` to `cs[1..]` when the first child does not match. */
  lemma ShiftedRequires(op: Rewrite, cs: seq<Node>)
    requires cs != [] && !KeyedAdd(cs[0], op.key)
    requires RewriteAll(op, cs).failedAt.None?
    requires exists j :: 0 <= j < |cs| && KeyedAdd(cs[j], op.key)
    requires forall j :: 0 <= j < |cs| && cs[j].Element? && AttrOrEmpty(cs[j].attrs, "key") == op.key ==>
      KeyedAdd(cs[j], op.key)
    ensures RewriteAll(op, cs[1..]).failedAt.None?
    ensures exists j :: 0 <= j < |cs[1..]| && KeyedAdd(cs[1..][j], op.key)
    ensures forall j :: 0 <= j < |cs[1..]| && cs[1..][j].Element? && AttrOrEmpty(cs[1..][j].attrs, "key") == op.key ==>
      KeyedAdd(cs[1..][j], op.key)
  {
    var j :| 0 <= j < |cs| && KeyedAdd(cs[j], op.key);
    assert cs[1..][j - 1] == cs[j];
    forall k | 0 <= k < |cs[1..]|
      ensures cs[1..][k] == cs[k + 1]
    {
    }
  }

  // ---------------------------------------------------------------------
  // AddConfig(key, value) and AddConfig(key, value, remarks)

  /** The nodes AddConfig appends: a comment holding a non-empty remark, then
      the `add` element (which carries `remarks` only when the remark is
      non-empty). AddConfig(key, value) is the case of the empty remark. */
  function NewEntries(key: string, value: string, remark: string): seq<Node>
  {
    if remark != "" then
      [Comment(remark), Element("add", map["key" := key, "value" := value, "remarks" := remark], [])]
    else
      [Element("add", map["key" := key, "value" := value], [])]
  }

  /** A reload after AddConfig sees the old records unchanged, then the
      remark's comment record (if any), then the new key/value record. */
  lemma AddedRecords(cs: seq<Node>, key: string, value: string, remark: string)
    ensures Records(cs + NewEntries(key, value, remark)) ==
      Records(cs)
      + (if remark != "" then [ConfigContent(None, remark, None, CommentType)] else [])
      + [ConfigContent(Some(key), value, Some(remark), ElementType)]
  {
    RecordsConcat(cs, NewEntries(key, value, remark));
    var e := NewEntries(key, value, remark);
    var last := e[|e| - 1];
    assert AttrOrEmpty(last.attrs, "remarks") == remark;
    if remark != "" {
      assert e[1..] == [last];
      assert Records(e) == RecordOf(e[0]) + Records([last]);
    }
    assert Records([last]) == RecordOf(last);
  }

  /** GetValue after AddConfig: the new value when the key was not there before;
      otherwise the earlier record still wins. */
  lemma ValueAfterAdd(cs: seq<Node>, key: string, value: string, remark: string)
    ensures ValueOf(Records(cs + NewEntries(key, value, remark)), key) ==
      if ValueOf(Records(cs), key).Some? then ValueOf(Records(cs), key) else Some(value)
  {
    AddedRecords(cs, key, value, remark);
    var head := if remark != "" then [ConfigContent(None, remark, None, CommentType)] else [];
    var tail := [ConfigContent(Some(key), value, Some(remark), ElementType)];
    assert Records(cs) + head + tail == Records(cs) + (head + tail);
    ValueOfConcat(Records(cs), head + tail, key);
    ValueOfConcat(head, tail, key);
    assert ValueOf(head, key) == None;
    assert ValueOf(tail, key) == Some(value) by {
      assert tail[0].key == Some(key);
    }
  }

  // ---------------------------------------------------------------------
  // DelConfig(key)

  /** The children that do not match: every `add` child whose key is `key`
      taken out, the rest in order. */
  function RemoveKeyed(cs: seq<Node>, key: string): seq<Node>
  {
    if cs == [] then []
    else (if KeyedAdd(cs[0], key) then [] else [cs[0]]) + RemoveKeyed(cs[1..], key)
  }

  /** What the DelConfig loop leaves: the first matching `add` child removed.
      `RemoveChild` detaches the current node, which then has no next sibling,
      so the enumeration of the section's children ends there. */
  function RemoveFirstKeyed(cs: seq<Node>, key: string): seq<Node>
  {
    if cs == [] then []
    else if KeyedAdd(cs[0], key) then cs[1..]
    else [cs[0]] + RemoveFirstKeyed(cs[1..], key)
  }

  /** One step of the enumeration: the child at `i`, then those after it. */
  lemma RemoveFirstKeyedStep(cs: seq<Node>, i: nat, key: string)
    requires i < |cs|
    ensures RemoveFirstKeyed(cs[i..], key) ==
      if KeyedAdd(cs[i], key) then cs[i + 1..] else [cs[i]] + RemoveFirstKeyed(cs[i + 1..], key)
  {
    assert cs[i..][0] == cs[i] && cs[i..][1..] == cs[i + 1..];
  }

  /** The loop of DelConfig over the section's children: the first matching
      child is removed, and the enumeration stops with it. */
  method RemoveMatching(cs: seq<Node>, key: string) returns (live: seq<Node>)
    ensures live == RemoveFirstKeyed(cs, key)
  {
    var i := 0;
    while i < |cs|
      invariant 0 <= i <= |cs|
      invariant RemoveFirstKeyed(cs, key) == cs[..i] + RemoveFirstKeyed(cs[i..], key)
    {
      RemoveFirstKeyedStep(cs, i, key);
      if KeyedAdd(cs[i], key) {
        return cs[..i] + cs[i + 1..];
      }
      ConcatAssoc(cs[..i], [cs[i]], RemoveFirstKeyed(cs[i + 1..], key));
      assert cs[..i + 1] == cs[..i] + [cs[i]];
      i := i + 1;
    }
    assert cs[..i] == cs && cs[i..] == [];
    return cs;
  }

  /** `after` is `before` with some of its matching `add` children taken out. */
  predicate OnlyKeyedRemoved(before: seq<Node>, after: seq<Node>, key: string)
    decreases |before|
  {
    if before == [] then after == []
    else
      (KeyedAdd(before[0], key) && OnlyKeyedRemoved(before[1..], after, key))
      || (after != [] && after[0] == before[0] && OnlyKeyedRemoved(before[1..], after[1..], key))
  }

  lemma {:induction false} OnlyKeyedRemovedRefl(cs: seq<Node>, key: string)
    ensures OnlyKeyedRemoved(cs, cs, key)
  {
    if cs != [] {
      OnlyKeyedRemovedRefl(cs[1..], key);
    }
  }

  /** Removing every match, as a loop that went on after a removal would,
      also takes out nothing but matching `add` children. */
  lemma {:induction false} RemoveKeyedOnlyRemovesKeyed(cs: seq<Node>, key: string)
    ensures OnlyKeyedRemoved(cs, RemoveKeyed(cs, key), key)
  {
    if cs != [] {
      RemoveKeyedOnlyRemovesKeyed(cs[1..], key);
      if KeyedAdd(cs[0], key) {
        assert RemoveKeyed(cs, key) == RemoveKeyed(cs[1..], key);
      } else {
        assert RemoveKeyed(cs, key) == [cs[0]] + RemoveKeyed(cs[1..], key);
        assert RemoveKeyed(cs, key)[1..] == RemoveKeyed(cs[1..], key);
      }
    }
  }

  /** DelConfig removes nothing but a matching `add` child. */
  lemma {:induction false} RemoveFirstKeyedOnlyRemovesKeyed(cs: seq<Node>, key: string)
    ensures OnlyKeyedRemoved(cs, RemoveFirstKeyed(cs, key), key)
  {
    if cs != [] {
      if KeyedAdd(cs[0], key) {
        OnlyKeyedRemovedRefl(cs[1..], key);
      } else {
        RemoveFirstKeyedOnlyRemovesKeyed(cs[1..], key);
        assert ([cs[0]] + RemoveFirstKeyed(cs[1..], key))[1..] == RemoveFirstKeyed(cs[1..], key);
      }
    }
  }

  /** What removing only matching children guarantees: every child that does
      not match survives, in the same relative order; nothing is added; and
      every child that disappears is a matching `add` element. */
  lemma {:induction false} OnlyKeyedRemovedKeepsOthers(before: seq<Node>, after: seq<Node>, key: string)
    requires OnlyKeyedRemoved(before, after, key)
    ensures RemoveKeyed(after, key) == RemoveKeyed(before, key)
    ensures multiset(after) <= multiset(before)
    ensures forall x :: x in before && x !in after ==> KeyedAdd(x, key)
    decreases |before|
  {
    if before != [] {
      assert before == [before[0]] + before[1..];
      if KeyedAdd(before[0], key) && OnlyKeyedRemoved(before[1..], after, key) {
        OnlyKeyedRemovedKeepsOthers(before[1..], after, key);
      } else {
        OnlyKeyedRemovedKeepsOthers(before[1..], after[1..], key);
        assert after == [after[0]] + after[1..];
      }
    }
  }

  // ---------------------------------------------------------------------
  // AddXmlStr(xml), element branch

  /** The `add` element AddXmlStr builds from a top-level element of the
      fragment: always all three attributes, copied or `""`. */
  function ImportedElement(n: Node): (r: Node)
    requires n.Element?
    ensures IsAdd(r) && r.attrs.Keys == {"key", "value", "remarks"} && r.children == []
    ensures RecordOf(r) == RecordOf(n)
  {
    Element("add", map["key" := AttrOrEmpty(n.attrs, "key"), "value" := AttrOrEmpty(n.attrs, "value"),
                       "remarks" := AttrOrEmpty(n.attrs, "remarks")], [])
  }

  /** The AddXmlStr loop over the fragment's top-level nodes: what it appends
      to the section, and whether it stops with an error (a comment, whose
      node belongs to the fragment's document and cannot be appended). */
  datatype Import = Import(added: seq<Node>, failed: bool)

  function ImportNodes(top: seq<Node>): (r: Import)
    ensures r.failed <==> exists i :: 0 <= i < |top| && top[i].Comment?
    ensures forall x :: x in r.added ==> IsAdd(x) && x.attrs.Keys == {"key", "value", "remarks"}
    ensures |r.added| <= |top|
  {
    if top == [] then Import([], false)
    else
      var rest := ImportNodes(top[1..]);
      assert forall i :: 1 <= i < |top| ==> top[i] == top[1..][i - 1];
      match top[0]
      case Element(_, _, _) => Import([ImportedElement(top[0])] + rest.added, rest.failed)
      case Comment(_) => Import([], true)
      case _ => rest
  }

  /** One step of the import loop: the node at `i` is handled, then the rest. */
  lemma ImportNodesStep(top: seq<Node>, i: nat)
    requires i < |top|
    ensures ImportNodes(top[i..]) ==
      match top[i]
      case Element(_, _, _) => Import([ImportedElement(top[i])] + ImportNodes(top[i + 1..]).added, ImportNodes(top[i + 1..]).failed)
      case Comment(_) => Import([], true)
      case _ => ImportNodes(top[i + 1..])
  {
    assert top[i..][0] == top[i] && top[i..][1..] == top[i + 1..];
  }

  /** A fragment AddXmlStr imports completely reads back as the records the
      fragment's own nodes give: importing loses no key, value or remark. */
  lemma {:induction false} ImportedRecords(top: seq<Node>)
    requires !ImportNodes(top).failed
    ensures Records(ImportNodes(top).added) == Records(top)
  {
    if top != [] {
      ImportedRecords(top[1..]);
      if top[0].Element? {
        var e := ImportedElement(top[0]);
        RecordsConcat([e], ImportNodes(top[1..]).added);
        assert Records([e]) == RecordOf(e);
      }
    }
  }
}
