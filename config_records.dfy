/** The cached record list (`ConfigContent`) and the lookup over it.

    The records are derived from the section's immediate children and are
    never edited on their own: `Records` is the derivation that every load
    performs. */
module ConfigRecords {
  import opened XmlTree

  /** The `XmlNodeType` a record was made from. */
  datatype XType = ElementType | CommentType

  /** One entry of the cached list. `LoadConfigurationXml` leaves `key` and `ramark` unset
      (null) on a comment record; here they are `None`. */
  datatype ConfigContent = ConfigContent(key: Option<string>, value: string, remark: Option<string>, xType: XType)

  /** An attribute value, or `""` when the attribute is absent. */
  function AttrOrEmpty(attrs: map<string, string>, name: string): string
  {
    if name in attrs then attrs[name] else ""
  }

  /** What one child of the section adds to the list: a record for an element
      or a comment, nothing for any other kind of node. */
  function RecordOf(n: Node): seq<ConfigContent>
  {
    match n
    case Element(_, attrs, _) =>
      [ConfigContent(Some(AttrOrEmpty(attrs, "key")), AttrOrEmpty(attrs, "value"),
                     Some(AttrOrEmpty(attrs, "remarks")), ElementType)]
    case Comment(text) => [ConfigContent(None, text, None, CommentType)]
    case _ => []
  }

  /** The records of a child list, in document order. */
  function Records(cs: seq<Node>): seq<ConfigContent>
  {
    if cs == [] then [] else RecordOf(cs[0]) + Records(cs[1..])
  }

  /** The loop of `LoadConfigurationXml` over the section's children. */
  method CollectRecords(cs: seq<Node>) returns (records: seq<ConfigContent>)
    ensures records == Records(cs)
  {
    records := [];
    var i := 0;
    while i < |cs|
      invariant 0 <= i <= |cs|
      invariant Records(cs) == records + Records(cs[i..])
      decreases |cs| - i
    {
      RecordsStep(cs, i);
      assert records + (RecordOf(cs[i]) + Records(cs[i + 1..])) == (records + RecordOf(cs[i])) + Records(cs[i + 1..]);
      records := records + RecordOf(cs[i]);
      i := i + 1;
    }
    assert cs[i..] == [];
  }

  /** One step of the derivation: the child at `i`, then those after it. */
  lemma RecordsStep(cs: seq<Node>, i: nat)
    requires i < |cs|
    ensures Records(cs[i..]) == RecordOf(cs[i]) + Records(cs[i + 1..])
  {
    assert cs[i..][0] == cs[i] && cs[i..][1..] == cs[i + 1..];
  }

  /** The derivation works child by child: the records of two runs of
      children are the records of the first followed by those of the second. */
  lemma {:induction false} RecordsConcat(a: seq<Node>, b: seq<Node>)
    ensures Records(a + b) == Records(a) + Records(b)
  {
    if a == [] {
      assert a + b == b;
    } else {
      assert (a + b)[0] == a[0] && (a + b)[1..] == a[1..] + b;
      RecordsConcat(a[1..], b);
    }
  }

  /** When every child is an element or a comment, the records line up with
      the children one for one: the attributes of an element, `""` for any
      that is missing, and the text of a comment. */
  lemma {:induction false} RecordsPointwise(cs: seq<Node>)
    requires forall j :: 0 <= j < |cs| ==> cs[j].Element? || cs[j].Comment?
    ensures |Records(cs)| == |cs|
    ensures forall j :: 0 <= j < |cs| && cs[j].Element? ==>
      Records(cs)[j] == ConfigContent(Some(AttrOrEmpty(cs[j].attrs, "key")), AttrOrEmpty(cs[j].attrs, "value"),
                                      Some(AttrOrEmpty(cs[j].attrs, "remarks")), ElementType)
    ensures forall j :: 0 <= j < |cs| && cs[j].Comment? ==>
      Records(cs)[j] == ConfigContent(None, cs[j].text, None, CommentType)
  {
    if cs != [] {
      RecordsPointwise(cs[1..]);
      assert |RecordOf(cs[0])| == 1;
      forall j | 1 <= j < |cs|
        ensures Records(cs)[j] == Records(cs[1..])[j - 1] && cs[j] == cs[1..][j - 1]
      {
      }
    }
  }

  /** A child that is neither an element nor a comment contributes nothing. */
  lemma RecordsSkipOther(a: seq<Node>, b: seq<Node>)
    ensures Records(a + [Other] + b) == Records(a + b)
  {
    RecordsConcat(a + [Other], b);
    RecordsConcat(a, [Other]);
    RecordsConcat(a, b);
    assert Records([Other]) == [];
    assert Records(a + [Other]) == Records(a);
  }

  /** Element records always have a key and a remark (`""` when the attribute
      is absent); comment records never have either. */
  lemma {:induction false} RecordShape(cs: seq<Node>)
    ensures forall r :: r in Records(cs) ==>
      (r.xType == ElementType && r.key.Some? && r.remark.Some?) ||
      (r.xType == CommentType && r.key.None? && r.remark.None?)
  {
    if cs != [] {
      RecordShape(cs[1..]);
    }
  }

  /** The position of the first record whose key is `key`. */
  function FirstMatch(records: seq<ConfigContent>, key: string): (r: Option<nat>)
    ensures r.Some? ==> r.value < |records| && records[r.value].key == Some(key)
    ensures r.Some? ==> forall j :: 0 <= j < r.value ==> records[j].key != Some(key)
    ensures r.None? ==> forall j :: 0 <= j < |records| ==> records[j].key != Some(key)
  {
    if records == [] then None
    else if records[0].key == Some(key) then Some(0)
    else
      match FirstMatch(records[1..], key)
      case None => None
      case Some(i) => Some(i + 1)
  }

  /** The lookup of `GetValue`: the value of the first record, in list order,
      whose key is `key`; `None` where `GetValue` dereferences the missing
      match. A comment record, whose key is unset, never matches. */
  function ValueOf(records: seq<ConfigContent>, key: string): (r: Option<string>)
    ensures r.None? <==> forall j :: 0 <= j < |records| ==> records[j].key != Some(key)
    ensures r.Some? ==> exists i :: 0 <= i < |records| && records[i].key == Some(key) && records[i].value == r.value
                                    && forall j :: 0 <= j < i ==> records[j].key != Some(key)
  {
    match FirstMatch(records, key)
    case None => None
    case Some(i) => Some(records[i].value)
  }

  /** First match wins across a concatenation: the second part is consulted
      only when the first part has no record with the key. */
  lemma {:induction false} ValueOfConcat(a: seq<ConfigContent>, b: seq<ConfigContent>, key: string)
    ensures ValueOf(a + b, key) == if ValueOf(a, key).Some? then ValueOf(a, key) else ValueOf(b, key)
  {
    FirstMatchConcat(a, b, key);
  }

  lemma {:induction false} FirstMatchConcat(a: seq<ConfigContent>, b: seq<ConfigContent>, key: string)
    ensures FirstMatch(a + b, key) ==
      match FirstMatch(a, key)
      case Some(i) => Some(i)
      case None =>
        match FirstMatch(b, key)
        case None => None
        case Some(j) => Some(|a| + j)
  {
    if a == [] {
      assert a + b == b;
    } else {
      assert (a + b)[0] == a[0] && (a + b)[1..] == a[1..] + b;
      FirstMatchConcat(a[1..], b, key);
    }
  }
}
