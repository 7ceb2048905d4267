/** The settings store: an XML document held in memory, the file it was
    loaded from, the section path, and the record list cached from the
    section at the last load. */
module ConfigTool {
  import opened XmlTree
  import opened ConfigRecords
  import opened SectionEdits

  /** What a mutation returns: the `"success"` token, or the text of the
      exception it caught (all exceptions are one value here). */
  datatype Outcome = Success | Error

  /** The records a load of `t` produces: those of the section's children, or
      none when a segment of the path is missing (the exception is swallowed). */
  function SectionRecords(t: Node, path: seq<string>): seq<ConfigContent>
  {
    match SectionOf(t, path)
    case None => []
    case Some(cs) => Records(cs)
  }

  /** The path a load resolves: the two default segments when no segment has
      been given, the given segments otherwise. */
  function SeedPath(path: seq<string>, configuration: string, appSettings: string): (r: seq<string>)
    ensures r != []
    ensures path == [] ==> r == [configuration, appSettings]
    ensures path != [] ==> r == path
  {
    if path == [] then [configuration, appSettings] else path
  }

  class XmlConfigTool {
    /** The document in memory (`_XmlDocument`). */
    var tree: Doc
    /** The file at the configured path, as it parses; `None` when it cannot be read or parsed. */
    var disk: Option<Doc>
    /** The section path (`_configurationList`). */
    var configurationList: seq<string>
    /** The default segment names (`_appSettings`, `_configuration`). */
    var appSettings: string
    var configuration: string
    /** The cached records (`_ConfigList`). */
    var configList: seq<ConfigContent>

    /** The path is never empty once loaded, and the cache is the derivation of
        the file as last saved or loaded. A mutation that fails may leave the
        in-memory tree edited, but neither the file nor the cache. */
    ghost predicate Valid()
      reads this
    {
      configurationList != [] && configList == SectionRecords(LoadTree(disk), configurationList)
    }

    /** The constructors that take a file: record the file and load it. */
    constructor (file: Option<Doc>)
      ensures Valid()
      ensures disk == file && tree == LoadTree(file)
      ensures appSettings == "appSettings" && configuration == "configuration"
      ensures configurationList == ["configuration", "appSettings"]
      ensures configList == SectionRecords(tree, configurationList)
    {
      disk := file;
      tree := EmptyDocument;
      configurationList := [];
      appSettings := "appSettings";
      configuration := "configuration";
      configList := [];
      new;
      LoadConfiguration();
    }

    /** `GetappSettings`: walk the path from the document, one
        `SelectSingleNode` per segment. */
    method FindSection() returns (section: Option<Address>)
      ensures section == Resolve(tree, configurationList)
    {
      var path := configurationList;
      section := Some([]);
      var i := 0;
      while i < |path|
        invariant 0 <= i <= |path|
        invariant section == Resolve(tree, path[..i])
      {
        ResolveExtend(tree, path[..i], path[i]);
        assert path[..i + 1] == path[..i] + [path[i]];
        if section.Some? {
          var a := section.value;
          var next := FirstChildElement(Children(At(tree, a)), path[i]);
          section := if next.None? then None else Some(a + [next.value]);
        }
        i := i + 1;
      }
      assert path[..i] == path;
    }

    /** `LoadConfigurationXml`: read the file, seed the path if it is empty,
        and rebuild the record list from the section's children. */
    method LoadConfiguration()
      modifies this
      ensures disk == old(disk) && appSettings == old(appSettings) && configuration == old(configuration)
      ensures tree == LoadTree(disk)
      ensures configurationList == SeedPath(old(configurationList), configuration, appSettings)
      ensures configList == SectionRecords(tree, configurationList)
      ensures Valid()
    {
      tree := LoadTree(disk);
      if |configurationList| == 0 {
        configurationList := configurationList + [configuration];
        configurationList := configurationList + [appSettings];
      }
      var section := FindSection();
      if section.None? {
        configList := [];
        return;
      }
      configList := CollectRecords(Children(At(tree, section.value)));
    }

    /** `FinderPath`: switch to another file and load it. */
    method SwitchFile(file: Option<Doc>)
      requires Valid()
      modifies this
      ensures Valid()
      ensures disk == file && tree == LoadTree(file)
      ensures configurationList == old(configurationList)
      ensures appSettings == old(appSettings) && configuration == old(configuration)
      ensures configList == SectionRecords(tree, configurationList)
    {
      disk := file;
      LoadConfiguration();
    }

    /** `FinderAppSettings`: change the second default segment. The path has
        already been seeded by the constructor, so no later load uses it. */
    method FinderAppSettings(name: string)
      requires Valid()
      modifies this`appSettings
      ensures Valid() && appSettings == name
    {
      appSettings := name;
    }

    /** `FinderConfiguration`: change the first default segment. */
    method FinderConfiguration(name: string)
      requires Valid()
      modifies this`configuration
      ensures Valid() && configuration == name
    {
      configuration := name;
    }

    /** `Adduration(List<string>)`: append segments in the order given, then
        reload. The defaults seeded at construction stay in front. */
    method AddSegments(segments: seq<string>)
      requires Valid()
      modifies this
      ensures Valid()
      ensures configurationList == old(configurationList) + segments
      ensures disk == old(disk) && tree == LoadTree(disk)
      ensures appSettings == old(appSettings) && configuration == old(configuration)
      ensures configList == SectionRecords(tree, configurationList)
    {
      configurationList := configurationList + segments;
      LoadConfiguration();
    }

    /** `Adduration(string)`: append one segment, then reload. */
    method AddSegment(segment: string)
      requires Valid()
      modifies this
      ensures Valid()
      ensures configurationList == old(configurationList) + [segment]
      ensures disk == old(disk) && tree == LoadTree(disk)
      ensures appSettings == old(appSettings) && configuration == old(configuration)
      ensures configList == SectionRecords(tree, configurationList)
    {
      AddSegments([segment]);
    }

    /** `XmlDocument.Save` to the configured path. */
    method Save()
      modifies this`disk
      ensures disk == Some(tree)
    {
      disk := Some(tree);
    }

    /** `AppendNode`: resolve the section again and append `n` as its last child. */
    method AppendNode(n: Node) returns (ok: bool)
      requires configurationList != []
      modifies this`tree
      ensures var s := old(SectionOf(tree, configurationList));
        && ok == s.Some?
        && (s.None? ==> tree == old(tree))
        && (s.Some? ==> tree == WithSection(old(tree), configurationList, s.value + [n])
                        && SectionOf(tree, configurationList) == Some(s.value + [n]))
    {
      var section := FindSection();
      if section.None? {
        return false;
      }
      ghost var t := tree;
      var a := section.value;
      tree := SetChildrenAt(tree, a, Children(At(tree, a)) + [n]);
      WithSectionResolves(t, configurationList, Children(At(t, a)) + [n]);
      return true;
    }

    /** `GetValue`: reload, then the value of the first record with this key
        (`None` where `GetValue` dereferences the missing match). */
    method GetValue(key: string) returns (r: Option<string>)
      requires Valid()
      modifies this
      ensures Valid()
      ensures disk == old(disk) && tree == LoadTree(disk) && configList == old(configList)
      ensures configurationList == old(configurationList)
      ensures appSettings == old(appSettings) && configuration == old(configuration)
      ensures r == ValueOf(configList, key)
    {
      LoadConfiguration();
      r := ValueOf(configList, key);
    }

    /** The state a mutation leaves when it gives the section of `tree0` the
        children `cs`: saved and reloaded when it completes, otherwise the
        file and the cache are those of before. */
    ghost predicate Edited(tree0: Node, disk0: Option<Node>, records0: seq<ConfigContent>,
                           cs: seq<Node>, completed: bool, r: Outcome)
      reads this
    {
      && tree == WithSection(tree0, configurationList, cs)
      && SectionOf(tree, configurationList) == Some(cs)
      && (completed ==> r == Success && disk == Some(tree) && configList == Records(cs))
      && (!completed ==> r == Error && disk == disk0 && configList == records0)
    }

    /** The state a mutation leaves when it fails before changing anything. */
    ghost predicate Untouched(tree0: Node, disk0: Option<Node>, records0: seq<ConfigContent>, r: Outcome)
      reads this
    {
      r == Error && tree == tree0 && disk == disk0 && configList == records0
    }

    /** `Save` followed by `LoadConfigurationXml`, as every mutation ends. */
    method SaveAndReload()
      requires configurationList != []
      modifies this
      ensures Valid()
      ensures disk == Some(old(tree)) && tree == old(tree)
      ensures configurationList == old(configurationList)
      ensures appSettings == old(appSettings) && configuration == old(configuration)
      ensures configList == SectionRecords(tree, configurationList)
    {
      Save();
      LoadConfiguration();
    }

    /** The loop shared by both forms of SetValue: rewrite the section's
        children one by one, stopping at the first null dereference. */
    method RewriteSection(op: Rewrite) returns (r: Outcome)
      requires Valid()
      modifies this
      ensures Valid()
      ensures configurationList == old(configurationList)
      ensures appSettings == old(appSettings) && configuration == old(configuration)
      ensures var s := old(SectionOf(tree, configurationList));
        if s.None? then Untouched(old(tree), old(disk), old(configList), r)
        else var e := RewriteAll(op, s.value);
          Edited(old(tree), old(disk), old(configList), e.children, e.failedAt.None?, r)
    {
      var section := FindSection();
      if section.None? {
        return Error;
      }
      ghost var tree0 := tree;
      var cs := Children(At(tree, section.value));
      var e := RewriteChildren(op, cs);
      // on an error the children already rewritten stay rewritten, and nothing is saved
      tree := WithSection(tree, configurationList, e.children);
      WithSectionResolves(tree0, configurationList, e.children);
      if e.failedAt.Some? {
        return Error;
      }
      SaveAndReload();
      return Success;
    }

    /** `SetValue(key, value)`: overwrite `value` on every `add` child whose key is `key`. */
    method SetValue(key: string, value: string) returns (r: Outcome)
      requires Valid()
      modifies this
      ensures Valid()
      ensures configurationList == old(configurationList)
      ensures appSettings == old(appSettings) && configuration == old(configuration)
      ensures var s := old(SectionOf(tree, configurationList));
        if s.None? then Untouched(old(tree), old(disk), old(configList), r)
        else var e := RewriteAll(SetValueOp(key, value), s.value);
          Edited(old(tree), old(disk), old(configList), e.children, e.failedAt.None?, r)
    {
      r := RewriteSection(SetValueOp(key, value));
    }

    /** `SetValue(key, value, remarks)`: overwrite `value` and set `remarks` on
        every `add` child whose key is `key`. */
    method SetValueRemarks(key: string, value: string, remark: string) returns (r: Outcome)
      requires Valid()
      modifies this
      ensures Valid()
      ensures configurationList == old(configurationList)
      ensures appSettings == old(appSettings) && configuration == old(configuration)
      ensures var s := old(SectionOf(tree, configurationList));
        if s.None? then Untouched(old(tree), old(disk), old(configList), r)
        else var e := RewriteAll(SetRemarksOp(key, value, remark), s.value);
          Edited(old(tree), old(disk), old(configList), e.children, e.failedAt.None?, r)
    {
      r := RewriteSection(SetRemarksOp(key, value, remark));
    }

    /** `AddConfig(key, value)`: append an `add` element with `key` and `value`. */
    method AddConfig(key: string, value: string) returns (r: Outcome)
      requires Valid()
      modifies this
      ensures Valid()
      ensures configurationList == old(configurationList)
      ensures appSettings == old(appSettings) && configuration == old(configuration)
      ensures var s := old(SectionOf(tree, configurationList));
        if s.None? then Untouched(old(tree), old(disk), old(configList), r)
        else Edited(old(tree), old(disk), old(configList), s.value + NewEntries(key, value, ""), true, r)
    {
      var node := Element("add", map["key" := key, "value" := value], []);
      var ok := AppendNode(node);
      if !ok {
        return Error;
      }
      SaveAndReload();
      return Success;
    }

    /** `AddConfig(key, value, remarks)`: with a non-empty remark, append a
        comment holding it and then the `add` element carrying `remarks`;
        with an empty one, as AddConfig(key, value). */
    method AddConfigRemarks(key: string, value: string, remark: string) returns (r: Outcome)
      requires Valid()
      modifies this
      ensures Valid()
      ensures configurationList == old(configurationList)
      ensures appSettings == old(appSettings) && configuration == old(configuration)
      ensures var s := old(SectionOf(tree, configurationList));
        if s.None? then Untouched(old(tree), old(disk), old(configList), r)
        else Edited(old(tree), old(disk), old(configList), s.value + NewEntries(key, value, remark), true, r)
    {
      ghost var tree0 := tree;
      ghost var s := SectionOf(tree, configurationList);
      var remakeNode := Comment(remark);
      var attrs := map["key" := key, "value" := value];
      if remark != "" {
        attrs := attrs["remarks" := remark];
        var ok := AppendNode(remakeNode);
        if !ok {
          return Error;
        }
      }
      var node := Element("add", attrs, []);
      ghost var tree1 := tree;
      var ok := AppendNode(node);
      if !ok {
        return Error;
      }
      if remark != "" {
        WithSectionTwice(tree0, configurationList, s.value + [remakeNode], s.value + [remakeNode] + [node]);
        assert s.value + [remakeNode] + [node] == s.value + NewEntries(key, value, remark);
      }
      SaveAndReload();
      return Success;
    }

    /** `DelConfig(key)`: remove the first `add` child whose key is `key`; the
        enumeration of the section ends with the removed node. */
    method DelConfig(key: string) returns (r: Outcome)
      requires Valid()
      modifies this
      ensures Valid()
      ensures configurationList == old(configurationList)
      ensures appSettings == old(appSettings) && configuration == old(configuration)
      ensures var s := old(SectionOf(tree, configurationList));
        if s.None? then Untouched(old(tree), old(disk), old(configList), r)
        else Edited(old(tree), old(disk), old(configList), RemoveFirstKeyed(s.value, key), true, r)
               && OnlyKeyedRemoved(s.value, SectionOf(tree, configurationList).value, key)
    {
      var section := FindSection();
      if section.None? {
        return Error;
      }
      ghost var tree0 := tree;
      var cs := Children(At(tree, section.value));
      var live := RemoveMatching(cs, key);
      RemoveFirstKeyedOnlyRemovesKeyed(cs, key);
      tree := WithSection(tree, configurationList, live);
      WithSectionResolves(tree0, configurationList, live);
      SaveAndReload();
      return Success;
    }

    /** The loop of `AddXmlStr` over the top-level nodes of the fragment:
        an element is imported and appended to the section, a comment stops
        the loop with an error (it belongs to the fragment's document, so
        `AppendChild` throws), any other node is skipped. */
    method AppendImports(top: seq<Node>) returns (ok: bool)
      requires configurationList != []
      modifies this`tree
      ensures ok == (!ImportNodes(top).failed && (old(SectionOf(tree, configurationList)).Some? || ImportNodes(top).added == []))
      ensures old(SectionOf(tree, configurationList)).None? ==> tree == old(tree)
      ensures var s := old(SectionOf(tree, configurationList));
        s.Some? ==> tree == WithSection(old(tree), configurationList, s.value + ImportNodes(top).added)
                    && SectionOf(tree, configurationList) == Some(s.value + ImportNodes(top).added)
    {
      ghost var tree0 := tree;
      ghost var s := SectionOf(tree, configurationList);
      ghost var imp := ImportNodes(top);
      ghost var added: seq<Node> := [];
      if s.Some? {
        WithSectionSame(tree0, configurationList);
        assert s.value + added == s.value;
      }
      var i := 0;
      while i < |top|
        invariant 0 <= i <= |top|
        invariant imp == Import(added + ImportNodes(top[i..]).added, ImportNodes(top[i..]).failed)
        invariant s.None? ==> added == [] && tree == tree0
        invariant s.Some? ==> tree == WithSection(tree0, configurationList, s.value + added)
                              && SectionOf(tree, configurationList) == Some(s.value + added)
      {
        ImportNodesStep(top, i);
        var node := top[i];
        if node.Element? {
          var xnode := ImportedElement(node);
          ok := AppendNode(xnode);
          if !ok {
            return;
          }
          ghost var rest := ImportNodes(top[i + 1..]);
          ConcatAssoc(added, [xnode], rest.added);
          WithSectionTwice(tree0, configurationList, s.value + added, s.value + added + [xnode]);
          ConcatAssoc(s.value, added, [xnode]);
          added := added + [xnode];
        } else if node.Comment? {
          assert added + [] == added;
          return false;
        }
        i := i + 1;
      }
      assert top[i..] == [] && added + [] == added;
      return true;
    }

    /** `AddXmlStr(xml)`: import the fragment's top-level elements into the
        section, then save and reload. A fragment that does not parse is an
        empty document, so nothing is appended. */
    method AddXmlStr(fragment: Option<Doc>) returns (r: Outcome)
      requires Valid()
      modifies this
      ensures Valid()
      ensures configurationList == old(configurationList)
      ensures appSettings == old(appSettings) && configuration == old(configuration)
      ensures var s := old(SectionOf(tree, configurationList));
        var imp := ImportNodes(Children(LoadTree(fragment)));
        if s.None? then
          if imp == Import([], false) then r == Success && tree == old(tree) && disk == Some(tree) && configList == []
          else Untouched(old(tree), old(disk), old(configList), r)
        else Edited(old(tree), old(disk), old(configList), s.value + imp.added, !imp.failed, r)
    {
      var xmlD := LoadTree(fragment);
      var ok := AppendImports(Children(xmlD));
      if !ok {
        return Error;
      }
      SaveAndReload();
      return Success;
    }
  }
}
