# XmlConfigTool, modelled in Dafny

`XmlConfigTool` is a small key/value settings store that lives inside an XML
file, typically an `App.config`. A path of element names (by default
`configuration`, then `appSettings`) names one element of the document: the
*section*. Each immediate child of the section is one entry:

- an `add` element whose `key`, `value` and `remarks` attributes hold a setting;
- a comment, kept as a free-text entry.

The class holds the parsed document in memory and a cached list of
`ConfigContent` records derived from the section. It offers a lookup
(`GetValue`) and four mutations in six methods (`SetValue` in two forms,
`AddConfig` in two forms, `DelConfig`, `AddXmlStr`). Each mutation saves the document and then
rebuilds the cache from the file.

The model has four modules:

- `XmlTree` (`xml_tree.dfy`): the document as an abstract tree of
  `Document`, `Element`, `Comment` and `Other` nodes.
  - `SelectSingleNode` with a plain name is `FirstChildElement`.
  - The walk of `GetappSettings` is `Resolve`. It yields the address of the
    section, a sequence of child positions.
  - `SectionOf` and `WithSection` read and replace the section's child list.
  - Lemmas show that editing the section's children does not move the section.
- `ConfigRecords` (`config_records.dfy`):
  - the record type;
  - the derivation `Records`, with the loop of `LoadConfigurationXml` as the
    method `CollectRecords`;
  - the first-match lookup of `GetValue` as the function `ValueOf`.
- `SectionEdits` (`section_edits.dfy`): what each mutation does to the
  section's child list, as functions of the old list, and what a reload then
  reads back.
  - Each loop is a method proved equal to its function.
  - `Edit` records where the SetValue loop stopped with an exception;
    `Import` records whether the AddXmlStr loop stopped and what it had
    appended by then.
- `ConfigTool` (`xml_config_tool.dfy`): the class `XmlConfigTool` with the
  fields below, and its operations as methods that change them.
  - Fields: the tree, the `disk` copy of the file, the section path, the two
    default segment names and the cached records.
  - The class invariant `Valid` says two things. The path is not empty once
    loaded. The cache is the derivation of the file as last saved or loaded.

An exception is the single value `Error`. `"success"` is `Success`.

A mutation that throws part-way can leave edits in the in-memory tree. In that
case it has not saved, and the cache is unchanged. The predicates
`Edited` and `Untouched` state this, and so do the postconditions of every
mutation.

A parsed document is a `Doc`, a node that is a `Document`. A file that cannot
be read or parsed is modelled as `disk == None`, and the model takes it as
an empty document (`LoadXmlFile` returns whatever `Load` had built before
it threw, which the model does not track). A fragment passed to `AddXmlStr` is given as an already
parsed `Option<Doc>`.

Two behaviours of the code are modelled as written:

- **Section path.** The two default segments are added only while the path
  list is empty, and every constructor that takes a file loads at once. So the
  segments that `Adduration` adds later extend `configuration/appSettings`
  rather than replace it. Only the parameterless constructor, which is not
  modelled, starts with an empty path.
- **Default segment names.** `FinderAppSettings` and `FinderConfiguration`
  change the default names, but no later load of a constructed object sees
  them.

## Model

| member | source | states |
|---|---|---|
| XmlTree.FirstChildElement | XmlConfigTool/XmlConfigTool/XmlConfigTool.cs:149 | the position found holds an element with the name, and no earlier child is one; `None` exactly when no child is such an element |
| XmlTree.Resolve | XmlConfigTool/XmlConfigTool/XmlConfigTool.cs:144-152 | a found section has one address step per path segment, the address is valid, and the node reached is an element named by the last segment |
| XmlTree.ResolveExtend | XmlConfigTool/XmlConfigTool/XmlConfigTool.cs:147-150 | resolving one more segment is one more first-child-element step from the node already reached, so segments apply in list order and a missing one makes the whole walk missing |
| XmlTree.AtSetChildrenAt | XmlConfigTool/XmlConfigTool/XmlConfigTool.cs:271 | after the child list at an address is replaced, the address is still valid and leads to a node with exactly the new children |
| XmlTree.SetChildrenAtSame | XmlConfigTool/XmlConfigTool/XmlConfigTool.cs:271 | writing back a node's own child list leaves the tree equal to what it was |
| XmlTree.SetChildrenAtTwice | XmlConfigTool/XmlConfigTool/XmlConfigTool.cs:271 | two replacements of the same child list amount to the second one |
| XmlTree.ResolveAfterSetChildren | XmlConfigTool/XmlConfigTool/XmlConfigTool.cs:266-271 | after the section's children are edited, the same path resolves to the same address, so re-walking the path finds the edited section |
| XmlTree.WithSectionResolves | XmlConfigTool/XmlConfigTool/XmlConfigTool.cs:264-272 | after an edit of the section, the section is found again and holds exactly the new children |
| XmlTree.WithSectionSame | XmlConfigTool/XmlConfigTool/XmlConfigTool.cs:264-272 | giving the section its own children again changes nothing in the tree |
| XmlTree.WithSectionTwice | XmlConfigTool/XmlConfigTool/XmlConfigTool.cs:422-424 | two successive appends to the section are one edit with the final child list |
| ConfigRecords.CollectRecords | XmlConfigTool/XmlConfigTool/XmlConfigTool.cs:199-220 | the loop over the section's children builds exactly the derivation `Records` of those children, in document order |
| ConfigRecords.RecordsConcat | XmlConfigTool/XmlConfigTool/XmlConfigTool.cs:199-220 | the records of two runs of children are those of the first followed by those of the second |
| ConfigRecords.RecordsPointwise | XmlConfigTool/XmlConfigTool/XmlConfigTool.cs:201-218 | when every child is an element or a comment, record j comes from child j: for an element, its `key`/`value`/`remarks` attributes or `""` when absent; for a comment, no key or remark and its text as value |
| ConfigRecords.RecordsSkipOther | XmlConfigTool/XmlConfigTool/XmlConfigTool.cs:199-219 | a child that is neither element nor comment adds no record |
| ConfigRecords.RecordShape | XmlConfigTool/XmlConfigTool/XmlConfigTool.cs:203-217 | element records always carry a key and a remark; comment records never do |
| ConfigRecords.FirstMatch | XmlConfigTool/XmlConfigTool/XmlConfigTool.cs:321 | the position found has the key and no earlier record has it; `None` exactly when no record has it |
| ConfigRecords.ValueOf | XmlConfigTool/XmlConfigTool/XmlConfigTool.cs:321 | `None` exactly when no record has the key, where `GetValue` dereferences null; otherwise the value of the first record with the key |
| ConfigRecords.ValueOfConcat | XmlConfigTool/XmlConfigTool/XmlConfigTool.cs:321 | first match wins across a concatenation: later records are consulted only when the earlier ones have no such key |
| SectionEdits.RewriteChild | XmlConfigTool/XmlConfigTool/XmlConfigTool.cs:330-401 | covers one child in either form. Error exactly for a matching `add` without `value` or, in the three-argument form, any `add` without `key`. Otherwise a non-matching child is unchanged. A matching one keeps its name, key and children, gets the new value (and the new remark, adding the attribute if absent), and keeps every other attribute |
| SectionEdits.RewriteAll | XmlConfigTool/XmlConfigTool/XmlConfigTool.cs:330-401 | the loop over the section keeps the list's length. Every child before the failure point (all, when none fails) is rewritten by `RewriteChild`. The failing child and all after it are left as they were |
| SectionEdits.RewriteChildren | XmlConfigTool/XmlConfigTool/XmlConfigTool.cs:334-346 | the in-place loop computes exactly `RewriteAll` |
| SectionEdits.RewriteWithoutMatch | XmlConfigTool/XmlConfigTool/XmlConfigTool.cs:330-401 | with no matching `add` child (and, for the three-argument form, no keyless `add`), the section is unchanged and no error occurs |
| SectionEdits.ValueAfterRewrite | XmlConfigTool/XmlConfigTool/XmlConfigTool.cs:330-401 | after a SetValue that completes, a lookup of the key in the reloaded records gives the new value, provided some `add` matches and every element with that key is an `add` |
| SectionEdits.AddedRecords | XmlConfigTool/XmlConfigTool/XmlConfigTool.cs:410-427 | after AddConfig the reload sees the old records unchanged, then a comment record for a non-empty remark, then the new key/value/remark record |
| SectionEdits.ValueAfterAdd | XmlConfigTool/XmlConfigTool/XmlConfigTool.cs:410-460 | after AddConfig, GetValue gives the new value when the key was absent; otherwise the older record still wins |
| SectionEdits.RemoveMatching | XmlConfigTool/XmlConfigTool/XmlConfigTool.cs:471-483 | the loop over the section's children removes the first matching `add` child and ends there, since the detached node has no next sibling; it computes exactly `RemoveFirstKeyed` |
| SectionEdits.RemoveKeyedOnlyRemovesKeyed | XmlConfigTool/XmlConfigTool/XmlConfigTool.cs:471-483 | a loop that went on after each removal, taking out every match, would also remove only `add` children whose `key` is the key, keeping the others in order |
| SectionEdits.RemoveFirstKeyedOnlyRemovesKeyed | XmlConfigTool/XmlConfigTool/XmlConfigTool.cs:471-483 | what DelConfig leaves is its input with only a matching `add` child taken out, the others kept in order |
| SectionEdits.OnlyKeyedRemovedKeepsOthers | XmlConfigTool/XmlConfigTool/XmlConfigTool.cs:467-492 | under either outcome every non-matching child survives in the same relative order, nothing is added, and every child that disappears is a matching `add` |
| SectionEdits.ImportedElement | XmlConfigTool/XmlConfigTool/XmlConfigTool.cs:288-293 | the imported node is a childless `add` with exactly the attributes `key`, `value`, `remarks`, and it reads back as the same record as the fragment's element |
| SectionEdits.ImportNodes | XmlConfigTool/XmlConfigTool/XmlConfigTool.cs:284-301 | the import fails exactly when the fragment has a top-level comment; every appended node is an `add` with all three attributes; no more nodes are appended than the fragment has |
| SectionEdits.ImportedRecords | XmlConfigTool/XmlConfigTool/XmlConfigTool.cs:288-304 | a fragment imported completely reads back as the records of the fragment's own top-level nodes |
| ConfigTool.SeedPath | XmlConfigTool/XmlConfigTool/XmlConfigTool.cs:193-197 | an empty path is seeded with `[configuration, appSettings]`, a path already given is used unchanged, so the path in use is never empty |
| ConfigTool.XmlConfigTool.constructor | XmlConfigTool/XmlConfigTool/XmlConfigTool.cs:42-46 | the object records the file, loads it, seeds the default path `configuration/appSettings` and caches the section's records |
| ConfigTool.XmlConfigTool.FindSection | XmlConfigTool/XmlConfigTool/XmlConfigTool.cs:144-152 | the loop over the path returns exactly `Resolve` of the tree |
| ConfigTool.XmlConfigTool.LoadConfiguration | XmlConfigTool/XmlConfigTool/XmlConfigTool.cs:186-226 | the tree becomes the file's contents, and the path is seeded only when empty. The cache becomes the derivation of the section, or empty when a segment is missing (no error). The class invariant holds |
| ConfigTool.XmlConfigTool.SwitchFile | XmlConfigTool/XmlConfigTool/XmlConfigTool.cs:101-105 | the new file is loaded and cached with the same path |
| ConfigTool.XmlConfigTool.FinderAppSettings | XmlConfigTool/XmlConfigTool/XmlConfigTool.cs:110-113 | only the second default name changes; path and cache stay valid |
| ConfigTool.XmlConfigTool.FinderConfiguration | XmlConfigTool/XmlConfigTool/XmlConfigTool.cs:115-118 | only the first default name changes; path and cache stay valid |
| ConfigTool.XmlConfigTool.AddSegments | XmlConfigTool/XmlConfigTool/XmlConfigTool.cs:134-138 | the segments are appended in the order given after the existing path, and the file is reloaded |
| ConfigTool.XmlConfigTool.AddSegment | XmlConfigTool/XmlConfigTool/XmlConfigTool.cs:124-128 | one segment is appended after the existing path, and the file is reloaded |
| ConfigTool.XmlConfigTool.Save | XmlConfigTool/XmlConfigTool/XmlConfigTool.cs:303 | the file now holds the in-memory tree |
| ConfigTool.XmlConfigTool.AppendNode | XmlConfigTool/XmlConfigTool/XmlConfigTool.cs:264-272 | with the section present, the node becomes its last child and nothing else changes; with it missing, it fails and nothing changes |
| ConfigTool.XmlConfigTool.GetValue | XmlConfigTool/XmlConfigTool/XmlConfigTool.cs:318-322 | the file is reloaded, discarding unsaved edits. The result is the value of the first cached record with the key, or `None` |
| ConfigTool.XmlConfigTool.SaveAndReload | XmlConfigTool/XmlConfigTool/XmlConfigTool.cs:303-304 | the file becomes the tree and the cache its derivation |
| ConfigTool.XmlConfigTool.RewriteSection | XmlConfigTool/XmlConfigTool/XmlConfigTool.cs:330-401 | with the section missing, an error and nothing changed. Otherwise the section holds `RewriteAll`'s children. When no child failed, they are saved and cached; otherwise an error with file and cache as before |
| ConfigTool.XmlConfigTool.SetValue | XmlConfigTool/XmlConfigTool/XmlConfigTool.cs:330-356 | as `RewriteSection` with the two-argument rewrite |
| ConfigTool.XmlConfigTool.SetValueRemarks | XmlConfigTool/XmlConfigTool/XmlConfigTool.cs:365-401 | as `RewriteSection` with the rewrite that also sets `remarks` |
| ConfigTool.XmlConfigTool.AddConfig | XmlConfigTool/XmlConfigTool/XmlConfigTool.cs:442-460 | the old children are kept and one `add` with `key` and `value` is appended at the end, saved and cached; with the section missing, an error and nothing changed |
| ConfigTool.XmlConfigTool.AddConfigRemarks | XmlConfigTool/XmlConfigTool/XmlConfigTool.cs:410-434 | the old children are kept. A non-empty remark appends a comment with its text and then an `add` carrying `remarks`. An empty one appends as the two-argument form. The result is saved and cached; with the section missing, an error and nothing changed |
| ConfigTool.XmlConfigTool.DelConfig | XmlConfigTool/XmlConfigTool/XmlConfigTool.cs:467-492 | the section becomes `RemoveFirstKeyed` of its children, so only a matching `add` is removed and every other child stays in order; the result is saved and cached; with the section missing, an error and nothing changed |
| ConfigTool.XmlConfigTool.AppendImports | XmlConfigTool/XmlConfigTool/XmlConfigTool.cs:284-301 | the loop appends the imported elements behind the old children in fragment order. It succeeds exactly when the fragment has no top-level comment and the section is present or nothing is to be appended. With the section missing, the tree is unchanged |
| ConfigTool.XmlConfigTool.AddXmlStr | XmlConfigTool/XmlConfigTool/XmlConfigTool.cs:279-311 | the section becomes the old children followed by the imported elements. In full this is saved and cached; after a top-level comment it is an error with file and cache as before. A fragment with nothing to import (also one that does not parse) saves and succeeds even when the section is missing |

## Left out

- Reading and writing files, and parsing or serialising XML text, belong to the XML library. The file is a stored tree (`None` when it cannot be read or parsed), and a fragment is an already parsed tree.
- ConfigTool.XmlConfigTool.Save: never fails in the model. `XmlDocument.Save` throws on a document without a root element, so `AddXmlStr` with nothing to import on a file that could not be read returns an error in the C# class where the model says `Success`. Writing a comment whose text contains `--` or ends in `-` also throws, so `AddConfigRemarks` with such a remark fails at the save after both nodes were appended in memory, where the model says saved and cached. Serialisation rules of the XML writer are not modelled.
- Paths and the current directory are left out: the path strings, `_defaultPath`, the constructors that build a path from `Directory.GetCurrentDirectory()`, `Load()` and `Load(path, type)`. A load of another file is `SwitchFile`.
- The parameterless constructor is left out. It leaves the file path unset and the shared document possibly null, so every later call depends on other instances.
- `_XmlDocument` and `_ConfigList` are static in the C# class, so instances interfere. Each model object owns its own tree and cache.
- Exception texts (`ex.ToString()`) are the single value `Error`.
- `SelectSingleNode` is modelled only for plain element names, the only use in the class.
- ConfigTool.XmlConfigTool.DelConfig: models the enumeration of the section's children as stepping through `NextSibling`, which a node detached by `RemoveChild` no longer has; so only the first matching `add` is removed and later duplicates of the key stay. The postcondition also states `OnlyKeyedRemoved`, which holds as well for a loop that would remove every match (`RemoveKeyedOnlyRemovesKeyed`).
- ConfigTool.XmlConfigTool.AddXmlStr: a top-level comment of the fragment is modelled as an error. `AddXmlStr` appends the fragment's own node to another document, where the XML library refuses it; the copy it creates is never used.
- ConfigTool.XmlConfigTool.GetValue: a key with no record gives `None`, where `GetValue` throws a null-reference exception to the caller.
- A processing instruction whose target is `add` would pass the name test of SetValue and DelConfig and then throw on its missing attributes. All non-element, non-comment nodes are `Other` and never named `add`.
- Attribute order in the file is not modelled (attributes are a map), nor is whitespace or any node kind beyond element, comment and other.
- C# null strings are not modelled. A null remark given to `AddConfig` behaves like `""`, which is the case the model has.
- The no-op `ConfigList` setter and the `PathType` enumeration have no model.
