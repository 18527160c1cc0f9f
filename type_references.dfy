/** The type-reference checker. It collects the names of the types declared
    in the loaded documents ("::"-qualified by their enclosing named modules,
    bare outside modules), collects every type reference with the chain of
    named modules around it, and reports the references that resolve to no
    collected name, grouped by the referenced string. */
module TypeReferences {
  import opened Wrappers
  import opened XmlTree
  import opened Names
  import opened Report

  const TypeTags: seq<string> := ["struct", "enum", "union", "bitset", "bitmask", "typedef", "exception"]
  const ModuleTag: string := "module"
  /** The attributes that reference a type, in the order they are read. */
  const RefAttrs: seq<string> := ["type_ref", "nonBasicTypeName", "baseType"]

  predicate IsTypeTag(tag: string) {
    tag in TypeTags
  }

  // =====================================================================
  // collect_types_in_module

  /** The qualified names of the named elements of `cs` tagged `tag`. */
  function NamedChildren(cs: seq<Node>, tag: string, path: seq<string>): set<string>
  {
    if cs == [] then {}
    else
      var c := cs[|cs| - 1];
      NamedChildren(cs[..|cs| - 1], tag, path)
        + (if c.tag == tag && Name(c).Some? then {Join(path + [Name(c).value])} else {})
  }

  /** The qualified names of the named elements of `cs` tagged with one of `tags`. */
  function DirectTypes(cs: seq<Node>, tags: seq<string>, path: seq<string>): set<string>
  {
    if tags == [] then {}
    else DirectTypes(cs, tags[..|tags| - 1], path) + NamedChildren(cs, tags[|tags| - 1], path)
  }

  /** What walking module `m` at `path` adds: its own types, then those of
      its named sub-modules, each walked at the path extended by its name. */
  function ModuleTypes(m: Node, path: seq<string>): set<string>
    decreases m, 1
  {
    DirectTypes(m.children, TypeTags, path) + SubmoduleTypes(m, path, |m.children|)
  }

  function SubmoduleTypes(m: Node, path: seq<string>, i: nat): set<string>
    requires i <= |m.children|
    decreases m, 0, i
  {
    if i == 0 then {}
    else
      var c := m.children[i - 1];
      SubmoduleTypes(m, path, i - 1)
        + (if c.tag == ModuleTag && Name(c).Some? then ModuleTypes(c, path + [Name(c).value]) else {})
  }

  /** `c` is a named type element whose qualified name at `path` is `q`. */
  predicate DeclaresType(c: Node, path: seq<string>, q: string) {
    IsTypeTag(c.tag) && Name(c).Some? && q == Join(path + [Name(c).value])
  }

  /** `c` is a named module whose walk at `path` extended by its name adds `q`. */
  predicate NestsType(c: Node, path: seq<string>, q: string) {
    c.tag == ModuleTag && Name(c).Some? && q in ModuleTypes(c, path + [Name(c).value])
  }

  lemma {:induction false} NamedChildrenMember(cs: seq<Node>, tag: string, path: seq<string>, q: string)
    ensures q in NamedChildren(cs, tag, path) <==>
      exists c :: c in cs && c.tag == tag && Name(c).Some? && q == Join(path + [Name(c).value])
  {
    if cs != [] {
      var init := cs[..|cs| - 1];
      NamedChildrenMember(init, tag, path, q);
      assert forall c :: c in cs <==> c in init || c == cs[|cs| - 1];
    }
  }

  lemma {:induction false} DirectTypesMember(cs: seq<Node>, tags: seq<string>, path: seq<string>, q: string)
    ensures q in DirectTypes(cs, tags, path) <==>
      exists c :: c in cs && c.tag in tags && Name(c).Some? && q == Join(path + [Name(c).value])
  {
    if tags != [] {
      var init := tags[..|tags| - 1];
      var last := tags[|tags| - 1];
      DirectTypesMember(cs, init, path, q);
      NamedChildrenMember(cs, last, path, q);
      assert forall t :: t in tags <==> t in init || t == last;
    }
  }

  lemma {:induction false} SubmoduleTypesMember(m: Node, path: seq<string>, i: nat, q: string)
    requires i <= |m.children|
    ensures q in SubmoduleTypes(m, path, i) <==>
      exists j :: 0 <= j < i && NestsType(m.children[j], path, q)
  {
    if i > 0 {
      SubmoduleTypesMember(m, path, i - 1, q);
    }
  }

  /** `collect_types_in_module` adds exactly the qualified names of the
      named type elements that are direct children of the module, and
      what the walks of its named direct sub-modules add. */
  lemma ModuleTypesMember(m: Node, path: seq<string>, q: string)
    ensures q in ModuleTypes(m, path) <==>
      (exists c :: c in m.children && DeclaresType(c, path, q))
      || (exists c :: c in m.children && NestsType(c, path, q))
  {
    DirectTypesMember(m.children, TypeTags, path, q);
    SubmoduleTypesMember(m, path, |m.children|, q);
    if exists c :: c in m.children && NestsType(c, path, q) {
      var c :| c in m.children && NestsType(c, path, q);
      var j :| 0 <= j < |m.children| && m.children[j] == c;
      assert NestsType(m.children[j], path, q);
    }
  }

  /** Every name the walk of a module at a non-empty `path` adds is
      qualified by that whole path. */
  lemma {:induction false} ModuleTypesQualified(m: Node, path: seq<string>, q: string)
    requires |path| > 0
    requires q in ModuleTypes(m, path)
    ensures StartsWith(q, Join(path) + Sep)
    decreases m
  {
    ModuleTypesMember(m, path, q);
    if exists c :: c in m.children && DeclaresType(c, path, q) {
      var c :| c in m.children && DeclaresType(c, path, q);
      JoinSnoc(path, Name(c).value);
    } else {
      var c :| c in m.children && NestsType(c, path, q);
      var inner := path + [Name(c).value];
      ModuleTypesQualified(c, inner, q);
      JoinSnoc(path, Name(c).value);
      assert (Join(inner) + Sep)[..|Join(path) + Sep|] == Join(path) + Sep;
    }
  }

  /** `collect_types_in_module(module_elem, module_path, defined_types)`. */
  method CollectTypesInModule(moduleElem: Node, modulePath: seq<string>, definedTypes: set<string>)
    returns (result: set<string>)
    ensures result == definedTypes + ModuleTypes(moduleElem, modulePath)
    decreases moduleElem
  {
    result := definedTypes;
    for k := 0 to |TypeTags|
      invariant result == definedTypes + DirectTypes(moduleElem.children, TypeTags[..k], modulePath)
    {
      var tag := TypeTags[k];
      for j := 0 to |moduleElem.children|
        invariant result == definedTypes + DirectTypes(moduleElem.children, TypeTags[..k], modulePath)
                            + NamedChildren(moduleElem.children[..j], tag, modulePath)
      {
        var t := moduleElem.children[j];
        assert moduleElem.children[..j + 1][..j] == moduleElem.children[..j];
        if t.tag == tag {
          var typeName := Name(t);
          if typeName.Some? {
            result := result + {Join(modulePath + [typeName.value])};
          }
        }
      }
      assert moduleElem.children[..|moduleElem.children|] == moduleElem.children;
      assert TypeTags[..k + 1][..k] == TypeTags[..k];
    }
    assert TypeTags[..|TypeTags|] == TypeTags;
    for j := 0 to |moduleElem.children|
      invariant result == definedTypes + DirectTypes(moduleElem.children, TypeTags, modulePath)
                          + SubmoduleTypes(moduleElem, modulePath, j)
    {
      var submodule := moduleElem.children[j];
      if submodule.tag == ModuleTag {
        var submoduleName := Name(submodule);
        if submoduleName.Some? {
          result := CollectTypesInModule(submodule, modulePath + [submoduleName.value], result);
        }
      }
    }
  }

  // =====================================================================
  // get_type_names

  /** A document whose root is a named module walks it with its name as path. */
  function RootModuleTypes(root: Node): set<string> {
    if root.tag == ModuleTag && Name(root).Some? then ModuleTypes(root, [Name(root).value]) else {}
  }

  /** `v` is a named module whose parent is not a module and whose walk,
      restarted at its own name, adds `q`. */
  predicate RestartsModule(v: Visit, q: string) {
    v.elem.tag == ModuleTag && !ParentTagIs(v, ModuleTag) && Name(v.elem).Some?
    && q in ModuleTypes(v.elem, [Name(v.elem).value])
  }

  /** `v` is a named type element whose parent is not a module, named `q`. */
  predicate DeclaresGlobalType(v: Visit, q: string) {
    IsTypeTag(v.elem.tag) && !ParentTagIs(v, ModuleTag) && Name(v.elem) == Some(q)
  }

  function OuterModuleTypes(vs: seq<Visit>): set<string>
  {
    if vs == [] then {}
    else
      var v := vs[|vs| - 1];
      OuterModuleTypes(vs[..|vs| - 1])
        + (if v.elem.tag == ModuleTag && !ParentTagIs(v, ModuleTag) && Name(v.elem).Some?
           then ModuleTypes(v.elem, [Name(v.elem).value]) else {})
  }

  function GlobalTypesOfTag(vs: seq<Visit>, tag: string): set<string>
  {
    if vs == [] then {}
    else
      var v := vs[|vs| - 1];
      GlobalTypesOfTag(vs[..|vs| - 1], tag)
        + (if v.elem.tag == tag && !ParentTagIs(v, ModuleTag) && Name(v.elem).Some? then {Name(v.elem).value} else {})
  }

  function GlobalTypes(vs: seq<Visit>, tags: seq<string>): set<string>
  {
    if tags == [] then {}
    else GlobalTypes(vs, tags[..|tags| - 1]) + GlobalTypesOfTag(vs, tags[|tags| - 1])
  }

  /** The names one parsed document contributes. */
  function DocumentTypes(root: Node): set<string> {
    var found := Descendants(root, []);
    RootModuleTypes(root) + OuterModuleTypes(found) + GlobalTypes(found, TypeTags)
  }

  /** The defined-type table of a list of files; a file that failed to
      parse contributes nothing. */
  function DefinedTypes(files: seq<SourceFile>): set<string>
  {
    if files == [] then {}
    else DefinedTypes(files[..|files| - 1]) + FileTypes(files[|files| - 1])
  }

  function FileTypes(f: SourceFile): set<string> {
    match f.root
    case None => {}
    case Some(root) => DocumentTypes(root)
  }

  lemma {:induction false} OuterModuleTypesMember(vs: seq<Visit>, q: string)
    ensures q in OuterModuleTypes(vs) <==> exists v :: v in vs && RestartsModule(v, q)
  {
    if vs != [] {
      var init, last := vs[..|vs| - 1], vs[|vs| - 1];
      OuterModuleTypesMember(init, q);
      assert vs == init + [last];
      if exists v :: v in vs && RestartsModule(v, q) {
        var v :| v in vs && RestartsModule(v, q);
        if v != last {
          assert v in init;
        }
        assert q in OuterModuleTypes(vs);
      }
      if q in OuterModuleTypes(init) {
        var v :| v in init && RestartsModule(v, q);
        assert v in vs;
      } else if q in OuterModuleTypes(vs) {
        assert RestartsModule(last, q);
      }
    }
  }

  lemma {:induction false} GlobalTypesOfTagMember(vs: seq<Visit>, tag: string, q: string)
    ensures q in GlobalTypesOfTag(vs, tag) <==>
      exists v :: v in vs && v.elem.tag == tag && !ParentTagIs(v, ModuleTag) && Name(v.elem) == Some(q)
  {
    if vs != [] {
      var init := vs[..|vs| - 1];
      GlobalTypesOfTagMember(init, tag, q);
      assert forall v :: v in vs <==> v in init || v == vs[|vs| - 1];
    }
  }

  lemma {:induction false} GlobalTypesMember(vs: seq<Visit>, tags: seq<string>, q: string)
    ensures q in GlobalTypes(vs, tags) <==>
      exists v :: v in vs && v.elem.tag in tags && !ParentTagIs(v, ModuleTag) && Name(v.elem) == Some(q)
  {
    if tags != [] {
      var init := tags[..|tags| - 1];
      var last := tags[|tags| - 1];
      GlobalTypesMember(vs, init, q);
      GlobalTypesOfTagMember(vs, last, q);
      assert forall t :: t in tags <==> t in init || t == last;
    }
  }

  /** A document defines exactly: the walk of its root when that is a named
      module; the walk of every named module whose parent is not a module,
      restarted at its own name; and the bare name of every named type
      element whose parent is not a module. */
  lemma DocumentTypesMember(root: Node, q: string)
    ensures q in DocumentTypes(root) <==>
      q in RootModuleTypes(root)
      || (exists v :: v in Descendants(root, []) && RestartsModule(v, q))
      || (exists v :: v in Descendants(root, []) && DeclaresGlobalType(v, q))
  {
    var found := Descendants(root, []);
    OuterModuleTypesMember(found, q);
    GlobalTypesMember(found, TypeTags, q);
  }

  /** A named type whose parent is not a module is defined under its bare name. */
  lemma GlobalTypeDefined(root: Node, v: Visit)
    requires v in Descendants(root, [])
    requires IsTypeTag(v.elem.tag) && !ParentTagIs(v, ModuleTag) && Name(v.elem).Some?
    ensures Name(v.elem).value in DocumentTypes(root)
  {
    DocumentTypesMember(root, Name(v.elem).value);
  }

  /** A named module below the root whose parent is not a module has its
      types defined under paths that restart at its own name. */
  lemma RestartedModuleDefined(root: Node, v: Visit)
    requires v in Descendants(root, [])
    requires v.elem.tag == ModuleTag && !ParentTagIs(v, ModuleTag) && Name(v.elem).Some?
    ensures ModuleTypes(v.elem, [Name(v.elem).value]) <= DocumentTypes(root)
  {
    forall q | q in ModuleTypes(v.elem, [Name(v.elem).value])
      ensures q in DocumentTypes(root)
    {
      assert RestartsModule(v, q);
      DocumentTypesMember(root, q);
    }
  }

  /** An unnamed module hides the types reached from it through module
      parents only: in
      `<types><module name="A"><module><struct name="T"/></module></module></types>`
      the walk of `A` skips the unnamed module, the restart loop skips it
      because its parent is a module, and the global loop skips `T` for the
      same reason, so the document defines nothing. A reference next to `T`
      still carries the module path `["A"]`. */
  lemma UnnamedModuleHidesTypes()
    ensures
      var t := Node("struct", map["name" := "T"], [], None);
      var u := Node(ModuleTag, map[], [t], None);
      var a := Node(ModuleTag, map["name" := "A"], [u], None);
      var root := Node("types", map[], [a], None);
      DocumentTypes(root) == {} && ModuleNames([root, a, u]) == ["A"]
  {
    var t := Node("struct", map["name" := "T"], [], None);
    var u := Node(ModuleTag, map[], [t], None);
    var a := Node(ModuleTag, map["name" := "A"], [u], None);
    var root := Node("types", map[], [a], None);
    var va, vu, vt := Visit(a, [root]), Visit(u, [root, a]), Visit(t, [root, a, u]);
    assert [] + [root] == [root] && [root] + [a] == [root, a] && [root, a] + [u] == [root, a, u];
    assert Descendants(t, [root, a, u]) == [];
    assert ChildVisits(u, [root, a], 1) == [];
    assert Descendants(u, [root, a]) == [vt] + [] + [];
    assert ChildVisits(a, [root], 1) == [];
    assert Descendants(a, [root]) == [vu] + [vt] + [];
    assert ChildVisits(root, [], 1) == [];
    assert Descendants(root, []) == [va] + [vu, vt] + [];
    assert Name(u).None? && a.children == [u];
    forall q
      ensures q !in ModuleTypes(a, ["A"])
    {
      ModuleTypesMember(a, ["A"], q);
    }
    assert ParentTagIs(vu, ModuleTag) && ParentTagIs(vt, ModuleTag);
    forall q
      ensures q !in DocumentTypes(root)
    {
      DocumentTypesMember(root, q);
    }
    assert ModuleNames([u]) == [];
    assert ModuleNames([a, u]) == ["A"] + ModuleNames([u]);
    assert ModuleNames([root, a, u]) == [] + ModuleNames([a, u]);
  }

  lemma {:induction false} DefinedTypesMember(files: seq<SourceFile>, q: string)
    ensures q in DefinedTypes(files) <==>
      exists f :: f in files && f.root.Some? && q in DocumentTypes(f.root.value)
  {
    if files != [] {
      var init := files[..|files| - 1];
      DefinedTypesMember(init, q);
      assert forall f :: f in files <==> f in init || f == files[|files| - 1];
    }
  }

  /** The defined-type table does not depend on the order of the files, and
      a file that failed to parse adds nothing to it. */
  lemma DefinedTypesOrderFree(files: seq<SourceFile>, others: seq<SourceFile>)
    requires forall f :: f in others ==> f in files || f.root.None?
    requires forall f :: f in files ==> f in others || f.root.None?
    ensures DefinedTypes(files) == DefinedTypes(others)
  {
    forall q
      ensures q in DefinedTypes(files) <==> q in DefinedTypes(others)
    {
      DefinedTypesMember(files, q);
      DefinedTypesMember(others, q);
    }
  }

  /** The second pass of `get_type_names` over one document: every named
      module whose parent is not a module is walked from its own name. */
  method AddOuterModuleTypes(found: seq<Visit>, definedTypes: set<string>) returns (result: set<string>)
    ensures result == definedTypes + OuterModuleTypes(found)
  {
    result := definedTypes;
    for j := 0 to |found|
      invariant result == definedTypes + OuterModuleTypes(found[..j])
    {
      var m := found[j];
      assert found[..j + 1][..j] == found[..j] && found[..j + 1][j] == m;
      if m.elem.tag == ModuleTag && !ParentTagIs(m, ModuleTag) {
        var moduleName := Name(m.elem);
        if moduleName.Some? {
          result := CollectTypesInModule(m.elem, [moduleName.value], result);
        }
      }
    }
    assert found[..|found|] == found;
  }

  /** The third pass of `get_type_names` over one document: every named
      element of a type tag whose parent is not a module adds its bare name. */
  method AddGlobalTypes(found: seq<Visit>, definedTypes: set<string>) returns (result: set<string>)
    ensures result == definedTypes + GlobalTypes(found, TypeTags)
  {
    result := definedTypes;
    for k := 0 to |TypeTags|
      invariant result == definedTypes + GlobalTypes(found, TypeTags[..k])
    {
      var tag := TypeTags[k];
      ghost var before := result;
      for j := 0 to |found|
        invariant result == before + GlobalTypesOfTag(found[..j], tag)
      {
        var t := found[j];
        assert found[..j + 1][..j] == found[..j] && found[..j + 1][j] == t;
        if t.elem.tag == tag && !ParentTagIs(t, ModuleTag) {
          var typeName := Name(t.elem);
          if typeName.Some? {
            result := result + {typeName.value};
          }
        }
      }
      assert found[..|found|] == found;
      assert TypeTags[..k + 1][..k] == TypeTags[..k] && TypeTags[..k + 1][k] == tag;
    }
    assert TypeTags[..|TypeTags|] == TypeTags;
  }

  /** `get_type_names(xml_files)`. */
  method GetTypeNames(files: seq<SourceFile>) returns (definedTypes: set<string>)
    ensures definedTypes == DefinedTypes(files)
  {
    definedTypes := {};
    for f := 0 to |files|
      invariant definedTypes == DefinedTypes(files[..f])
    {
      assert files[..f + 1][..f] == files[..f] && files[..f + 1][f] == files[f];
      assert DefinedTypes(files[..f + 1]) == DefinedTypes(files[..f]) + FileTypes(files[f]);
      match files[f].root
      case None =>
        // ET.parse raised: the error is reported and the file skipped
      case Some(root) =>
        ghost var before := definedTypes;
        if root.tag == ModuleTag {
          var moduleName := Name(root);
          if moduleName.Some? {
            definedTypes := CollectTypesInModule(root, [moduleName.value], definedTypes);
          }
        }
        assert definedTypes == before + RootModuleTypes(root);
        var found := Descendants(root, []);
        definedTypes := AddOuterModuleTypes(found, definedTypes);
        definedTypes := AddGlobalTypes(found, definedTypes);
    }
    assert files[..|files|] == files;
  }

  // =====================================================================
  // find_type_references

  /** One type reference: the raw attribute value, where it was found, and
      the names of the named modules around it, outermost first. */
  datatype TypeReference = TypeReference(
    referencedType: string,
    file: string,
    tagName: string,
    line: Option<int>,
    elemName: Option<string>,
    modulePath: seq<string>)

  /** The names of the named modules among `ancestors`, in order. */
  function ModuleNames(ancestors: seq<Node>): seq<string>
  {
    if ancestors == [] then []
    else
      var a := ancestors[0];
      (if a.tag == ModuleTag && Name(a).Some? then [Name(a).value] else []) + ModuleNames(ancestors[1..])
  }

  /** A name is in the module path exactly when some ancestor is a module
      with that name. */
  lemma {:induction false} ModuleNamesMember(ancestors: seq<Node>, s: string)
    ensures s in ModuleNames(ancestors) <==>
      exists a :: a in ancestors && a.tag == ModuleTag && Name(a) == Some(s)
  {
    if ancestors != [] {
      ModuleNamesMember(ancestors[1..], s);
      assert forall a :: a in ancestors <==> a == ancestors[0] || a in ancestors[1..];
    }
  }

  /** The path keeps the order of the chain: the names of an outer part of
      the chain come before those of the inner part. */
  lemma {:induction false} ModuleNamesConcat(outer: seq<Node>, inner: seq<Node>)
    ensures ModuleNames(outer + inner) == ModuleNames(outer) + ModuleNames(inner)
    decreases |outer|
  {
    if outer == [] {
      assert outer + inner == inner;
    } else {
      var a := outer[0];
      var own := if a.tag == ModuleTag && Name(a).Some? then [Name(a).value] else [];
      ModuleNamesConcat(outer[1..], inner);
      assert (outer + inner)[0] == a && (outer + inner)[1..] == outer[1..] + inner;
      assert ModuleNames(outer + inner) == own + ModuleNames(outer[1..] + inner);
      assert ModuleNames(outer) == own + ModuleNames(outer[1..]);
    }
  }

  /** The module path of anything found below a named root module starts
      with the root's name: the walk up does not stop below the root. */
  lemma ModulePathStartsAtRoot(root: Node, v: Visit)
    requires v in Descendants(root, [])
    requires root.tag == ModuleTag && Name(root).Some?
    ensures |ModuleNames(v.ancestors)| > 0 && ModuleNames(v.ancestors)[0] == Name(root).value
  {
    DescendantShape(root, [], v);
  }

  /** The `while parent is not None` walk of `find_type_references`: from
      the parent up to the root, each named module's name is put in front. */
  method EnclosingModules(t: Visit) returns (modulePath: seq<string>)
    ensures modulePath == ModuleNames(t.ancestors)
  {
    modulePath := [];
    var k := |t.ancestors|;
    while k > 0
      invariant 0 <= k <= |t.ancestors|
      invariant modulePath == ModuleNames(t.ancestors[k..])
    {
      k := k - 1;
      var parent := t.ancestors[k];
      assert t.ancestors[k..][1..] == t.ancestors[k + 1..];
      if parent.tag == ModuleTag {
        var moduleName := Name(parent);
        if moduleName.Some? {
          modulePath := [moduleName.value] + modulePath;
        }
      }
    }
    assert t.ancestors[0..] == t.ancestors;
  }

  /** `v`, a type element of `file`, emits `r` through attribute `attr`. */
  predicate Emits(file: string, v: Visit, attr: string, r: TypeReference) {
    Attr(v.elem, attr).Some?
    && r == TypeReference(Attr(v.elem, attr).value, file, v.elem.tag, v.elem.line, Name(v.elem), ModuleNames(v.ancestors))
  }

  /** The records one element emits, one per non-empty attribute of `attrs`, in order. */
  function ReferencesAt(file: string, v: Visit, attrs: seq<string>): seq<TypeReference>
  {
    if attrs == [] then []
    else
      var a := attrs[|attrs| - 1];
      ReferencesAt(file, v, attrs[..|attrs| - 1])
        + (if Attr(v.elem, a).Some?
           then [TypeReference(Attr(v.elem, a).value, file, v.elem.tag, v.elem.line, Name(v.elem), ModuleNames(v.ancestors))]
           else [])
  }

  function ReferencesOfTag(file: string, vs: seq<Visit>, tag: string): seq<TypeReference>
  {
    if vs == [] then []
    else
      var v := vs[|vs| - 1];
      ReferencesOfTag(file, vs[..|vs| - 1], tag) + (if v.elem.tag == tag then ReferencesAt(file, v, RefAttrs) else [])
  }

  function DocumentReferences(file: string, vs: seq<Visit>, tags: seq<string>): seq<TypeReference>
  {
    if tags == [] then []
    else DocumentReferences(file, vs, tags[..|tags| - 1]) + ReferencesOfTag(file, vs, tags[|tags| - 1])
  }

  /** The reference list of a list of files, in file order, then tag order,
      then document order, then attribute order. */
  function ReferencesIn(files: seq<SourceFile>): seq<TypeReference>
  {
    if files == [] then []
    else ReferencesIn(files[..|files| - 1]) + FileReferences(files[|files| - 1])
  }

  /** The references one file contributes: none when it failed to parse. */
  function FileReferences(f: SourceFile): seq<TypeReference> {
    match f.root
    case None => []
    case Some(root) => DocumentReferences(f.name, Descendants(root, []), TypeTags)
  }

  lemma {:induction false} ReferencesAtMember(file: string, v: Visit, attrs: seq<string>, r: TypeReference)
    ensures r in ReferencesAt(file, v, attrs) <==> exists a :: a in attrs && Emits(file, v, a, r)
  {
    if attrs != [] {
      var init, last := attrs[..|attrs| - 1], attrs[|attrs| - 1];
      ReferencesAtMember(file, v, init, r);
      assert attrs == init + [last];
      if exists a :: a in attrs && Emits(file, v, a, r) {
        var a :| a in attrs && Emits(file, v, a, r);
        if a != last {
          assert a in init;
        }
        assert r in ReferencesAt(file, v, attrs);
      }
      if r in ReferencesAt(file, v, init) {
        var a :| a in init && Emits(file, v, a, r);
        assert a in attrs;
      } else if r in ReferencesAt(file, v, attrs) {
        assert Emits(file, v, last, r);
      }
    }
  }

  lemma {:induction false} ReferencesOfTagMember(file: string, vs: seq<Visit>, tag: string, r: TypeReference)
    ensures r in ReferencesOfTag(file, vs, tag) <==>
      exists v, a :: v in vs && v.elem.tag == tag && a in RefAttrs && Emits(file, v, a, r)
  {
    if vs != [] {
      var init := vs[..|vs| - 1];
      var last := vs[|vs| - 1];
      ReferencesOfTagMember(file, init, tag, r);
      ReferencesAtMember(file, last, RefAttrs, r);
      assert forall v :: v in vs <==> v in init || v == last;
    }
  }

  lemma {:induction false} DocumentReferencesMember(file: string, vs: seq<Visit>, tags: seq<string>, r: TypeReference)
    ensures r in DocumentReferences(file, vs, tags) <==>
      exists v, a :: v in vs && v.elem.tag in tags && a in RefAttrs && Emits(file, v, a, r)
  {
    if tags != [] {
      var init := tags[..|tags| - 1];
      var last := tags[|tags| - 1];
      DocumentReferencesMember(file, vs, init, r);
      ReferencesOfTagMember(file, vs, last, r);
      assert forall t :: t in tags <==> t in init || t == last;
    }
  }

  /** `find_type_references` records a reference for a non-empty
      `type_ref`, `nonBasicTypeName` or `baseType` attribute of a type
      element of a parsed file, carrying the names of the element's named
      module ancestors, and records nothing else. */
  lemma {:induction false} ReferencesInMember(files: seq<SourceFile>, r: TypeReference)
    ensures r in ReferencesIn(files) <==>
      exists f, v, a :: f in files && f.root.Some? && v in Descendants(f.root.value, [])
        && IsTypeTag(v.elem.tag) && a in RefAttrs && Emits(f.name, v, a, r)
  {
    if files != [] {
      var init := files[..|files| - 1];
      var last := files[|files| - 1];
      ReferencesInMember(init, r);
      if last.root.Some? {
        DocumentReferencesMember(last.name, Descendants(last.root.value, []), TypeTags, r);
      }
      assert forall f :: f in files <==> f in init || f == last;
    }
  }

  /** The inner loop of `find_type_references` over one type element:
      one record per non-empty reference attribute, in attribute order. */
  method AddElementReferences(fileName: string, t: Visit, refs: seq<TypeReference>) returns (result: seq<TypeReference>)
    ensures result == refs + ReferencesAt(fileName, t, RefAttrs)
  {
    var modulePath := EnclosingModules(t);
    result := refs;
    for a := 0 to |RefAttrs|
      invariant result == refs + ReferencesAt(fileName, t, RefAttrs[..a])
    {
      assert RefAttrs[..a + 1][..a] == RefAttrs[..a] && RefAttrs[..a + 1][a] == RefAttrs[a];
      var typeRef := Attr(t.elem, RefAttrs[a]);
      if typeRef.Some? {
        result := result + [TypeReference(typeRef.value, fileName, t.elem.tag, t.elem.line, Name(t.elem), modulePath)];
      }
    }
    assert RefAttrs[..|RefAttrs|] == RefAttrs;
  }

  /** The element loop of `find_type_references` for one tag. */
  method AddTagReferences(fileName: string, found: seq<Visit>, tag: string, refs: seq<TypeReference>)
    returns (result: seq<TypeReference>)
    ensures result == refs + ReferencesOfTag(fileName, found, tag)
  {
    result := refs;
    for j := 0 to |found|
      invariant result == refs + ReferencesOfTag(fileName, found[..j], tag)
    {
      var t := found[j];
      assert found[..j + 1][..j] == found[..j] && found[..j + 1][j] == t;
      if t.elem.tag == tag {
        result := AddElementReferences(fileName, t, result);
      }
    }
    assert found[..|found|] == found;
  }

  /** The tag loop of `find_type_references` over one parsed document. */
  method AddDocumentReferences(fileName: string, found: seq<Visit>, refs: seq<TypeReference>)
    returns (result: seq<TypeReference>)
    ensures result == refs + DocumentReferences(fileName, found, TypeTags)
  {
    result := refs;
    for k := 0 to |TypeTags|
      invariant result == refs + DocumentReferences(fileName, found, TypeTags[..k])
    {
      var tag := TypeTags[k];
      result := AddTagReferences(fileName, found, tag, result);
      assert TypeTags[..k + 1][..k] == TypeTags[..k] && TypeTags[..k + 1][k] == tag;
    }
    assert TypeTags[..|TypeTags|] == TypeTags;
  }

  /** `find_type_references(xml_files)`. */
  method FindTypeReferences(files: seq<SourceFile>) returns (refs: seq<TypeReference>)
    ensures refs == ReferencesIn(files)
  {
    refs := [];
    for f := 0 to |files|
      invariant refs == ReferencesIn(files[..f])
    {
      assert files[..f + 1][..f] == files[..f] && files[..f + 1][f] == files[f];
      assert ReferencesIn(files[..f + 1]) == ReferencesIn(files[..f]) + FileReferences(files[f]);
      var file := files[f];
      match file.root
      case None =>
        // ET.parse raised: the error is reported and the file skipped
      case Some(root) =>
        refs := AddDocumentReferences(file.name, Descendants(root, []), refs);
    }
    assert files[..|files|] == files;
  }

  // =====================================================================
  // is_defined

  /** The name tried at scope depth `i`: the first `i` names of the module
      path joined with the reference, or the bare reference at depth 0. */
  function Candidate(modulePath: seq<string>, i: nat, refName: string): string
    requires i <= |modulePath|
  {
    if modulePath[..i] == [] then refName else Join(modulePath[..i] + [refName])
  }

  /** The search `for i in range(i, -1, -1)`: the deepest depth at most `i`
      whose candidate is defined, or None when no depth is. */
  function InnermostScope(modulePath: seq<string>, refName: string, defined: set<string>, i: nat): (r: Option<nat>)
    requires i <= |modulePath|
    ensures r.Some? ==> r.value <= i && Candidate(modulePath, r.value, refName) in defined
    ensures r.Some? ==> forall j :: r.value < j <= i ==> Candidate(modulePath, j, refName) !in defined
    ensures r.None? ==> forall j :: 0 <= j <= i ==> Candidate(modulePath, j, refName) !in defined
    decreases i
  {
    if Candidate(modulePath, i, refName) in defined then Some(i)
    else if i == 0 then None
    else InnermostScope(modulePath, refName, defined, i - 1)
  }

  /** `is_defined(ref, defined)`: an absolute reference `::X` resolves
      exactly when `X` is defined; a relative one exactly when the reference,
      prefixed by some leading part of its module path (possibly none), is
      defined. */
  function IsDefined(ref: TypeReference, defined: set<string>): (r: bool)
    ensures StartsWith(Strip(ref.referencedType), Sep) ==>
      (r <==> Strip(ref.referencedType)[2..] in defined)
    ensures !StartsWith(Strip(ref.referencedType), Sep) ==>
      (r <==> exists i :: 0 <= i <= |ref.modulePath| && Candidate(ref.modulePath, i, Strip(ref.referencedType)) in defined)
  {
    var refName := Strip(ref.referencedType);
    if StartsWith(refName, Sep) then refName[2..] in defined
    else
      var scope := InnermostScope(ref.modulePath, refName, defined, |ref.modulePath|);
      assert scope.Some? ==> Candidate(ref.modulePath, scope.value, refName) in defined;
      scope.Some?
  }

  /** Whether an absolute reference `::X` resolves does not depend on the
      modules that enclose it. */
  lemma AbsoluteResolution(ref: TypeReference, defined: set<string>)
    requires StartsWith(Strip(ref.referencedType), Sep)
    ensures forall path :: IsDefined(ref.(modulePath := path), defined) == IsDefined(ref, defined)
  {
  }

  /** A relative name that is itself defined resolves from any module,
      through the bare-name try at depth 0. */
  lemma GlobalFallback(ref: TypeReference, defined: set<string>)
    requires !StartsWith(Strip(ref.referencedType), Sep)
    requires Strip(ref.referencedType) in defined
    ensures IsDefined(ref, defined)
  {
    assert Candidate(ref.modulePath, 0, Strip(ref.referencedType)) in defined;
  }

  /** Defining more names never makes a resolved reference unresolved. */
  lemma ResolutionMonotone(ref: TypeReference, defined: set<string>, more: set<string>)
    requires defined <= more
    requires IsDefined(ref, defined)
    ensures IsDefined(ref, more)
  {
    if !StartsWith(Strip(ref.referencedType), Sep) {
      var i :| 0 <= i <= |ref.modulePath| && Candidate(ref.modulePath, i, Strip(ref.referencedType)) in defined;
      assert Candidate(ref.modulePath, i, Strip(ref.referencedType)) in more;
    }
  }

  /** A type declared directly in a module walked at a non-empty `path` is
      found by its bare name from every reference whose module path starts
      with `path`. */
  lemma DeclaredTypeResolvesBelow(m: Node, path: seq<string>, c: Node, ref: TypeReference, defined: set<string>)
    requires |path| > 0 && ModuleTypes(m, path) <= defined
    requires c in m.children && IsTypeTag(c.tag) && Name(c).Some?
    requires |path| <= |ref.modulePath| && ref.modulePath[..|path|] == path
    requires Strip(ref.referencedType) == Name(c).value && !StartsWith(Name(c).value, Sep)
    ensures IsDefined(ref, defined)
  {
    var q := Join(path + [Name(c).value]);
    assert DeclaresType(c, path, q);
    ModuleTypesMember(m, path, q);
    assert Candidate(ref.modulePath, |path|, Name(c).value) == q;
  }

  /** The document
      `<module name="A"><foo><module name="M"><struct name="T" type_ref="T"/></module></foo></module>`. */
  function RestartExample(): Node {
    var t := Node("struct", map["name" := "T", "type_ref" := "T"], [], None);
    var m := Node(ModuleTag, map["name" := "M"], [t], None);
    Node(ModuleTag, map["name" := "A"], [Node("foo", map[], [m], None)], None)
  }

  /** The elements below the root of `RestartExample()`, in document order. */
  lemma RestartExampleVisits()
    ensures
      var a := RestartExample();
      var foo := a.children[0];
      var m := foo.children[0];
      var t := m.children[0];
      Descendants(a, []) == [Visit(foo, [a]), Visit(m, [a, foo]), Visit(t, [a, foo, m])]
  {
    var a := RestartExample();
    var foo := a.children[0];
    var m := foo.children[0];
    var t := m.children[0];
    var vfoo, vm, vt := Visit(foo, [a]), Visit(m, [a, foo]), Visit(t, [a, foo, m]);
    assert [] + [a] == [a] && [a] + [foo] == [a, foo] && [a, foo] + [m] == [a, foo, m];
    assert Descendants(t, [a, foo, m]) == [];
    assert ChildVisits(m, [a, foo], 1) == [];
    assert Descendants(m, [a, foo]) == [vt] + [] + [];
    assert ChildVisits(foo, [a], 1) == [];
    assert Descendants(foo, [a]) == [vm] + [vt] + [];
    assert ChildVisits(a, [], 1) == [];
    assert Descendants(a, []) == [vfoo] + [vm, vt] + [];
  }

  /** The walk of module `M` of `RestartExample()`, restarted at its own
      name, adds `M::T` and nothing else. */
  lemma RestartExampleInnerWalk()
    ensures ModuleTypes(RestartExample().children[0].children[0], ["M"]) == {"M::T"}
  {
    var m := RestartExample().children[0].children[0];
    var t := m.children[0];
    assert Join(["M", "T"]) == Join(["M"]) + Sep + "T" == "M::T";
    assert ["M"] + [Name(t).value] == ["M", "T"];
    assert IsTypeTag(t.tag);
    assert DeclaresType(t, ["M"], "M::T");
    forall q
      ensures q in ModuleTypes(m, ["M"]) <==> q == "M::T"
    {
      ModuleTypesMember(m, ["M"], q);
      assert !NestsType(t, ["M"], q);
      assert forall c :: c in m.children ==> c == t;
    }
  }

  /** The walk of the root module `A` of `RestartExample()` adds nothing:
      its one child is neither a type nor a module. */
  lemma RestartExampleOuterWalk()
    ensures ModuleTypes(RestartExample(), ["A"]) == {}
  {
    var a := RestartExample();
    forall q
      ensures q !in ModuleTypes(a, ["A"])
    {
      ModuleTypesMember(a, ["A"], q);
    }
  }

  /** `RestartExample()` defines `M::T` only. */
  lemma RestartExampleTypes()
    ensures DocumentTypes(RestartExample()) == {"M::T"}
  {
    var a := RestartExample();
    var foo := a.children[0];
    var m := foo.children[0];
    var t := m.children[0];
    var vfoo, vm, vt := Visit(foo, [a]), Visit(m, [a, foo]), Visit(t, [a, foo, m]);
    RestartExampleVisits();
    RestartExampleInnerWalk();
    RestartExampleOuterWalk();
    assert RootModuleTypes(a) == {};
    assert ParentTagIs(vm, "foo") && ParentTagIs(vt, ModuleTag);
    forall q
      ensures q in DocumentTypes(a) <==> q == "M::T"
    {
      assert !RestartsModule(vfoo, q) && !RestartsModule(vt, q);
      assert RestartsModule(vm, q) <==> q == "M::T";
      assert !DeclaresGlobalType(vfoo, q) && !DeclaresGlobalType(vm, q) && !DeclaresGlobalType(vt, q);
      assert forall v :: v in Descendants(a, []) ==> v == vfoo || v == vm || v == vt;
      DocumentTypesMember(a, q);
    }
  }

  /** The names tried for `T` from module path `A::M`. */
  lemma RestartedModuleCandidates()
    ensures Candidate(["A", "M"], 0, "T") == "T"
    ensures Candidate(["A", "M"], 1, "T") == "A::T"
    ensures Candidate(["A", "M"], 2, "T") == "A::M::T"
  {
    var path := ["A", "M"];
    assert path[..0] == [] && path[..1] == ["A"] && path[..2] == path;
    assert path[..1] + ["T"] == ["A", "T"] && path[..2] + ["T"] == ["A", "M", "T"];
    assert ["A", "T"][..1] == ["A"] && ["A", "M", "T"][..2] == ["A", "M"] && ["A", "M"][..1] == ["A"];
    assert Join(["A", "T"]) == Join(["A"]) + Sep + "T" == "A::T";
    assert Join(["A", "M"]) == Join(["A"]) + Sep + "M" == "A::M";
    assert Join(["A", "M", "T"]) == Join(["A", "M"]) + Sep + "T" == "A::M::T";
  }

  /** The definition path restarts at a module whose parent is not a
      module, but the reference path does not: in `RestartExample()` the
      document defines only `M::T`, the reference `T` on the struct has
      module path `["A", "M"]`, and none of its candidates `A::M::T`, `A::T`
      and `T` is defined. */
  lemma RestartedModuleHidesBareName()
    ensures
      var a := RestartExample();
      var foo := a.children[0];
      var m := foo.children[0];
      var ref := TypeReference("T", "", "struct", None, Some("T"), ModuleNames([a, foo, m]));
      && DocumentTypes(a) == {"M::T"}
      && ModuleNames([a, foo, m]) == ["A", "M"]
      && !IsDefined(ref, DocumentTypes(a))
  {
    var a := RestartExample();
    var foo := a.children[0];
    var m := foo.children[0];
    RestartExampleTypes();
    RestartExamplePath();
    RestartExampleUnresolved(TypeReference("T", "", "struct", None, Some("T"), ModuleNames([a, foo, m])), DocumentTypes(a));
  }

  /** A relative reference none of whose candidates is defined does not
      resolve. */
  lemma UnresolvedWithoutCandidate(ref: TypeReference, refName: string, defined: set<string>)
    requires refName == Strip(ref.referencedType) && !StartsWith(refName, Sep)
    requires forall i :: 0 <= i <= |ref.modulePath| ==> Candidate(ref.modulePath, i, refName) !in defined
    ensures !IsDefined(ref, defined)
  {
  }

  /** With only `M::T` defined, none of the names tried for `T` from
      module path `A::M` is defined. */
  lemma RestartExampleNoCandidate(path: seq<string>, defined: set<string>)
    requires path == ["A", "M"] && defined == {"M::T"}
    ensures forall i :: 0 <= i <= |path| ==> Candidate(path, i, "T") !in defined
  {
    forall i | 0 <= i <= |path|
      ensures Candidate(path, i, "T") !in defined
    {
      RestartedModuleCandidates();
      if i == 0 {
        assert Candidate(path, i, "T") == "T";
      } else if i == 1 {
        assert Candidate(path, i, "T") == "A::T";
      } else {
        assert Candidate(path, i, "T") == "A::M::T";
      }
    }
  }

  /** With only `M::T` defined, a reference `T` from module path `A::M`
      does not resolve. */
  lemma RestartExampleUnresolved(ref: TypeReference, defined: set<string>)
    requires ref.referencedType == "T" && ref.modulePath == ["A", "M"]
    requires defined == {"M::T"}
    ensures !IsDefined(ref, defined)
  {
    StripUnchanged("T");
    RestartExampleNoCandidate(ref.modulePath, defined);
    UnresolvedWithoutCandidate(ref, "T", defined);
  }

  /** The module path of the struct in `RestartExample()`. */
  lemma RestartExamplePath()
    ensures
      var a := RestartExample();
      var foo := a.children[0];
      ModuleNames([a, foo, foo.children[0]]) == ["A", "M"]
  {
    var a := RestartExample();
    var foo := a.children[0];
    var m := foo.children[0];
    assert ModuleNames([m]) == ["M"] + ModuleNames([]);
    assert ModuleNames([foo, m]) == [] + ModuleNames([m]);
    assert ModuleNames([a, foo, m]) == ["A"] + ModuleNames([foo, m]);
  }

  // =====================================================================
  // missing-reference grouping and report

  function OccurrenceOf(ref: TypeReference): Occurrence {
    Occurrence(ref.file, ref.tagName, ref.elemName, ref.line)
  }

  /** The unresolved references, filed under their raw referenced string. */
  function MissingSites(refs: seq<TypeReference>, defined: set<string>): seq<Site>
  {
    if refs == [] then []
    else
      var r := refs[|refs| - 1];
      MissingSites(refs[..|refs| - 1], defined)
        + (if !IsDefined(r, defined) then [Site(r.referencedType, OccurrenceOf(r))] else [])
  }

  /** The keys of the grouping are exactly the raw (unstripped) strings of
      the unresolved references. */
  lemma {:induction false} MissingKeys(refs: seq<TypeReference>, defined: set<string>, k: string)
    ensures k in Keys(MissingSites(refs, defined)) <==>
      exists r :: r in refs && !IsDefined(r, defined) && r.referencedType == k
  {
    if refs != [] {
      var init, last := refs[..|refs| - 1], refs[|refs| - 1];
      var extra := if !IsDefined(last, defined) then [Site(last.referencedType, OccurrenceOf(last))] else [];
      assert MissingSites(refs, defined) == MissingSites(init, defined) + extra;
      KeysConcat(MissingSites(init, defined), extra);
      MissingKeys(init, defined, k);
      if k in Keys(MissingSites(init, defined)) {
        var r :| r in init && !IsDefined(r, defined) && r.referencedType == k;
        assert r in refs;
      } else if k in Keys(extra) {
        assert last in refs;
      }
      if exists r :: r in refs && !IsDefined(r, defined) && r.referencedType == k {
        var r :| r in refs && !IsDefined(r, defined) && r.referencedType == k;
        if r != last {
          assert r in init;
        }
      }
    }
  }

  /** The `missing_refs` loop: each unresolved reference is appended under
      its raw referenced string. */
  method GroupMissingTypes(refs: seq<TypeReference>, defined: set<string>)
    returns (missingRefs: map<string, seq<Occurrence>>)
    ensures IsGrouping(missingRefs, MissingSites(refs, defined))
  {
    missingRefs := map[];
    for i := 0 to |refs|
      invariant IsGrouping(missingRefs, MissingSites(refs[..i], defined))
    {
      var ref := refs[i];
      ghost var sites := MissingSites(refs[..i], defined);
      assert refs[..i + 1][..i] == refs[..i] && refs[..i + 1][i] == ref;
      if !IsDefined(ref, defined) {
        var site := Site(ref.referencedType, OccurrenceOf(ref));
        assert MissingSites(refs[..i + 1], defined) == sites + [site];
        AppendGroups(missingRefs, sites, site);
        missingRefs := Append(missingRefs, site);
      } else {
        assert MissingSites(refs[..i + 1], defined) == sites;
      }
    }
    assert refs[..|refs|] == refs;
  }

  datatype TypeReport = AllTypesDefined | MissingTypes(groups: seq<Group>)

  /** The whole run: collect, resolve, group and list the unresolved
      references in sorted order, or report that all are defined. */
  method CheckTypeReferences(files: seq<SourceFile>) returns (report: TypeReport)
    ensures report.AllTypesDefined? <==> forall r :: r in ReferencesIn(files) ==> IsDefined(r, DefinedTypes(files))
    ensures report.MissingTypes? ==> ListsSites(report.groups, MissingSites(ReferencesIn(files), DefinedTypes(files)))
  {
    var definedTypes := GetTypeNames(files);
    var referencedTypes := FindTypeReferences(files);
    var missingRefs := GroupMissingTypes(referencedTypes, definedTypes);
    if missingRefs != map[] {
      var k :| k in missingRefs;
      MissingKeys(referencedTypes, definedTypes, k);
      var listed := ListGroups(missingRefs, MissingSites(referencedTypes, definedTypes));
      report := MissingTypes(listed);
    } else {
      forall r | r in referencedTypes
        ensures IsDefined(r, definedTypes)
      {
        MissingKeys(referencedTypes, definedTypes, r.referencedType);
      }
      report := AllTypesDefined;
    }
  }
}
