/** The QoS-profile checker: the names under which `qos_profile` elements are
    defined, the `base_name` values that refer to them, the references whose
    exact string is not defined, where those occur, and which defined names
    end with the same last segment. */
module QosReferences {
  import opened Wrappers
  import opened XmlTree
  import opened Names
  import opened Report

  const LibraryTag: string := "qos_library"
  const ProfileTag: string := "qos_profile"
  const BaseNameKey: string := "base_name"

  /** The elements whose `base_name` is read, in the order they are searched. */
  const BaseNameTags: seq<string> :=
    ["qos_profile", "datawriter_qos", "datareader_qos", "participant_qos", "publisher_qos", "subscriber_qos"]

  // =====================================================================
  // The defined set

  /** The name a profile is defined under through a library: `lib::prof`
      when the library has a name, the bare profile name otherwise. */
  function Qualify(libName: Option<string>, prof: string): string {
    if libName.Some? then libName.value + Sep + prof else prof
  }

  /** The names added by the named profiles among `ps`, found below a
      library whose name is `libName`. */
  function ProfilesUnder(libName: Option<string>, ps: seq<Visit>): set<string>
  {
    if ps == [] then {}
    else
      var p := ps[|ps| - 1];
      ProfilesUnder(libName, ps[..|ps| - 1])
        + (if p.elem.tag == ProfileTag && Name(p.elem).Some? then {Qualify(libName, Name(p.elem).value)} else {})
  }

  /** The names added by the library loop: every library among `vs`
      searches its own descendants for profiles. */
  function LibraryProfiles(vs: seq<Visit>): set<string>
  {
    if vs == [] then {}
    else
      var l := vs[|vs| - 1];
      LibraryProfiles(vs[..|vs| - 1])
        + (if l.elem.tag == LibraryTag then ProfilesUnder(Name(l.elem), Descendants(l.elem, l.ancestors)) else {})
  }

  /** The names added by the global loop: named profiles whose parent is
      not a library, under their bare name. */
  function GlobalProfiles(vs: seq<Visit>): set<string>
  {
    if vs == [] then {}
    else
      var p := vs[|vs| - 1];
      GlobalProfiles(vs[..|vs| - 1])
        + (if p.elem.tag == ProfileTag && !ParentTagIs(p, LibraryTag) && Name(p.elem).Some?
           then {Name(p.elem).value} else {})
  }

  /** The names one parsed document contributes. The root itself is never
      among the elements searched, so a root `qos_library` is not a library
      here. */
  function DocumentProfiles(root: Node): set<string> {
    var found := Descendants(root, []);
    LibraryProfiles(found) + GlobalProfiles(found)
  }

  /** The names one file contributes: none when it failed to parse. */
  function FileProfiles(f: SourceFile): set<string> {
    match f.root
    case None => {}
    case Some(root) => DocumentProfiles(root)
  }

  function DefinedProfiles(files: seq<SourceFile>): set<string>
  {
    if files == [] then {}
    else DefinedProfiles(files[..|files| - 1]) + FileProfiles(files[|files| - 1])
  }

  /** `l` is a library, and `p` a named profile below it that is defined as
      `q` through it. */
  predicate DefinesThroughLibrary(l: Visit, p: Visit, q: string) {
    l.elem.tag == LibraryTag && p in Descendants(l.elem, l.ancestors)
    && p.elem.tag == ProfileTag && Name(p.elem).Some? && q == Qualify(Name(l.elem), Name(p.elem).value)
  }

  /** `p` is a profile named `q` whose parent is not a library. */
  predicate DeclaresGlobalProfile(p: Visit, q: string) {
    p.elem.tag == ProfileTag && !ParentTagIs(p, LibraryTag) && Name(p.elem) == Some(q)
  }

  lemma {:induction false} ProfilesUnderMember(libName: Option<string>, ps: seq<Visit>, q: string)
    ensures q in ProfilesUnder(libName, ps) <==>
      exists p :: p in ps && p.elem.tag == ProfileTag && Name(p.elem).Some? && q == Qualify(libName, Name(p.elem).value)
  {
    if ps != [] {
      var init, last := ps[..|ps| - 1], ps[|ps| - 1];
      ProfilesUnderMember(libName, init, q);
      assert forall p :: p in ps <==> p in init || p == last;
    }
  }

  lemma {:induction false} LibraryProfilesMember(vs: seq<Visit>, q: string)
    ensures q in LibraryProfiles(vs) <==> exists l, p :: l in vs && DefinesThroughLibrary(l, p, q)
  {
    if vs != [] {
      var init, last := vs[..|vs| - 1], vs[|vs| - 1];
      LibraryProfilesMember(init, q);
      assert forall l :: l in vs <==> l in init || l == last;
      if last.elem.tag == LibraryTag {
        ProfilesUnderMember(Name(last.elem), Descendants(last.elem, last.ancestors), q);
      }
      if q in LibraryProfiles(vs) && q !in LibraryProfiles(init) {
        var p :| p in Descendants(last.elem, last.ancestors) && p.elem.tag == ProfileTag && Name(p.elem).Some?
                 && q == Qualify(Name(last.elem), Name(p.elem).value);
        assert DefinesThroughLibrary(last, p, q);
      }
      if exists l, p :: l in vs && DefinesThroughLibrary(l, p, q) {
        var l, p :| l in vs && DefinesThroughLibrary(l, p, q);
        if l != last {
          assert l in init;
        }
      }
    }
  }

  lemma {:induction false} GlobalProfilesMember(vs: seq<Visit>, q: string)
    ensures q in GlobalProfiles(vs) <==> exists p :: p in vs && DeclaresGlobalProfile(p, q)
  {
    if vs != [] {
      var init, last := vs[..|vs| - 1], vs[|vs| - 1];
      GlobalProfilesMember(init, q);
      assert forall p :: p in vs <==> p in init || p == last;
      if q in GlobalProfiles(vs) && q !in GlobalProfiles(init) {
        assert DeclaresGlobalProfile(last, q);
      }
      if exists p :: p in vs && DeclaresGlobalProfile(p, q) {
        var p :| p in vs && DeclaresGlobalProfile(p, q);
        if p != last {
          assert p in init;
        }
      }
    }
  }

  /** A document defines `q` exactly when `q` comes from a profile below one
      of its libraries or from a profile whose parent is not a library. */
  lemma DocumentProfilesMember(root: Node, q: string)
    ensures q in DocumentProfiles(root) <==>
      (exists l, p :: l in Descendants(root, []) && DefinesThroughLibrary(l, p, q))
      || (exists p :: p in Descendants(root, []) && DeclaresGlobalProfile(p, q))
  {
    LibraryProfilesMember(Descendants(root, []), q);
    GlobalProfilesMember(Descendants(root, []), q);
  }

  /** The defined set of a list of files is the union of what each parsed
      file defines; a file that failed to parse adds nothing, and the
      files after it still count. */
  lemma {:induction false} DefinedProfilesMember(files: seq<SourceFile>, q: string)
    ensures q in DefinedProfiles(files) <==> exists f :: f in files && q in FileProfiles(f)
  {
    if files != [] {
      var init, last := files[..|files| - 1], files[|files| - 1];
      DefinedProfilesMember(init, q);
      assert forall f :: f in files <==> f in init || f == last;
    }
  }

  /** A named profile anywhere below a library found in a parsed file is
      defined as `lib::prof` when the library is named, and under its bare
      name when it is not. */
  lemma LibraryProfileDefined(files: seq<SourceFile>, f: SourceFile, l: Visit, p: Visit)
    requires f in files && f.root.Some?
    requires l in Descendants(f.root.value, []) && l.elem.tag == LibraryTag
    requires p in Descendants(l.elem, l.ancestors) && p.elem.tag == ProfileTag && Name(p.elem).Some?
    ensures Name(l.elem).Some? ==> Name(l.elem).value + Sep + Name(p.elem).value in DefinedProfiles(files)
    ensures Name(l.elem).None? ==> Name(p.elem).value in DefinedProfiles(files)
  {
    var q := Qualify(Name(l.elem), Name(p.elem).value);
    assert DefinesThroughLibrary(l, p, q);
    DocumentProfilesMember(f.root.value, q);
    DefinedProfilesMember(files, q);
  }

  /** A named profile whose parent is not a library is defined under its
      bare name. */
  lemma GlobalProfileDefined(files: seq<SourceFile>, f: SourceFile, p: Visit)
    requires f in files && f.root.Some?
    requires p in Descendants(f.root.value, []) && p.elem.tag == ProfileTag && !ParentTagIs(p, LibraryTag)
    requires Name(p.elem).Some?
    ensures Name(p.elem).value in DefinedProfiles(files)
  {
    var q := Name(p.elem).value;
    assert DeclaresGlobalProfile(p, q);
    DocumentProfilesMember(f.root.value, q);
    DefinedProfilesMember(files, q);
  }

  /** A named profile below a named library but not directly in a library
      is defined both as `lib::prof` and under its bare name. */
  lemma NestedProfileBothForms(files: seq<SourceFile>, f: SourceFile, l: Visit, p: Visit)
    requires f in files && f.root.Some?
    requires l in Descendants(f.root.value, []) && l.elem.tag == LibraryTag && Name(l.elem).Some?
    requires p in Descendants(l.elem, l.ancestors) && p.elem.tag == ProfileTag && Name(p.elem).Some?
    requires !ParentTagIs(p, LibraryTag)
    ensures Name(l.elem).value + Sep + Name(p.elem).value in DefinedProfiles(files)
    ensures Name(p.elem).value in DefinedProfiles(files)
  {
    LibraryProfileDefined(files, f, l, p);
    DescendantsNest(f.root.value, [], l, p);
    GlobalProfileDefined(files, f, p);
  }

  /** A document whose root is itself a named library holding one named
      profile defines nothing: the library is never searched and the
      profile's parent is a library. */
  lemma RootLibraryDefinesNothing()
    ensures DocumentProfiles(
      Node(LibraryTag, map["name" := "Lib"], [Node(ProfileTag, map["name" := "Prof"], [], None)], None)) == {}
  {
    var prof := Node(ProfileTag, map["name" := "Prof"], [], None);
    var root := Node(LibraryTag, map["name" := "Lib"], [prof], None);
    var v := Visit(prof, [root]);
    assert [] + [root] == [root];
    assert Descendants(prof, [root]) == ChildVisits(prof, [root], 0) == [];
    assert ChildVisits(root, [], 1) == [];
    assert Descendants(root, []) == ChildVisits(root, [], 0) == [v] + [] + [];
    assert [v][..0] == [];
    assert LibraryProfiles([v]) == LibraryProfiles([]) == {};
    assert GlobalProfiles([v]) == GlobalProfiles([]) == {};
    assert [v][..0] == [];
    assert ParentTagIs(v, LibraryTag);
  }

  // ---------------------------------------------------------------------
  // The defined-set loops

  /** The library loop over one document. */
  method AddLibraryProfiles(found: seq<Visit>, defined: set<string>) returns (result: set<string>)
    ensures result == defined + LibraryProfiles(found)
  {
    result := defined;
    for i := 0 to |found|
      invariant result == defined + LibraryProfiles(found[..i])
    {
      var qlib := found[i];
      assert found[..i + 1][..i] == found[..i] && found[..i + 1][i] == qlib;
      if qlib.elem.tag == LibraryTag {
        var libName := Name(qlib.elem);
        var profiles := Descendants(qlib.elem, qlib.ancestors);
        ghost var before := result;
        for j := 0 to |profiles|
          invariant result == before + ProfilesUnder(libName, profiles[..j])
        {
          var prof := profiles[j];
          assert profiles[..j + 1][..j] == profiles[..j] && profiles[..j + 1][j] == prof;
          if prof.elem.tag == ProfileTag {
            var profName := Name(prof.elem);
            if libName.Some? && profName.Some? {
              result := result + {libName.value + Sep + profName.value};
            } else if profName.Some? {
              result := result + {profName.value};
            }
          }
        }
        assert profiles[..|profiles|] == profiles;
      }
    }
    assert found[..|found|] == found;
  }

  /** The global-profile loop over one document. */
  method AddGlobalProfiles(found: seq<Visit>, defined: set<string>) returns (result: set<string>)
    ensures result == defined + GlobalProfiles(found)
  {
    result := defined;
    for i := 0 to |found|
      invariant result == defined + GlobalProfiles(found[..i])
    {
      var prof := found[i];
      assert found[..i + 1][..i] == found[..i] && found[..i + 1][i] == prof;
      if prof.elem.tag == ProfileTag && !ParentTagIs(prof, LibraryTag) {
        var profName := Name(prof.elem);
        if profName.Some? {
          result := result + {profName.value};
        }
      }
    }
    assert found[..|found|] == found;
  }

  /** The first pass over the files: the `defined` set. */
  method CollectDefinedProfiles(files: seq<SourceFile>) returns (defined: set<string>)
    ensures defined == DefinedProfiles(files)
  {
    defined := {};
    for f := 0 to |files|
      invariant defined == DefinedProfiles(files[..f])
    {
      assert files[..f + 1][..f] == files[..f] && files[..f + 1][f] == files[f];
      assert DefinedProfiles(files[..f + 1]) == DefinedProfiles(files[..f]) + FileProfiles(files[f]);
      match files[f].root
      case None =>
        // the parse raised: the error is reported and the file skipped
      case Some(root) =>
        var found := Descendants(root, []);
        defined := AddLibraryProfiles(found, defined);
        defined := AddGlobalProfiles(found, defined);
    }
    assert files[..|files|] == files;
  }

  // =====================================================================
  // The referenced set

  function BaseNamesOfTag(vs: seq<Visit>, tag: string): set<string>
  {
    if vs == [] then {}
    else
      var v := vs[|vs| - 1];
      BaseNamesOfTag(vs[..|vs| - 1], tag)
        + (if v.elem.tag == tag && Attr(v.elem, BaseNameKey).Some? then {Attr(v.elem, BaseNameKey).value} else {})
  }

  function DocumentBaseNames(vs: seq<Visit>, tags: seq<string>): set<string>
  {
    if tags == [] then {}
    else DocumentBaseNames(vs, tags[..|tags| - 1]) + BaseNamesOfTag(vs, tags[|tags| - 1])
  }

  function FileBaseNames(f: SourceFile): set<string> {
    match f.root
    case None => {}
    case Some(root) => DocumentBaseNames(Descendants(root, []), BaseNameTags)
  }

  function ReferencedNames(files: seq<SourceFile>): set<string>
  {
    if files == [] then {}
    else ReferencedNames(files[..|files| - 1]) + FileBaseNames(files[|files| - 1])
  }

  /** `v` is one of the six element kinds and has `base_name` equal to the
      non-empty string `s`. */
  predicate RefersTo(v: Visit, s: string) {
    v.elem.tag in BaseNameTags && Attr(v.elem, BaseNameKey) == Some(s)
  }

  /** `f` parsed and some element of it refers to `s`. */
  predicate FileRefersTo(f: SourceFile, s: string) {
    f.root.Some? && exists v :: v in Descendants(f.root.value, []) && RefersTo(v, s)
  }

  lemma {:induction false} BaseNamesOfTagMember(vs: seq<Visit>, tag: string, s: string)
    ensures s in BaseNamesOfTag(vs, tag) <==>
      exists v :: v in vs && v.elem.tag == tag && Attr(v.elem, BaseNameKey) == Some(s)
  {
    if vs != [] {
      var init, last := vs[..|vs| - 1], vs[|vs| - 1];
      BaseNamesOfTagMember(init, tag, s);
      assert forall v :: v in vs <==> v in init || v == last;
    }
  }

  lemma {:induction false} DocumentBaseNamesMember(vs: seq<Visit>, tags: seq<string>, s: string)
    ensures s in DocumentBaseNames(vs, tags) <==>
      exists v :: v in vs && v.elem.tag in tags && Attr(v.elem, BaseNameKey) == Some(s)
  {
    if tags != [] {
      var init, tag := tags[..|tags| - 1], tags[|tags| - 1];
      DocumentBaseNamesMember(vs, init, s);
      BaseNamesOfTagMember(vs, tag, s);
      assert forall t :: t in tags <==> t in init || t == tag;
    }
  }

  /** `referenced` is exactly the set of non-empty `base_name` values on the
      six element kinds, over the files that parsed. */
  lemma {:induction false} ReferencedMember(files: seq<SourceFile>, s: string)
    ensures s in ReferencedNames(files) <==> exists f :: f in files && FileRefersTo(f, s)
  {
    if files != [] {
      var init, last := files[..|files| - 1], files[|files| - 1];
      ReferencedMember(init, s);
      assert forall f :: f in files <==> f in init || f == last;
      if last.root.Some? {
        var found := Descendants(last.root.value, []);
        DocumentBaseNamesMember(found, BaseNameTags, s);
        if s in FileBaseNames(last) {
          var v :| v in found && v.elem.tag in BaseNameTags && Attr(v.elem, BaseNameKey) == Some(s);
          assert RefersTo(v, s);
        }
        if FileRefersTo(last, s) {
          var v :| v in found && RefersTo(v, s);
          assert v.elem.tag in BaseNameTags && Attr(v.elem, BaseNameKey) == Some(s);
        }
      }
      if exists f :: f in files && FileRefersTo(f, s) {
        var f :| f in files && FileRefersTo(f, s);
        if f != last {
          assert f in init;
        }
      }
    }
  }

  /** An empty `base_name` is never a reference. */
  lemma NoEmptyReference(files: seq<SourceFile>)
    ensures "" !in ReferencedNames(files)
  {
    ReferencedMember(files, "");
  }

  /** The second pass over one document. */
  method AddBaseNames(found: seq<Visit>, referenced: set<string>) returns (result: set<string>)
    ensures result == referenced + DocumentBaseNames(found, BaseNameTags)
  {
    result := referenced;
    for k := 0 to |BaseNameTags|
      invariant result == referenced + DocumentBaseNames(found, BaseNameTags[..k])
    {
      var tag := BaseNameTags[k];
      ghost var before := result;
      for j := 0 to |found|
        invariant result == before + BaseNamesOfTag(found[..j], tag)
      {
        var t := found[j];
        assert found[..j + 1][..j] == found[..j] && found[..j + 1][j] == t;
        if t.elem.tag == tag {
          var baseName := Attr(t.elem, BaseNameKey);
          if baseName.Some? {
            result := result + {baseName.value};
          }
        }
      }
      assert found[..|found|] == found;
      assert BaseNameTags[..k + 1][..k] == BaseNameTags[..k] && BaseNameTags[..k + 1][k] == tag;
    }
    assert BaseNameTags[..|BaseNameTags|] == BaseNameTags;
  }

  /** The second pass over the files: the `referenced` set. */
  method CollectReferenced(files: seq<SourceFile>) returns (referenced: set<string>)
    ensures referenced == ReferencedNames(files)
  {
    referenced := {};
    for f := 0 to |files|
      invariant referenced == ReferencedNames(files[..f])
    {
      assert files[..f + 1][..f] == files[..f] && files[..f + 1][f] == files[f];
      assert ReferencedNames(files[..f + 1]) == ReferencedNames(files[..f]) + FileBaseNames(files[f]);
      match files[f].root
      case None =>
        // the parse raised: the error is reported and the file skipped
      case Some(root) =>
        referenced := AddBaseNames(Descendants(root, []), referenced);
    }
    assert files[..|files|] == files;
  }

  // =====================================================================
  // Occurrences of the missing names

  /** What the third pass records for one element: its raw `base_name`, when
      that is one of the missing names, with where it occurs. */
  function SitesAt(file: string, v: Visit, missing: set<string>): seq<Site> {
    if BaseNameKey in v.elem.attrs && v.elem.attrs[BaseNameKey] in missing
    then [Site(v.elem.attrs[BaseNameKey], Occurrence(file, v.elem.tag, Name(v.elem), v.elem.line))]
    else []
  }

  function SitesOfTag(file: string, vs: seq<Visit>, tag: string, missing: set<string>): seq<Site>
  {
    if vs == [] then []
    else
      var v := vs[|vs| - 1];
      SitesOfTag(file, vs[..|vs| - 1], tag, missing) + (if v.elem.tag == tag then SitesAt(file, v, missing) else [])
  }

  function DocumentSites(file: string, vs: seq<Visit>, tags: seq<string>, missing: set<string>): seq<Site>
  {
    if tags == [] then []
    else DocumentSites(file, vs, tags[..|tags| - 1], missing) + SitesOfTag(file, vs, tags[|tags| - 1], missing)
  }

  function FileSites(f: SourceFile, missing: set<string>): seq<Site> {
    match f.root
    case None => []
    case Some(root) => DocumentSites(f.name, Descendants(root, []), BaseNameTags, missing)
  }

  /** Every occurrence of a missing name, in file order, then tag-list
      order, then document order. */
  function MissingBaseSites(files: seq<SourceFile>, missing: set<string>): seq<Site>
  {
    if files == [] then []
    else MissingBaseSites(files[..|files| - 1], missing) + FileSites(files[|files| - 1], missing)
  }

  lemma KeysOfOne(site: Site)
    ensures Keys([site]) == {site.key}
  {
    assert [site][..0] == [];
  }

  lemma {:induction false} SitesOfTagKeys(file: string, vs: seq<Visit>, tag: string, missing: set<string>)
    requires "" !in missing
    ensures Keys(SitesOfTag(file, vs, tag, missing)) == BaseNamesOfTag(vs, tag) * missing
  {
    if vs != [] {
      var init, v := vs[..|vs| - 1], vs[|vs| - 1];
      var extra := if v.elem.tag == tag then SitesAt(file, v, missing) else [];
      SitesOfTagKeys(file, init, tag, missing);
      assert SitesOfTag(file, vs, tag, missing) == SitesOfTag(file, init, tag, missing) + extra;
      KeysConcat(SitesOfTag(file, init, tag, missing), extra);
      if extra != [] {
        KeysOfOne(extra[0]);
      }
    }
  }

  lemma {:induction false} DocumentSitesKeys(file: string, vs: seq<Visit>, tags: seq<string>, missing: set<string>)
    requires "" !in missing
    ensures Keys(DocumentSites(file, vs, tags, missing)) == DocumentBaseNames(vs, tags) * missing
  {
    if tags != [] {
      var init, tag := tags[..|tags| - 1], tags[|tags| - 1];
      DocumentSitesKeys(file, vs, init, missing);
      SitesOfTagKeys(file, vs, tag, missing);
      KeysConcat(DocumentSites(file, vs, init, missing), SitesOfTag(file, vs, tag, missing));
    }
  }

  /** The names recorded by the third pass are exactly the referenced names
      that are missing: every missing name is shown with at least one
      occurrence, and nothing else is shown. */
  lemma {:induction false} MissingSitesKeys(files: seq<SourceFile>, missing: set<string>)
    requires "" !in missing
    ensures Keys(MissingBaseSites(files, missing)) == ReferencedNames(files) * missing
  {
    if files != [] {
      var init, last := files[..|files| - 1], files[|files| - 1];
      MissingSitesKeys(init, missing);
      KeysConcat(MissingBaseSites(init, missing), FileSites(last, missing));
      if last.root.Some? {
        DocumentSitesKeys(last.name, Descendants(last.root.value, []), BaseNameTags, missing);
      }
    }
  }

  /** The element loop of the third pass for one tag. */
  method AddMissingSitesOfTag(fileName: string, found: seq<Visit>, tag: string, missing: set<string>,
                              groups: map<string, seq<Occurrence>>, ghost sites: seq<Site>)
    returns (result: map<string, seq<Occurrence>>)
    requires IsGrouping(groups, sites)
    ensures IsGrouping(result, sites + SitesOfTag(fileName, found, tag, missing))
  {
    result := groups;
    assert found[..0] == [] && sites + SitesOfTag(fileName, [], tag, missing) == sites;
    for j := 0 to |found|
      invariant IsGrouping(result, sites + SitesOfTag(fileName, found[..j], tag, missing))
    {
      var t := found[j];
      ghost var current := sites + SitesOfTag(fileName, found[..j], tag, missing);
      assert found[..j + 1][..j] == found[..j] && found[..j + 1][j] == t;
      if t.elem.tag == tag && BaseNameKey in t.elem.attrs && t.elem.attrs[BaseNameKey] in missing {
        var site := Site(t.elem.attrs[BaseNameKey], Occurrence(fileName, t.elem.tag, Name(t.elem), t.elem.line));
        assert sites + SitesOfTag(fileName, found[..j + 1], tag, missing) == current + [site];
        AppendGroups(result, current, site);
        result := Append(result, site);
      } else {
        assert sites + SitesOfTag(fileName, found[..j + 1], tag, missing) == current;
      }
    }
    assert found[..|found|] == found;
  }

  /** The tag loop of the third pass over one document. */
  method AddMissingSites(fileName: string, found: seq<Visit>, missing: set<string>,
                         groups: map<string, seq<Occurrence>>, ghost sites: seq<Site>)
    returns (result: map<string, seq<Occurrence>>)
    requires IsGrouping(groups, sites)
    ensures IsGrouping(result, sites + DocumentSites(fileName, found, BaseNameTags, missing))
  {
    result := groups;
    assert BaseNameTags[..0] == [] && sites + DocumentSites(fileName, found, [], missing) == sites;
    for k := 0 to |BaseNameTags|
      invariant IsGrouping(result, sites + DocumentSites(fileName, found, BaseNameTags[..k], missing))
    {
      var tag := BaseNameTags[k];
      ghost var tagStart := sites + DocumentSites(fileName, found, BaseNameTags[..k], missing);
      result := AddMissingSitesOfTag(fileName, found, tag, missing, result, tagStart);
      assert BaseNameTags[..k + 1][..k] == BaseNameTags[..k] && BaseNameTags[..k + 1][k] == tag;
      assert tagStart + SitesOfTag(fileName, found, tag, missing)
          == sites + DocumentSites(fileName, found, BaseNameTags[..k + 1], missing);
    }
    assert BaseNameTags[..|BaseNameTags|] == BaseNameTags;
  }

  /** The third pass over the files: `missing_refs`. */
  method GroupMissingProfiles(files: seq<SourceFile>, missing: set<string>)
    returns (missingRefs: map<string, seq<Occurrence>>)
    ensures IsGrouping(missingRefs, MissingBaseSites(files, missing))
  {
    missingRefs := map[];
    for f := 0 to |files|
      invariant IsGrouping(missingRefs, MissingBaseSites(files[..f], missing))
    {
      assert files[..f + 1][..f] == files[..f] && files[..f + 1][f] == files[f];
      assert MissingBaseSites(files[..f + 1], missing) == MissingBaseSites(files[..f], missing) + FileSites(files[f], missing);
      match files[f].root
      case None =>
        // the parse raised: the error is reported and the file skipped
        assert MissingBaseSites(files[..f + 1], missing) == MissingBaseSites(files[..f], missing);
      case Some(root) =>
        missingRefs := AddMissingSites(files[f].name, Descendants(root, []), missing,
                                       missingRefs, MissingBaseSites(files[..f], missing));
    }
    assert files[..|files|] == files;
  }

  // =====================================================================
  // Suggestions

  /** The suggestion list for the missing name `m`: the defined names that
      end with "::" followed by the last segment of `m`. The list is built
      by iterating a set, so only its elements are modelled. */
  function Suggestions(m: string, defined: set<string>): (r: set<string>)
    ensures r <= defined
    ensures m !in defined ==> m !in r
    ensures forall d :: d in r ==> ContainsSep(d)
  {
    var base := LastSegment(m);
    var r := set d | d in defined && EndsWith(d, Sep + base);
    assert forall d :: d in r ==> ContainsSep(d) by {
      forall d | d in r
        ensures ContainsSep(d)
      {
        SeparatedSuffix(d, base);
      }
    }
    r
  }

  /** A missing bare name `prof` suggests `lib::prof` for every named
      library below which a profile named `prof` is defined. */
  lemma LibraryFormSuggested(files: seq<SourceFile>, f: SourceFile, l: Visit, p: Visit, m: string)
    requires f in files && f.root.Some?
    requires l in Descendants(f.root.value, []) && l.elem.tag == LibraryTag && Name(l.elem).Some?
    requires p in Descendants(l.elem, l.ancestors) && p.elem.tag == ProfileTag && Name(p.elem) == Some(m)
    requires !ContainsSep(m)
    ensures Name(l.elem).value + Sep + m in Suggestions(m, DefinedProfiles(files))
  {
    LibraryProfileDefined(files, f, l, p);
    LastSegmentOfSimpleName(m);
    QualifiedEndsWith(Name(l.elem).value, m);
    assert Name(l.elem).value + Sep + m == Name(l.elem).value + Sep + LastSegment(m);
  }

  // =====================================================================
  // The whole run

  /** The suggestions printed after each listed group, in listing order. */
  method ListSuggestions(listed: seq<Group>, defined: set<string>) returns (suggestions: seq<set<string>>)
    ensures |suggestions| == |listed|
    ensures forall i :: 0 <= i < |listed| ==> suggestions[i] == Suggestions(listed[i].key, defined)
  {
    suggestions := [];
    for i := 0 to |listed|
      invariant |suggestions| == i
      invariant forall j :: 0 <= j < i ==> suggestions[j] == Suggestions(listed[j].key, defined)
    {
      suggestions := suggestions + [Suggestions(listed[i].key, defined)];
    }
  }

  datatype QosReport =
    | AllProfilesResolve
    | MissingProfiles(groups: seq<Group>, suggestions: seq<set<string>>)

  /** The three passes, the `missing` difference and the report: each
      missing name once, in sorted order, with all its occurrences and its
      suggestions, or the "all resolve" message. */
  method CheckQosReferences(files: seq<SourceFile>) returns (report: QosReport)
    ensures report.AllProfilesResolve? <==> ReferencedNames(files) <= DefinedProfiles(files)
    ensures report.MissingProfiles? ==>
      var missing := ReferencedNames(files) - DefinedProfiles(files);
      && ListsSites(report.groups, MissingBaseSites(files, missing))
      && (forall s :: s in missing <==> exists i :: 0 <= i < |report.groups| && report.groups[i].key == s)
      && |report.suggestions| == |report.groups|
      && (forall i :: 0 <= i < |report.groups| ==>
            report.suggestions[i] == Suggestions(report.groups[i].key, DefinedProfiles(files)))
  {
    var defined := CollectDefinedProfiles(files);
    var referenced := CollectReferenced(files);
    var missing := referenced - defined;
    assert missing == {} <==> ReferencedNames(files) <= DefinedProfiles(files);
    if missing != {} {
      var missingRefs := GroupMissingProfiles(files, missing);
      NoEmptyReference(files);
      MissingSitesKeys(files, missing);
      ghost var sites := MissingBaseSites(files, missing);
      var listed := ListGroups(missingRefs, sites);
      forall s | s in missing
        ensures exists i :: 0 <= i < |listed| && listed[i].key == s
      {
        assert s in Keys(sites);
      }
      var suggestions := ListSuggestions(listed, defined);
      report := MissingProfiles(listed, suggestions);
    } else {
      report := AllProfilesResolve;
    }
  }
}
