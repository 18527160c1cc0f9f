# DDS-XML reference checkers, modelled in Dafny

The DDS-XML repository ships two validators. Each globs the `*.xml` files of
the current directory, parses them with lxml and checks the references
between them. The model starts from the parsed documents: each file is
either a tree or "failed to parse".

- `check_type_references.py` collects the names of the data types declared in
  the documents and checks every type reference against them. A named type
  whose parent is a module is named by joining with `::` the names of the
  unbroken chain of named modules above it, starting at the document root or
  at a module whose parent is not a module, and its own name. A named type
  whose parent is not a module keeps its bare name. A reference records the
  names of all its enclosing named modules, up to the document root. It resolves when it is
  absolute (`::X`) and `X` is defined, or when it is relative and some leading
  part of its module path, innermost first and ending with the empty path,
  joined with the reference gives a defined name.
- `check_qos_references.py` collects the names of the `qos_profile` elements:
  `lib::prof` for a profile anywhere below a named `qos_library`, the bare name
  for a profile below an unnamed library, and the bare name for a profile whose
  parent is not a library. It collects the `base_name` values of six element
  kinds. A reference is missing when its exact string is not defined. Each
  missing name is listed with all its occurrences and with suggestions: the
  defined names that end with `::` followed by its last `::`-segment.

Both report each unresolved name once, in sorted order, with every place that
uses it in file order, or a single "all resolved" message.

Layout (one Dafny module per file):

- `wrappers.dfy` (`Wrappers`): the `Option` type for absent attributes,
  unknown source lines and searches that find nothing.
- `xml_tree.dfy` (`XmlTree`): a document is a `Node(tag, attrs, children,
  line)` tree with namespace-free tags. A file that failed to parse has no
  root. A descendant search (`findall('.//x')`) is `Descendants`: the proper
  descendants in document order, each paired with its chain of ancestors.
  That chain stands in for `getparent()` and `find("..")`.
- `names.dfy` (`Names`): `'::'.join`, `str.strip()` with Python's whitespace
  set, `startswith`/`endswith`, and `str.split("::")` with its last piece.
- `report.dfy` (`Report`): the `setdefault(...).append` grouping, Python's
  string order, `sorted()`, and the listing of the groups.
- `type_references.dfy` (`TypeReferences`) and `qos_references.dfy`
  (`QosReferences`): the two checkers.

Each loop of the source that builds a set, a list or a map is a method with
loop invariants. Its `ensures` ties the result to a specification function that
recurses in the order the loop runs, so one loop step is one unfolding. The
one loop that only searches, the `for i in range(...)` of `is_defined`, is the
recursive function `InnermostScope`, since it computes a value and changes
nothing. Lemmas then prove membership characterisations ("a name is defined
exactly when ...") and the properties below about those functions. Where the
source nests loops, the two innermost levels stay in one method
(`CollectTypesInModule`, `AddGlobalTypes`, `AddLibraryProfiles`,
`AddBaseNames`) or the inner loop becomes its own method (`AddTagReferences`,
`AddElementReferences`, `AddMissingSitesOfTag`); each outer loop over the
files calls a method for one document.

Behaviours of the code worth knowing:

- The QoS checker does not look up an unqualified `base_name` in the
  enclosing library. `missing` is the plain set difference
  `referenced - defined`, with no library context.
- A profile nested deeper below a named library is defined both as `lib::prof`
  and under its bare name.
- A library that is the document root is never searched, because a descendant
  search does not return the root. `RootLibraryDefinesNothing` shows a
  document where this leaves a profile undefined.
- Suggestions are the defined names ending in `::` plus the last segment. They
  are not the names whose own last segment matches: a defined name without
  `::` is never suggested. They are not sorted either, because the source
  iterates a set.
- A type reference's module path includes the document root when the root is
  a named module.
- An unnamed module hides the types reached from it through module parents
  only. The module walk skips unnamed submodules, the restart loop skips
  modules whose parent is a module, and the global loop skips types whose
  parent is a module, so a type whose parent is the unnamed module, or a named
  module below it with only modules in between, gets neither a qualified nor a
  bare name. A non-module element in between ends the hiding: a type whose
  parent is such an element keeps its bare name, and a named module whose
  parent is such an element is walked afresh. References inside the unnamed
  module still carry the names of the named modules around it.
  `UnnamedModuleHidesTypes` shows such a document.
- The definition path restarts at a module whose parent is not a module, but
  a reference's module path does not: it holds every named module ancestor.
  So the types of a module nested below a non-module element inside another
  module are not found by bare name from inside that module.
  `RestartedModuleHidesBareName` shows such a document.
- Reusable fragments (`qos_snippet`) are not collected by the code.

## Model

| member | source | states |
|---|---|---|
| XmlTree.DescendantShape | check_type_references.py:39-41 | every element found by a descendant search lies strictly below the start element, and its last ancestor (its parent) has it as a child |
| XmlTree.DescendantsNest | check_qos_references.py:26-29 | a descendant search started at a found element finds only elements the search from the root finds too |
| Names.JoinAppend | check_type_references.py:20 | joining two non-empty name lists together puts exactly one `::` between the two joined halves |
| Names.Strip | check_type_references.py:105 | `strip()` returns a contiguous part of the input that neither starts nor ends with whitespace, with only whitespace removed around it |
| Names.StripUnchanged | check_type_references.py:105 | a name without surrounding whitespace is unchanged by `strip()` |
| Names.FindSep | check_qos_references.py:90 | the first position, at or after the start, where `::` occurs, or none when there is none |
| Names.SplitAll | check_qos_references.py:90 | `split("::")` gives a non-empty list of pieces that joins back to the string; no piece holds `::` and no piece but the last ends with `:`, so each cut is at the leftmost remaining `::` |
| Names.SplitUnique | check_qos_references.py:90 | any list of pieces with those properties that joins to the string is the split, so the contract of `SplitAll` determines it |
| Names.LastSegment | check_qos_references.py:90 | `split("::")[-1]` holds no `::` and is the whole string or a suffix that follows a `::` |
| Names.LastSegmentIsLastPiece | check_qos_references.py:90 | the last segment is exactly the last piece of `split("::")`, so for a run of colons it follows the leftmost cut |
| Names.LastSegmentOfColonRun | check_qos_references.py:90 | `"a::::b"` splits into `a`, an empty piece and `b`, and its last segment is `b` |
| Report.KeysConcat | check_type_references.py:119-124 | the keys of two consecutive runs of sites are the union of their keys |
| Report.KeysHaveOccurrences | check_type_references.py:122 | a key is grouped exactly when it has at least one occurrence, exactly when some site carries it |
| Report.AppendGroups | check_type_references.py:122 | `setdefault(key, []).append(occ)` turns the grouping of a run of sites into the grouping of that run plus one site |
| Report.BelowIrreflexive | check_type_references.py:128 | Python's string `<` is irreflexive |
| Report.BelowTransitive | check_type_references.py:128 | Python's string `<` is transitive |
| Report.BelowTotal | check_type_references.py:128 | any two different strings are ordered one way or the other |
| Report.LeastExists | check_type_references.py:128 | every finite non-empty set of strings has a least element |
| Report.SortedKeys | check_type_references.py:128 | `sorted(keys)` lists every key exactly once, in strictly increasing order |
| Report.ListingOfSortedKeys | check_type_references.py:128-131 | listing the groups in sorted key order shows every key once, sorted, each with all its occurrences in order |
| Report.ListGroups | check_type_references.py:128-131 | the report loop shows every grouped key once, sorted, each with all its occurrences in collection order, and nothing else |
| TypeReferences.NamedChildrenMember | check_type_references.py:17-21 | one tag's loop adds exactly the qualified names of the named direct children with that tag |
| TypeReferences.DirectTypesMember | check_type_references.py:16-21 | the tag loop adds exactly the qualified names of the named direct children with a type tag |
| TypeReferences.SubmoduleTypesMember | check_type_references.py:23-26 | the submodule loop adds exactly what the walks of the named direct submodules add |
| TypeReferences.ModuleTypesMember | check_type_references.py:15-26 | walking a module adds exactly `'::'.join(path + [name])` for each named direct type child, and what the walks of its named direct submodules add at the extended path; nothing else |
| TypeReferences.ModuleTypesQualified | check_type_references.py:20-26 | every name a walk at a non-empty path adds starts with that whole path followed by `::` |
| TypeReferences.CollectTypesInModule | check_type_references.py:15-26 | the method adds to the given set exactly the names of the module walk and removes nothing |
| TypeReferences.OuterModuleTypesMember | check_type_references.py:39-44 | the module loop adds exactly the walks of the named modules whose parent is not a module, restarted at their own name |
| TypeReferences.GlobalTypesOfTagMember | check_type_references.py:47-52 | one tag's global loop adds exactly the bare names of the named elements of that tag whose parent is not a module |
| TypeReferences.GlobalTypesMember | check_type_references.py:46-52 | the global loop adds exactly the bare names of the named type elements whose parent is not a module |
| TypeReferences.DocumentTypesMember | check_type_references.py:33-52 | a document defines exactly: the walk of a named root module, the restarted walks of the named modules whose parent is not a module, and the bare names of the named types whose parent is not a module |
| TypeReferences.GlobalTypeDefined | check_type_references.py:46-52 | a named type whose parent is not a module is defined under its bare name |
| TypeReferences.RestartedModuleDefined | check_type_references.py:39-44 | a named module whose parent is not a module has all its types defined under paths starting at its own name |
| TypeReferences.UnnamedModuleHidesTypes | check_type_references.py:24-49 | in `<types><module name="A"><module><struct name="T"/></module></module></types>` no type name is defined, while a reference inside the unnamed module has module path `["A"]` |
| TypeReferences.DefinedTypesMember | check_type_references.py:28-59 | the table holds exactly the names some parsed file defines; a file that failed to parse adds nothing and the later files still count |
| TypeReferences.DefinedTypesOrderFree | check_type_references.py:30-58 | the table does not depend on the order of the files, and unparsed files do not matter |
| TypeReferences.AddOuterModuleTypes | check_type_references.py:39-44 | the module loop over one document adds exactly the restarted walks of the outer modules |
| TypeReferences.AddGlobalTypes | check_type_references.py:46-52 | the global loop over one document adds exactly the bare names of the named type elements whose parent is not a module |
| TypeReferences.GetTypeNames | check_type_references.py:28-59 | `get_type_names` returns the defined-type table of the files |
| TypeReferences.ModuleNamesMember | check_type_references.py:70-77 | a name is in a module path exactly when some ancestor is a module with that name |
| TypeReferences.ModuleNamesConcat | check_type_references.py:70-77 | the module path keeps the ancestors' order, outermost first |
| TypeReferences.ModulePathStartsAtRoot | check_type_references.py:72-77 | below a named root module, every module path starts with the root's name |
| TypeReferences.EnclosingModules | check_type_references.py:69-77 | the parent walk with `insert(0, name)` yields the names of the named module ancestors, outermost first |
| TypeReferences.ReferencesAtMember | check_type_references.py:78-91 | one element yields a record for each of `type_ref`, `nonBasicTypeName`, `baseType` that is non-empty, carrying its module path, and nothing else |
| TypeReferences.ReferencesOfTagMember | check_type_references.py:68-91 | one tag's loop yields exactly the records of the elements with that tag |
| TypeReferences.DocumentReferencesMember | check_type_references.py:67-91 | a document yields exactly the records of its type elements |
| TypeReferences.ReferencesInMember | check_type_references.py:61-98 | the reference list holds exactly the records of the type elements of the parsed files, with their module paths |
| TypeReferences.AddElementReferences | check_type_references.py:70-91 | the attribute loop appends one element's records in attribute order |
| TypeReferences.AddTagReferences | check_type_references.py:68-91 | the element loop appends the records of one tag in document order |
| TypeReferences.AddDocumentReferences | check_type_references.py:67-91 | the tag loop appends a document's records in tag order |
| TypeReferences.FindTypeReferences | check_type_references.py:61-98 | `find_type_references` returns the references in file, tag, document and attribute order |
| TypeReferences.InnermostScope | check_type_references.py:111-115 | the search returns the deepest depth whose candidate is defined, with no defined candidate deeper, or none when no depth has one |
| TypeReferences.IsDefined | check_type_references.py:104-115 | after `strip()`, an absolute reference `::X` resolves exactly when `X` is defined; a relative one exactly when some leading part of its module path, possibly empty, joined with it is defined |
| TypeReferences.AbsoluteResolution | check_type_references.py:105-109 | whether `::X` resolves does not depend on the module path |
| TypeReferences.GlobalFallback | check_type_references.py:111-113 | a relative name that is itself defined resolves from any module |
| TypeReferences.ResolutionMonotone | check_type_references.py:104-115 | adding defined names never makes a resolved reference unresolved |
| TypeReferences.DeclaredTypeResolvesBelow | check_type_references.py:111-115 | a type declared directly in a module walked at a path resolves by its bare name from every reference whose module path starts with that path |
| TypeReferences.RestartedModuleHidesBareName | check_type_references.py:39-77 | in `<module name="A"><foo><module name="M"><struct name="T" type_ref="T"/></module></foo></module>` only `M::T` is defined, the reference `T` has module path `["A", "M"]`, and it does not resolve |
| TypeReferences.MissingKeys | check_type_references.py:118-124 | the grouped keys are exactly the raw, unstripped strings of the unresolved references |
| TypeReferences.GroupMissingTypes | check_type_references.py:118-124 | `missing_refs` groups the unresolved references under their raw string, in collection order |
| TypeReferences.CheckTypeReferences | check_type_references.py:100-133 | "all defined" exactly when every reference resolves; otherwise each unresolved string once, sorted, with all its uses in order |
| QosReferences.ProfilesUnderMember | check_qos_references.py:29-34 | one library's loop adds exactly `lib::prof`, or `prof` for an unnamed library, for each named profile below it |
| QosReferences.LibraryProfilesMember | check_qos_references.py:26-34 | the library loop adds exactly the names of the named profiles below each library found |
| QosReferences.GlobalProfilesMember | check_qos_references.py:36-41 | the global loop adds exactly the bare names of the named profiles whose parent is not a library |
| QosReferences.DocumentProfilesMember | check_qos_references.py:24-41 | a document defines exactly the library-qualified and the global profile names |
| QosReferences.DefinedProfilesMember | check_qos_references.py:21-43 | `defined` holds exactly what some parsed file defines; a file that failed to parse adds nothing and the later files still count |
| QosReferences.LibraryProfileDefined | check_qos_references.py:26-34 | a named profile below a named library is defined as `lib::prof`, and below an unnamed library under its bare name |
| QosReferences.GlobalProfileDefined | check_qos_references.py:36-41 | a named profile whose parent is not a library is defined under its bare name |
| QosReferences.NestedProfileBothForms | check_qos_references.py:26-41 | a named profile below a named library but not directly in a library gets both the qualified and the bare name |
| QosReferences.RootLibraryDefinesNothing | check_qos_references.py:26-41 | a root library holding one named profile defines nothing |
| QosReferences.AddLibraryProfiles | check_qos_references.py:26-34 | the library loop over one document adds exactly its library-qualified names |
| QosReferences.AddGlobalProfiles | check_qos_references.py:36-41 | the global loop over one document adds exactly its global profile names |
| QosReferences.CollectDefinedProfiles | check_qos_references.py:21-43 | the first pass builds the `defined` set of the files |
| QosReferences.BaseNamesOfTagMember | check_qos_references.py:52-55 | one tag's loop adds exactly the non-empty `base_name` values of the elements with that tag |
| QosReferences.DocumentBaseNamesMember | check_qos_references.py:51-55 | a document adds exactly the non-empty `base_name` values of the listed element kinds |
| QosReferences.ReferencedMember | check_qos_references.py:46-57 | `referenced` is exactly the set of non-empty `base_name` values on the six element kinds of the parsed files |
| QosReferences.NoEmptyReference | check_qos_references.py:53-55 | an empty `base_name` is never referenced |
| QosReferences.AddBaseNames | check_qos_references.py:51-55 | the tag loop over one document adds exactly its `base_name` values |
| QosReferences.CollectReferenced | check_qos_references.py:46-57 | the second pass builds the `referenced` set of the files |
| QosReferences.SitesOfTagKeys | check_qos_references.py:72-79 | one tag's element loop records exactly the missing names used by elements of that tag |
| QosReferences.DocumentSitesKeys | check_qos_references.py:71-79 | a document records exactly the missing names it uses |
| QosReferences.MissingSitesKeys | check_qos_references.py:60-83 | the third pass records exactly the referenced names that are missing: each with at least one occurrence, nothing else |
| QosReferences.AddMissingSitesOfTag | check_qos_references.py:72-81 | the element loop appends each occurrence of a missing name under that name, in document order |
| QosReferences.AddMissingSites | check_qos_references.py:71-81 | the tag loop appends a document's occurrences in tag-list order |
| QosReferences.GroupMissingProfiles | check_qos_references.py:66-83 | `missing_refs` groups every occurrence of each missing name, in file, tag-list and document order |
| QosReferences.Suggestions | check_qos_references.py:90-91 | suggestions are defined names, never the missing name itself, and every suggestion contains `::`, so a bare defined name is never suggested |
| QosReferences.LibraryFormSuggested | check_qos_references.py:90-91 | a missing bare name `prof` suggests `lib::prof` for every named library with a profile `prof` below it |
| QosReferences.ListSuggestions | check_qos_references.py:85-93 | each listed group gets the suggestions for its name |
| QosReferences.CheckQosReferences | check_qos_references.py:60-95 | "all resolve" exactly when every referenced name is defined; otherwise each missing name once, sorted, with all its occurrences and its suggestions, and no other name |

## Left out

- `create_omg_machine_readable_files.py` is not part of this model: it only lists a directory, reads and writes files and calls `str.replace`.
- XML parsing, `glob.glob` and namespace URIs are not modelled. Tags are already local names, and a file is either a tree or "failed to parse".
- Each checker parses every file again for each pass: the type checker twice (check_type_references.py:32 and 65), the QoS checker for `defined` and for `referenced`, and a third time only when `missing` is non-empty (check_qos_references.py:62-69). The model gives every pass the same parse result for a file.
- `ET.ParseError` and other exceptions are not told apart: either one skips the file, and the printed error message is not modelled.
- Printed text is not modelled. Reports are records: `Occurrence(file, tag, name, line)` stands for a "Referenced from" line, and `Group` for a name with its lines. The source line is an `Option<int>`. lxml elements always have `sourceline`, so the `'?'` fallback never applies; an element whose line lxml does not know has `None`, which is printed as `None`.
- The `'}'`-split tag cleanup is not modelled, since tags are already local.
- QosReferences.Suggestions: modelled as a set, so the order in which the suggestions are printed is not captured, because the source iterates a Python set.
- Suggestions are listed for every printed group and are not filtered to non-empty lists. The "Did you mean" line printed only when the list is non-empty is presentation.
- Python's `sorted()` is modelled by repeatedly taking the least remaining key. Only its result (strictly increasing, every key once) is claimed.
