# ontop core logic in Dafny

This project models six self-contained pieces of ontop, the system that answers
SPARQL queries over relational databases through OBDA mappings, and proves what
each of them promises.

- **TBox reasoner** (`tbox_entities.dfy`, `tbox_representatives.dfy`,
  `tbox_simplification.dfy`). The reasoner keeps four DAGs of equivalence sets:
  classes, object properties, data properties and data ranges. For each DAG it
  picks one member of every set as the representative and flags some sets as
  indexed. It can then build an "equivalence simplified" reasoner. In that
  reasoner every set keeps only its representative, and maps send every other
  name to the representative.
  - The DAG is a class `EquivalencesDag` whose representative and indexed
    fields the choosing methods update in place.
  - The name orders are Java's `String.compareTo` and a tie-break that puts a
    property before its inverse. `String.compareTo` compares UTF-16 code
    units, so names are encoded to UTF-16 before comparison. A character
    above U+FFFF therefore sorts by its high surrogate, before the
    characters U+E000 to U+FFFF.
- **One-way matching of terms** (`substitution_tools.dfy`). This is the matcher
  `computeUnidirectionalSubstitution`, with its occurs check, together with the
  substitution utilities: variable-to-variable extraction, the split into a
  function-free part and a functional part, renaming, and the injectivity test.
- **Strict equality and inequality simplifier** (`strict_eq_neq.dfy`). This is
  the n-ary SQL `=`/`<>` of the DB function symbols. It handles NULL arguments,
  the pairwise reduction driven by a five-outcome comparator, and the final
  conjunction. The comparator, the conjunction builder and the simplifier of
  `FalseOrNull`/`TrueOrNull` are parameters.
- **TrueNode removal** (`true_nodes_removal.dfy`). This is the removal rule of
  the intermediate-query optimizer, the tree edit it stands for, and the driver
  that repeats passes until a pass removes nothing. The query is a class whose
  fields are the tree's kind, parent, position and root maps.
- **Mapping merge** (`mapping_merger.dfy`). This merges several mappings into
  one:
  - the prefix maps are united, and a prefix bound to two URIs is an error;
  - the property and class definitions are grouped per predicate and merged.

  Query merging, normalisation and template-matcher merging are parameters.
- **Buffered RDF loader of the semantic index** (`semantic_index_rdf_handler.dfy`).
  The handler buffers statements and flushes them in batches of at most 5000,
  and it keeps a 32-bit running count of inserted rows. The conversion of a
  triple into a class, object-property or data-property assertion is a pure
  function. The database insert is a parameter that returns a row count.

`wrappers.dfy` holds `Option`, `Result`, `Outcome` and `Dedup`. `Dedup` is the
first-occurrence de-duplication that Guava's immutable sets perform.

Exceptions of the source are modelled as `Failure`/`Fail` values. Each one names
the exception it stands for.

## Model

| member | source | states |
|---|---|---|
| TBoxEntities.CharUnits | reformulation-core/src/main/java/it/unibz/krdb/obda/owlrefplatform/core/dagjgrapht/TBoxReasonerImpl.java:249 | a character takes one code unit below U+10000 and two otherwise, and a two-unit encoding starts with a high surrogate that no one-unit encoding is |
| TBoxEntities.Utf16 | reformulation-core/src/main/java/it/unibz/krdb/obda/owlrefplatform/core/dagjgrapht/TBoxReasonerImpl.java:249 | a name of n characters has between n and 2n code units |
| TBoxEntities.CompareNames | reformulation-core/src/main/java/it/unibz/krdb/obda/owlrefplatform/core/dagjgrapht/TBoxReasonerImpl.java:246-252 | `String.compareTo` on the UTF-16 code units is zero exactly on equal names; its order properties are the `CompareNamesAntisymmetric` and `CompareNamesTransitive` lemmas |
| TBoxEntities.CharUnitsInjective | reformulation-core/src/main/java/it/unibz/krdb/obda/owlrefplatform/core/dagjgrapht/TBoxReasonerImpl.java:249 | two characters with the same UTF-16 encoding are equal |
| TBoxEntities.Utf16Injective | reformulation-core/src/main/java/it/unibz/krdb/obda/owlrefplatform/core/dagjgrapht/TBoxReasonerImpl.java:249 | two names with the same UTF-16 encoding are equal |
| TBoxEntities.CompareUnitsZero | reformulation-core/src/main/java/it/unibz/krdb/obda/owlrefplatform/core/dagjgrapht/TBoxReasonerImpl.java:249 | the code-unit comparison is zero exactly on equal unit sequences |
| TBoxEntities.CompareUnitsAntisymmetric | reformulation-core/src/main/java/it/unibz/krdb/obda/owlrefplatform/core/dagjgrapht/TBoxReasonerImpl.java:249 | swapping the unit sequences negates the code-unit comparison |
| TBoxEntities.CompareUnitsTransitive | reformulation-core/src/main/java/it/unibz/krdb/obda/owlrefplatform/core/dagjgrapht/TBoxReasonerImpl.java:249 | "strictly before" on unit sequences is transitive |
| TBoxEntities.SupplementarySortsBySurrogate | reformulation-core/src/main/java/it/unibz/krdb/obda/owlrefplatform/core/dagjgrapht/TBoxReasonerImpl.java:249 | U+FFFF sorts after U+10000, as `String.compareTo` orders them |
| TBoxEntities.CompareNamesAntisymmetric | reformulation-core/src/main/java/it/unibz/krdb/obda/owlrefplatform/core/dagjgrapht/TBoxReasonerImpl.java:246-252 | swapping the arguments negates the comparison |
| TBoxEntities.CompareNamesTransitive | reformulation-core/src/main/java/it/unibz/krdb/obda/owlrefplatform/core/dagjgrapht/TBoxReasonerImpl.java:246-252 | "strictly before" on names is transitive |
| TBoxEntities.InverseInvolutive | reformulation-core/src/main/java/it/unibz/krdb/obda/owlrefplatform/core/dagjgrapht/TBoxReasonerImpl.java:280-294 | the inverse of the inverse is the property itself, and no property is its own inverse, which the choice of a set and its inverse set relies on |
| TBoxEntities.ObjectPropertyCompare | reformulation-core/src/main/java/it/unibz/krdb/obda/owlrefplatform/core/dagjgrapht/TBoxReasonerImpl.java:255-269 | different names compare as the names, never 0; on equal names the result is 0 iff the inverse flags agree, and negative iff the first is the property and the second its inverse; 0 iff equal |
| TBoxEntities.DataPropertyCompare | reformulation-core/src/main/java/it/unibz/krdb/obda/owlrefplatform/core/dagjgrapht/TBoxReasonerImpl.java:246-252 | 0 exactly on equal data properties |
| TBoxEntities.ObjectPropertyOrder | reformulation-core/src/main/java/it/unibz/krdb/obda/owlrefplatform/core/dagjgrapht/TBoxReasonerImpl.java:255-269 | the object-property comparator is a strict total order (antisymmetric, 0 only on equals, transitive) |
| TBoxEntities.DataPropertyOrder | reformulation-core/src/main/java/it/unibz/krdb/obda/owlrefplatform/core/dagjgrapht/TBoxReasonerImpl.java:246-252 | the data-property comparator is a strict total order |
| TBoxEntities.MinFromLeast | reformulation-core/src/main/java/it/unibz/krdb/obda/owlrefplatform/core/dagjgrapht/TBoxReasonerImpl.java:280-281 | the `Collections.min` scan returns the candidate or an element, and nothing scanned precedes it |
| TBoxEntities.MinLeast | reformulation-core/src/main/java/it/unibz/krdb/obda/owlrefplatform/core/dagjgrapht/TBoxReasonerImpl.java:280-281 | the minimum of a non-empty sequence is a member that no member precedes |
| TBoxEntities.LeastIsMin | reformulation-core/src/main/java/it/unibz/krdb/obda/owlrefplatform/core/dagjgrapht/TBoxReasonerImpl.java:280-281 | conversely, a member that no member precedes is the minimum |
| TBoxRepresentatives.FindVertex | reformulation-core/src/main/java/it/unibz/krdb/obda/owlrefplatform/core/dagjgrapht/TBoxReasonerImpl.java:407-410 | the vertex found contains the element; no vertex is found only when no set contains it |
| TBoxRepresentatives.Unchosen | reformulation-core/src/main/java/it/unibz/krdb/obda/owlrefplatform/core/dagjgrapht/TBoxReasonerImpl.java:274-278 | a DAG before any choice has one unset representative and one false flag per set |
| TBoxRepresentatives.EquivalencesDag.constructor | reformulation-core/src/main/java/it/unibz/krdb/obda/owlrefplatform/core/dagjgrapht/TBoxReasonerImpl.java:274-278 | a new DAG has the given sets and edges and no representative chosen |
| TBoxRepresentatives.MinObjectProperty | reformulation-core/src/main/java/it/unibz/krdb/obda/owlrefplatform/core/dagjgrapht/TBoxReasonerImpl.java:280-281 | the minimum of a set is a member and precedes-or-equals every member under the property order |
| TBoxRepresentatives.InverseVertex | reformulation-core/src/main/java/it/unibz/krdb/obda/owlrefplatform/core/dagjgrapht/TBoxReasonerImpl.java:283-286 | the inverse set of a set contains the inverse of its minimum |
| TBoxRepresentatives.ObjectPropertyStep | reformulation-core/src/main/java/it/unibz/krdb/obda/owlrefplatform/core/dagjgrapht/TBoxReasonerImpl.java:274-302 | a turn on a set that already has a representative changes nothing; after the turn the set has one |
| TBoxRepresentatives.ChooseObjectPropertyRepresentative | reformulation-core/src/main/java/it/unibz/krdb/obda/owlrefplatform/core/dagjgrapht/TBoxReasonerImpl.java:274-302 | one loop turn on set i takes the DAG from the choices of the first i turns to those of the first i + 1; sets and edges are unchanged |
| TBoxRepresentatives.ChooseObjectPropertyRepresentatives | reformulation-core/src/main/java/it/unibz/krdb/obda/owlrefplatform/core/dagjgrapht/TBoxReasonerImpl.java:272-304 | the DAG's final choices are the per-set rule applied to the sets in order; sets and edges are unchanged |
| TBoxRepresentatives.InverseVertexInvolution | reformulation-core/src/main/java/it/unibz/krdb/obda/owlrefplatform/core/dagjgrapht/TBoxReasonerImpl.java:284-300 | the inverse set of the inverse set is the set itself |
| TBoxRepresentatives.InverseMembers | reformulation-core/src/main/java/it/unibz/krdb/obda/owlrefplatform/core/dagjgrapht/TBoxReasonerImpl.java:284-300 | the inverse of a member of a set lies in the inverse set |
| TBoxRepresentatives.SymmetricLeastNotInverse | reformulation-core/src/main/java/it/unibz/krdb/obda/owlrefplatform/core/dagjgrapht/TBoxReasonerImpl.java:280-294 | the minimum of a set that is its own inverse set is a named property, never an inverse |
| TBoxRepresentatives.LeastOfInverseSet | reformulation-core/src/main/java/it/unibz/krdb/obda/owlrefplatform/core/dagjgrapht/TBoxReasonerImpl.java:283-289 | the minimum of the inverse set is the inverse of the set's minimum when that minimum is an inverse |
| TBoxRepresentatives.ObjectPropertyStepPairs | reformulation-core/src/main/java/it/unibz/krdb/obda/owlrefplatform/core/dagjgrapht/TBoxReasonerImpl.java:280-302 | a turn on an unchosen set gives it and its inverse set members as representatives that are each other's inverses; one of the two is indexed; an indexed set is represented by its minimum, a named property |
| TBoxRepresentatives.ObjectPropertyStepKeeps | reformulation-core/src/main/java/it/unibz/krdb/obda/owlrefplatform/core/dagjgrapht/TBoxReasonerImpl.java:274-302 | a turn leaves every other set's pairing intact |
| TBoxRepresentatives.ObjectPropertyStepPaired | reformulation-core/src/main/java/it/unibz/krdb/obda/owlrefplatform/core/dagjgrapht/TBoxReasonerImpl.java:274-302 | a turn preserves the pairing invariant over the whole DAG |
| TBoxRepresentatives.ObjectPropertyChoicesPaired | reformulation-core/src/main/java/it/unibz/krdb/obda/owlrefplatform/core/dagjgrapht/TBoxReasonerImpl.java:272-304 | from choices that satisfy the pairing invariant (an unchosen DAG does, by UnchosenPaired), the choices after every prefix of sets still satisfy it |
| TBoxRepresentatives.ObjectPropertyChoicesChosen | reformulation-core/src/main/java/it/unibz/krdb/obda/owlrefplatform/core/dagjgrapht/TBoxReasonerImpl.java:272-304 | after the first n turns every one of the first n sets has a representative |
| TBoxRepresentatives.UnchosenPaired | reformulation-core/src/main/java/it/unibz/krdb/obda/owlrefplatform/core/dagjgrapht/TBoxReasonerImpl.java:274-278 | a DAG with no choices satisfies the pairing invariant |
| TBoxRepresentatives.MinDataProperty | reformulation-core/src/main/java/it/unibz/krdb/obda/owlrefplatform/core/dagjgrapht/TBoxReasonerImpl.java:308-318 | the chosen data property is a member with the least name |
| TBoxRepresentatives.ChooseDataPropertyRepresentatives | reformulation-core/src/main/java/it/unibz/krdb/obda/owlrefplatform/core/dagjgrapht/TBoxReasonerImpl.java:306-319 | a set with a representative keeps it and its flag; any other set gets its least-named member and is flagged indexed |
| TBoxRepresentatives.NamedScanLeast | reformulation-core/src/main/java/it/unibz/krdb/obda/owlrefplatform/core/dagjgrapht/TBoxReasonerImpl.java:323-356 | the scan finds a name iff some member is named, and the name it finds belongs to a member and is the least |
| TBoxRepresentatives.LeastName | reformulation-core/src/main/java/it/unibz/krdb/obda/owlrefplatform/core/dagjgrapht/TBoxReasonerImpl.java:350-356 | the loop over a set returns the scan's least name |
| TBoxRepresentatives.ClassRepresentativeChoice | reformulation-core/src/main/java/it/unibz/krdb/obda/owlrefplatform/core/dagjgrapht/TBoxReasonerImpl.java:343-376 | a singleton is represented by its only member; a set with a named class by the named member with the least name; a set of existentials by an existential over the representative of its first member's property, with filler `rdfs:Literal` for a data existential |
| TBoxRepresentatives.ChooseClassRepresentatives | reformulation-core/src/main/java/it/unibz/krdb/obda/owlrefplatform/core/dagjgrapht/TBoxReasonerImpl.java:339-382 | every set gets the class rule's representative, and its flag becomes true when the representative is a named class and stays as it was otherwise |
| TBoxRepresentatives.DataRangeRepresentativeChoice | reformulation-core/src/main/java/it/unibz/krdb/obda/owlrefplatform/core/dagjgrapht/TBoxReasonerImpl.java:386-416 | a set fails iff it has several members, no datatype, and a first member whose data property is in no set, and the failure names that property; a singleton is its own representative; a set with a datatype is represented by the least-named datatype; a set without datatype whose first member's property has a set is represented by the range of that set's representative |
| TBoxRepresentatives.ChooseDataRangeRepresentatives | reformulation-core/src/main/java/it/unibz/krdb/obda/owlrefplatform/core/dagjgrapht/TBoxReasonerImpl.java:384-422 | on success every set carries the data-range rule's representative; on the unknown-property failure the sets before the failing one are assigned and the rest untouched; no indexed flag changes |
| TBoxSimplification.RepresentativeValues | reformulation-core/src/main/java/it/unibz/krdb/obda/owlrefplatform/core/dagjgrapht/TBoxReasonerImpl.java:456-457 | the representatives of a fully chosen DAG, set by set |
| TBoxSimplification.KeptSets | reformulation-core/src/main/java/it/unibz/krdb/obda/owlrefplatform/core/dagjgrapht/TBoxReasonerImpl.java:456-479 | each reduced set is a subset of its set, contains the representative when the representative is a member, and holds another member exactly when the kind's rule keeps it |
| TBoxSimplification.CopyEdges | reformulation-core/src/main/java/it/unibz/krdb/obda/owlrefplatform/core/dagjgrapht/TBoxReasonerImpl.java:579-590 | the edges added are those from each direct sub-set's reduced node to the set's reduced node |
| TBoxSimplification.CopiedEdgesStep | reformulation-core/src/main/java/it/unibz/krdb/obda/owlrefplatform/core/dagjgrapht/TBoxReasonerImpl.java:580-589 | one outer turn adds exactly the edges into that set's reduced node |
| TBoxSimplification.CopiedEdgesExact | reformulation-core/src/main/java/it/unibz/krdb/obda/owlrefplatform/core/dagjgrapht/TBoxReasonerImpl.java:579-590 | when each representative lies in its own reduced node, an edge (a, b) is copied iff a is directly below b |
| TBoxSimplification.ReductionEdges | reformulation-core/src/main/java/it/unibz/krdb/obda/owlrefplatform/core/dagjgrapht/TBoxReasonerImpl.java:482 | the reduced DAG's edges are exactly the original direct sub-set relation |
| TBoxSimplification.SimplifyDag | reformulation-core/src/main/java/it/unibz/krdb/obda/owlrefplatform/core/dagjgrapht/TBoxReasonerImpl.java:456-483 | the reduced DAG and the name map are the reduction and the name map of the specification |
| TBoxSimplification.ReduceSets | reformulation-core/src/main/java/it/unibz/krdb/obda/owlrefplatform/core/dagjgrapht/TBoxReasonerImpl.java:456-479 | the loop over the sets builds the kept sets, the member-to-node map and the name map |
| TBoxSimplification.ReduceSet | reformulation-core/src/main/java/it/unibz/krdb/obda/owlrefplatform/core/dagjgrapht/TBoxReasonerImpl.java:463-475 | the loop over one set keeps the verdict's members, maps each of them to this node and adds this set's name entries |
| TBoxSimplification.NodeMapAt | reformulation-core/src/main/java/it/unibz/krdb/obda/owlrefplatform/core/dagjgrapht/TBoxReasonerImpl.java:465-467 | every kept member maps to the reduced node of its set |
| TBoxSimplification.NodeMapKeys | reformulation-core/src/main/java/it/unibz/krdb/obda/owlrefplatform/core/dagjgrapht/TBoxReasonerImpl.java:465-467 | only kept members have a node |
| TBoxSimplification.NamePutsSpec | reformulation-core/src/main/java/it/unibz/krdb/obda/owlrefplatform/core/dagjgrapht/TBoxReasonerImpl.java:469-474 | after one set a name has an entry iff it had one or a member of the set is mapped under it |
| TBoxSimplification.NameMapEntries | reformulation-core/src/main/java/it/unibz/krdb/obda/owlrefplatform/core/dagjgrapht/TBoxReasonerImpl.java:469-474 | a mapped member's name is mapped to its own set's representative |
| TBoxSimplification.NameMapKeys | reformulation-core/src/main/java/it/unibz/krdb/obda/owlrefplatform/core/dagjgrapht/TBoxReasonerImpl.java:469-474 | every key of the name map is the name of a mapped member |
| TBoxSimplification.ObjectPropertyNamesIdentify | reformulation-core/src/main/java/it/unibz/krdb/obda/owlrefplatform/core/dagjgrapht/TBoxReasonerImpl.java:472-473 | two object properties mapped under one name are the same property |
| TBoxSimplification.ClassNamesIdentify | reformulation-core/src/main/java/it/unibz/krdb/obda/owlrefplatform/core/dagjgrapht/TBoxReasonerImpl.java:537-541 | two class expressions mapped under one name are the same named class |
| TBoxSimplification.ReducedObjectPropertySet | reformulation-core/src/main/java/it/unibz/krdb/obda/owlrefplatform/core/dagjgrapht/TBoxReasonerImpl.java:463-468 | a reduced object-property set is the representative plus its inverse when the set has it, and nothing else |
| TBoxSimplification.ReducedClassSet | reformulation-core/src/main/java/it/unibz/krdb/obda/owlrefplatform/core/dagjgrapht/TBoxReasonerImpl.java:530-559 | a reduced class set holds the representative and no other named class, and an existential iff its property's name has no map entry |
| TBoxSimplification.ClassMapNamed | reformulation-core/src/main/java/it/unibz/krdb/obda/owlrefplatform/core/dagjgrapht/TBoxReasonerImpl.java:537-541 | every value of the class map is a named class, as the cast requires |
| TBoxSimplification.GetEquivalenceSimplifiedReasoner | reformulation-core/src/main/java/it/unibz/krdb/obda/owlrefplatform/core/dagjgrapht/TBoxReasonerImpl.java:446-576 | the three DAGs are reduced as specified, the property maps are computed first, existentials are judged by them, the class map holds named classes and the data-range DAG is passed through |
| TBoxSimplification.ObjectPropertyLookup | reformulation-core/src/main/java/it/unibz/krdb/obda/owlrefplatform/core/dagjgrapht/TBoxReasonerImpl.java:198-200 | a named property is looked up to the representative of its set; the representative and its inverse have no entry, so the lookup gives nothing (null) |
| TBoxSimplification.DataPropertyLookup | reformulation-core/src/main/java/it/unibz/krdb/obda/owlrefplatform/core/dagjgrapht/TBoxReasonerImpl.java:203-205 | a data property is looked up to its representative, and the representative itself to nothing |
| TBoxSimplification.ClassLookup | reformulation-core/src/main/java/it/unibz/krdb/obda/owlrefplatform/core/dagjgrapht/TBoxReasonerImpl.java:193-195 | a named class is looked up to its representative, and the representative itself to nothing |
| TBoxSimplification.ClassRepresentativesNamed | reformulation-core/src/main/java/it/unibz/krdb/obda/owlrefplatform/core/dagjgrapht/TBoxReasonerImpl.java:358-374 | representatives chosen by the class rule are named wherever the set holds another named class, so the class-map cast cannot fail |
| SubstitutionTools.Union | reformulation-core/src/main/java/org/semanticweb/ontop/owlrefplatform/core/basicoperations/ImmutableSubstitutionTools.java:203-209 | two substitutions unite iff they agree on shared variables, and the union extends both |
| SubstitutionTools.ComputeUnidirectionalSubstitution | reformulation-core/src/main/java/org/semanticweb/ontop/owlrefplatform/core/basicoperations/ImmutableSubstitutionTools.java:108-148 | the recursive matcher computes the matching specification: variable with occurs check, constant equality, functional delegation |
| SubstitutionTools.ComputeUnidirectionalSubstitutionOfFunctionalTerms | reformulation-core/src/main/java/org/semanticweb/ontop/owlrefplatform/core/basicoperations/ImmutableSubstitutionTools.java:150-214 | symbol or arity mismatch fails, a ground source matches only itself, arguments are matched left to right and united, and the first failure aborts |
| SubstitutionTools.MatchSound | reformulation-core/src/main/java/org/semanticweb/ontop/owlrefplatform/core/basicoperations/ImmutableSubstitutionTools.java:99-107 | a match binds exactly the source's variables and applying it to the source yields the target |
| SubstitutionTools.MatchFunctionalSound | reformulation-core/src/main/java/org/semanticweb/ontop/owlrefplatform/core/basicoperations/ImmutableSubstitutionTools.java:150-214 | the same soundness for functional terms |
| SubstitutionTools.MatchArgsSound | reformulation-core/src/main/java/org/semanticweb/ontop/owlrefplatform/core/basicoperations/ImmutableSubstitutionTools.java:189-213 | when the argument loop, started from bindings that solve the first i arguments, returns a substitution, that substitution binds exactly the variables of all arguments and maps every argument to its target |
| SubstitutionTools.MatchUnique | reformulation-core/src/main/java/org/semanticweb/ontop/owlrefplatform/core/basicoperations/ImmutableSubstitutionTools.java:99-107 | any substitution mapping source to target agrees with the match on the source's variables |
| SubstitutionTools.MatchComplete | reformulation-core/src/main/java/org/semanticweb/ontop/owlrefplatform/core/basicoperations/ImmutableSubstitutionTools.java:108-148 | every instance of the source that the occurs check lets through is matched, by the restriction of the instantiating substitution |
| SubstitutionTools.MatchFunctionalComplete | reformulation-core/src/main/java/org/semanticweb/ontop/owlrefplatform/core/basicoperations/ImmutableSubstitutionTools.java:150-214 | the same completeness for functional terms |
| SubstitutionTools.MatchArgsComplete | reformulation-core/src/main/java/org/semanticweb/ontop/owlrefplatform/core/basicoperations/ImmutableSubstitutionTools.java:189-213 | the argument loop started from the restriction to the matched arguments ends with the restriction to all of them |
| SubstitutionTools.RestrictUnion | reformulation-core/src/main/java/org/semanticweb/ontop/owlrefplatform/core/basicoperations/ImmutableSubstitutionTools.java:203-209 | restrictions of one substitution always unite, into the restriction to the union of the variable sets |
| SubstitutionTools.OccursCheckRejectsInstance | reformulation-core/src/main/java/org/semanticweb/ontop/owlrefplatform/core/basicoperations/ImmutableSubstitutionTools.java:113-126 | `x` against `f(x)` has no match even though `{x ↦ f(x)}` maps one to the other |
| SubstitutionTools.ExtractVar2VarSubstitution | reformulation-core/src/main/java/org/semanticweb/ontop/owlrefplatform/core/basicoperations/ImmutableSubstitutionTools.java:33-49 | the result holds exactly the entries whose value is a variable, with that variable |
| SubstitutionTools.SplitFunctionFreeSubstitution | reformulation-core/src/main/java/org/semanticweb/ontop/owlrefplatform/core/basicoperations/ImmutableSubstitutionTools.java:56-82 | fails iff an entry is neither non-functional nor an immutable functional term, naming it; otherwise the two parts partition the entries into non-functional and functional ones |
| SubstitutionTools.ApplyRenaming | reformulation-core/src/main/java/org/semanticweb/ontop/owlrefplatform/core/basicoperations/ImmutableSubstitutionTools.java:223-226 | renaming keeps the substitution's keys |
| SubstitutionTools.RenameSubstitution | reformulation-core/src/main/java/org/semanticweb/ontop/owlrefplatform/core/basicoperations/ImmutableSubstitutionTools.java:219-229 | the loop applies the renamings in list order; an empty list returns the input |
| SubstitutionTools.RenamedByKeys | reformulation-core/src/main/java/org/semanticweb/ontop/owlrefplatform/core/basicoperations/ImmutableSubstitutionTools.java:219-229 | renaming never adds or drops an entry |
| SubstitutionTools.RenamedByAppend | reformulation-core/src/main/java/org/semanticweb/ontop/owlrefplatform/core/basicoperations/ImmutableSubstitutionTools.java:219-229 | renaming by a concatenation is renaming by each part in turn |
| SubstitutionTools.ApplyCompose | reformulation-core/src/main/java/org/semanticweb/ontop/owlrefplatform/core/basicoperations/ImmutableSubstitutionTools.java:223-226 | applying two substitutions in turn is applying their composition |
| SubstitutionTools.RenamedByComposes | reformulation-core/src/main/java/org/semanticweb/ontop/owlrefplatform/core/basicoperations/ImmutableSubstitutionTools.java:219-229 | each renamed entry is the original value under the composition of all the renamings |
| SubstitutionTools.ApplyGroundless | reformulation-core/src/main/java/org/semanticweb/ontop/owlrefplatform/core/basicoperations/ImmutableSubstitutionTools.java:139-147 | the empty substitution returned for equal constants and ground terms changes nothing |
| SubstitutionTools.IsInjectiveIff | reformulation-core/src/main/java/org/semanticweb/ontop/owlrefplatform/core/basicoperations/ImmutableSubstitutionTools.java:242-249 | counting distinct values equals counting keys iff no two keys share a value |
| StrictEqNeq.NonNull | core/model/src/main/java/it/unibz/inf/ontop/model/term/functionsymbol/db/impl/AbstractDBStrictEqNeqFunctionSymbol.java:46-48 | the filtered arguments are exactly the non-NULL ones |
| StrictEqNeq.NonNullAppend | core/model/src/main/java/it/unibz/inf/ontop/model/term/functionsymbol/db/impl/AbstractDBStrictEqNeqFunctionSymbol.java:46-48 | filtering keeps argument order: the non-NULL arguments of a concatenation are those of each part, in turn |
| StrictEqNeq.NonNullTerms | core/model/src/main/java/it/unibz/inf/ontop/model/term/functionsymbol/db/impl/AbstractDBStrictEqNeqFunctionSymbol.java:46-48 | the non-NULL set holds each non-NULL argument once |
| StrictEqNeq.RowStop | core/model/src/main/java/it/unibz/inf/ontop/model/term/functionsymbol/db/impl/AbstractDBStrictEqNeqFunctionSymbol.java:86-106 | the inner loop stops at the first comparison that is not SAME_EXPRESSION, or at the end |
| StrictEqNeq.CombineExpressions | core/model/src/main/java/it/unibz/inf/ontop/model/term/functionsymbol/db/impl/AbstractDBStrictEqNeqFunctionSymbol.java:129-133 | fails with IllegalArgument iff the conjunction is absent |
| StrictEqNeq.SimplifyNonNullTerms | core/model/src/main/java/it/unibz/inf/ontop/model/term/functionsymbol/db/impl/AbstractDBStrictEqNeqFunctionSymbol.java:72-124 | the nested loops compute the row-by-row reduction of the specification |
| StrictEqNeq.ScanRow | core/model/src/main/java/it/unibz/inf/ontop/model/term/functionsymbol/db/impl/AbstractDBStrictEqNeqFunctionSymbol.java:81-108 | the inner loop over the later terms of row i turns the running state after i rows into the state after i + 1 rows, stopping early on IS_FALSE or IS_NULL |
| StrictEqNeq.SimplifyNonNull | core/model/src/main/java/it/unibz/inf/ontop/model/term/functionsymbol/db/impl/AbstractDBStrictEqNeqFunctionSymbol.java:72-124 | the row-by-row reduction fails only with the internal-bug or illegal-argument error, and reduces no terms to the constant of the operator |
| StrictEqNeq.ScanStaysStopped | core/model/src/main/java/it/unibz/inf/ontop/model/term/functionsymbol/db/impl/AbstractDBStrictEqNeqFunctionSymbol.java:97-101 | after an IS_FALSE or IS_NULL stop, later rows change nothing |
| StrictEqNeq.ScanRunning | core/model/src/main/java/it/unibz/inf/ontop/model/term/functionsymbol/db/impl/AbstractDBStrictEqNeqFunctionSymbol.java:80-109 | the reduction is still running iff no row so far ended with IS_FALSE or IS_NULL |
| StrictEqNeq.ScanKept | core/model/src/main/java/it/unibz/inf/ontop/model/term/functionsymbol/db/impl/AbstractDBStrictEqNeqFunctionSymbol.java:107-108 | a term is kept iff its row found only SAME_EXPRESSION |
| StrictEqNeq.ScanCollected | core/model/src/main/java/it/unibz/inf/ontop/model/term/functionsymbol/db/impl/AbstractDBStrictEqNeqFunctionSymbol.java:93-96 | an expression is collected iff some row ended with it |
| StrictEqNeq.FirstStopDecides | core/model/src/main/java/it/unibz/inf/ontop/model/term/functionsymbol/db/impl/AbstractDBStrictEqNeqFunctionSymbol.java:97-101 | the first IS_FALSE returns the constant `!isEq`; the first IS_NULL raises the internal-bug error |
| StrictEqNeq.LastTermKept | core/model/src/main/java/it/unibz/inf/ontop/model/term/functionsymbol/db/impl/AbstractDBStrictEqNeqFunctionSymbol.java:111-117 | the last term is always kept, so the remaining terms are never empty |
| StrictEqNeq.RunningResult | core/model/src/main/java/it/unibz/inf/ontop/model/term/functionsymbol/db/impl/AbstractDBStrictEqNeqFunctionSymbol.java:119-123 | a full run returns the combination of `StrictEq(remaining)` and the collected expressions |
| StrictEqNeq.AllSameKeepsEveryTerm | core/model/src/main/java/it/unibz/inf/ontop/model/term/functionsymbol/db/impl/AbstractDBStrictEqNeqFunctionSymbol.java:91-92 | when every pair compares as SAME_EXPRESSION, every term is kept and nothing is collected |
| StrictEqNeq.BuildTermAfterEvaluation | core/model/src/main/java/it/unibz/inf/ontop/model/term/functionsymbol/db/impl/AbstractDBStrictEqNeqFunctionSymbol.java:39-70 | fewer than two arguments fail; with a NULL and at most one distinct non-NULL the result is NULL, otherwise the simplified `FalseOrNull`/`TrueOrNull`; without NULL, all-equal arguments give `isEq` and otherwise the non-NULL simplification |
| StrictEqNeq.AtMostOneNonNull | core/model/src/main/java/it/unibz/inf/ontop/model/term/functionsymbol/db/impl/AbstractDBStrictEqNeqFunctionSymbol.java:53-54 | at most one distinct non-NULL argument iff all non-NULL arguments are equal |
| StrictEqNeq.SameArgumentExample | core/model/src/main/java/it/unibz/inf/ontop/model/term/functionsymbol/db/impl/AbstractDBStrictEqNeqFunctionSymbol.java:64-65 | `a = a` is true and `a <> a` false |
| StrictEqNeq.NullArgumentExample | core/model/src/main/java/it/unibz/inf/ontop/model/term/functionsymbol/db/impl/AbstractDBStrictEqNeqFunctionSymbol.java:50-54 | `a = NULL` and `a <> NULL` are NULL |
| StrictEqNeq.DistinctArgumentsExample | core/model/src/main/java/it/unibz/inf/ontop/model/term/functionsymbol/db/impl/AbstractDBStrictEqNeqFunctionSymbol.java:100-101 | `a = b` is false and `a <> b` true when the comparator says IS_FALSE |
| StrictEqNeq.NonNullTermsOfDistinct | core/model/src/main/java/it/unibz/inf/ontop/model/term/functionsymbol/db/impl/AbstractDBStrictEqNeqFunctionSymbol.java:46-48 | distinct non-NULL arguments are their own non-NULL set |
| StrictEqNeq.NonNullOfNonNull | core/model/src/main/java/it/unibz/inf/ontop/model/term/functionsymbol/db/impl/AbstractDBStrictEqNeqFunctionSymbol.java:46-48 | filtering arguments without NULL keeps them all |
| StrictEqNeq.IsInjective | core/model/src/main/java/it/unibz/inf/ontop/model/term/functionsymbol/db/impl/AbstractDBStrictEqNeqFunctionSymbol.java:28-31 | never injective |
| StrictEqNeq.CanBePostProcessed | core/model/src/main/java/it/unibz/inf/ontop/model/term/functionsymbol/db/impl/AbstractDBStrictEqNeqFunctionSymbol.java:33-36 | always post-processable |
| StrictEqNeq.Negate | core/model/src/main/java/it/unibz/inf/ontop/model/term/functionsymbol/db/impl/AbstractDBStrictEqNeqFunctionSymbol.java:140-143 | always fails as not implemented |
| TrueNodesRemoval.RemovalRule | reformulation-core/src/main/java/it/unibz/inf/ontop/owlrefplatform/core/optimization/TrueNodesRemovalOptimizer.java:67-72 | under a left join only the right child is removable; under an inner join, construction or TrueNode always; under any other node never |
| TrueNodesRemoval.EvaluateNode | reformulation-core/src/main/java/it/unibz/inf/ontop/owlrefplatform/core/optimization/TrueNodesRemovalOptimizer.java:56-62 | a proposal is made iff the node is a TrueNode with a parent that the rule accepts; never for the root or a left child |
| TrueNodesRemoval.TheElement | reformulation-core/src/main/java/it/unibz/inf/ontop/owlrefplatform/core/optimization/TrueNodesRemovalOptimizer.java:35-36 | the only remaining child of a join |
| TrueNodesRemoval.LeftJoinChildren | reformulation-core/src/main/java/it/unibz/inf/ontop/owlrefplatform/core/optimization/TrueNodesRemovalOptimizer.java:24-32 | a left join has exactly its left and its right child |
| TrueNodesRemoval.RemovedParent | reformulation-core/src/main/java/it/unibz/inf/ontop/owlrefplatform/core/optimization/TrueNodesRemovalOptimizer.java:28-33 | the parent of a removable TrueNode is an inner join, left join, construction node or TrueNode, distinct from it and having it as a child; under a left join it is the right argument and has exactly one sibling |
| TrueNodesRemoval.RemoveTrueNodeKinds | reformulation-core/src/main/java/it/unibz/inf/ontop/owlrefplatform/core/optimization/TrueNodesRemovalOptimizer.java:31-38 | removal deletes the TrueNode and at most its join parent, keeps every other node's kind, and removes exactly one TrueNode |
| TrueNodesRemoval.RemoveTrueNode | reformulation-core/src/main/java/it/unibz/inf/ontop/owlrefplatform/core/optimization/TrueNodesRemovalOptimizer.java:31-38 | the removed TrueNode leaves the tree and no node is added |
| TrueNodesRemoval.RemoveTrueNodeWellFormed | reformulation-core/src/main/java/it/unibz/inf/ontop/owlrefplatform/core/optimization/TrueNodesRemovalOptimizer.java:31-38 | removal yields a well-formed tree again |
| TrueNodesRemoval.DropLeafLinked | reformulation-core/src/main/java/it/unibz/inf/ontop/owlrefplatform/core/optimization/TrueNodesRemovalOptimizer.java:28-33 | dropping a TrueNode leaf keeps the parent links consistent and acyclic |
| TrueNodesRemoval.DropLeafShaped | reformulation-core/src/main/java/it/unibz/inf/ontop/owlrefplatform/core/optimization/TrueNodesRemovalOptimizer.java:37-38 | dropping a leaf keeps every join's arity when more than one child remains |
| TrueNodesRemoval.RootReplacedLinked | reformulation-core/src/main/java/it/unibz/inf/ontop/owlrefplatform/core/optimization/TrueNodesRemovalOptimizer.java:35-36 | replacing a root join by its remaining child keeps the links consistent |
| TrueNodesRemoval.RootReplacedShaped | reformulation-core/src/main/java/it/unibz/inf/ontop/owlrefplatform/core/optimization/TrueNodesRemovalOptimizer.java:35-36 | replacing a root join keeps every other node's children |
| TrueNodesRemoval.InnerReplacedLinked | reformulation-core/src/main/java/it/unibz/inf/ontop/owlrefplatform/core/optimization/TrueNodesRemovalOptimizer.java:35-36 | replacing an inner join by its remaining child keeps the links consistent, with the child in the join's position |
| TrueNodesRemoval.InnerReplacedShaped | reformulation-core/src/main/java/it/unibz/inf/ontop/owlrefplatform/core/optimization/TrueNodesRemovalOptimizer.java:35-36 | replacing an inner join keeps every node's arity |
| TrueNodesRemoval.SameChildren | reformulation-core/src/main/java/it/unibz/inf/ontop/owlrefplatform/core/optimization/TrueNodesRemovalOptimizer.java:35-36 | replacing a join keeps the number of children of every other node |
| TrueNodesRemoval.SameChildrenAt | reformulation-core/src/main/java/it/unibz/inf/ontop/owlrefplatform/core/optimization/TrueNodesRemovalOptimizer.java:35-36 | replacing a join keeps the number of children in each position of every other node |
| TrueNodesRemoval.ChildrenAtAfter | reformulation-core/src/main/java/it/unibz/inf/ontop/owlrefplatform/core/optimization/TrueNodesRemovalOptimizer.java:35-36 | a child in a position after the replacement was there before, or is the replacing child |
| TrueNodesRemoval.ChildrenAtBefore | reformulation-core/src/main/java/it/unibz/inf/ontop/owlrefplatform/core/optimization/TrueNodesRemovalOptimizer.java:35-36 | a child in a position before the replacement stays there, or is replaced by the remaining child |
| TrueNodesRemoval.RemovalUnderJoin | reformulation-core/src/main/java/it/unibz/inf/ontop/owlrefplatform/core/optimization/TrueNodesRemovalOptimizer.java:31-38 | under a join with one remaining child the join is replaced by it; with more, only the TrueNode goes and the join keeps the rest |
| TrueNodesRemoval.IntermediateQuery.constructor | reformulation-core/src/main/java/it/unibz/inf/ontop/owlrefplatform/core/optimization/TrueNodesRemovalOptimizer.java:80 | the query object holds the given tree |
| TrueNodesRemoval.IntermediateQuery.ApplyProposal | reformulation-core/src/main/java/it/unibz/inf/ontop/owlrefplatform/core/optimization/TrueNodesRemovalOptimizer.java:88 | the query becomes the removal of the proposed node, stays well-formed and loses exactly that TrueNode |
| TrueNodesRemoval.OptimizeQuery | reformulation-core/src/main/java/it/unibz/inf/ontop/owlrefplatform/core/optimization/TrueNodesRemovalOptimizer.java:80-94 | on return no TrueNode is removable, no node is added or changes kind, only joins and TrueNodes disappear, and the passes are at most the initial TrueNodes plus one |
| MappingMerger.AllPrefixes | mapping/core/src/main/java/it/unibz/inf/ontop/spec/mapping/transformer/impl/MappingMergerImpl.java:72-75 | the prefixes bound by some input |
| MappingMerger.UrisFor | mapping/core/src/main/java/it/unibz/inf/ontop/spec/mapping/transformer/impl/MappingMergerImpl.java:72-75 | the URIs bound to a prefix are exactly those some input binds it to, and there is one whenever an input binds it |
| MappingMerger.FlattenUriList | mapping/core/src/main/java/it/unibz/inf/ontop/spec/mapping/transformer/impl/MappingMergerImpl.java:85-90 | succeeds with the URI iff all URIs are one, else the conflicting-URIs error |
| MappingMerger.ConflictingPrefixesFail | mapping/core/src/main/java/it/unibz/inf/ontop/spec/mapping/transformer/impl/MappingMergerImpl.java:71-90 | a prefix bound to two different URIs makes the prefix merge fail |
| MappingMerger.FailedPrefixMergeHasConflict | mapping/core/src/main/java/it/unibz/inf/ontop/spec/mapping/transformer/impl/MappingMergerImpl.java:71-90 | conversely, a failed prefix merge has such a conflict |
| MappingMerger.MergedPrefixes | mapping/core/src/main/java/it/unibz/inf/ontop/spec/mapping/transformer/impl/MappingMergerImpl.java:71-83 | a merged prefix map has the union of the input prefixes as keys and keeps each input's URI |
| MappingMerger.MergePrefixManagers | mapping/core/src/main/java/it/unibz/inf/ontop/spec/mapping/transformer/impl/MappingMergerImpl.java:71-83 | a failed prefix merge reports conflicting URIs, and a merged table has exactly the declared prefixes as keys |
| MappingMerger.GetDefinition | mapping/core/src/main/java/it/unibz/inf/ontop/spec/mapping/transformer/impl/MappingMergerImpl.java:157-161 | the property definition first, then the class definition, else the missing-definition error |
| MappingMerger.DefinitionMap | mapping/core/src/main/java/it/unibz/inf/ontop/spec/mapping/transformer/impl/MappingMergerImpl.java:138-160 | fails iff some predicate has no definition, and then with the missing-definition error; otherwise maps exactly the predicates to their definitions |
| MappingMerger.DefinitionMaps | mapping/core/src/main/java/it/unibz/inf/ontop/spec/mapping/transformer/impl/MappingMergerImpl.java:102-105 | one table per input, failing iff some input lacks a definition, and then with the missing-definition error |
| MappingMerger.AllKeys | mapping/core/src/main/java/it/unibz/inf/ontop/spec/mapping/transformer/impl/MappingMergerImpl.java:102-105 | the predicates of some table |
| MappingMerger.DefinitionsFor | mapping/core/src/main/java/it/unibz/inf/ontop/spec/mapping/transformer/impl/MappingMergerImpl.java:102-105 | the grouped definitions of a predicate are at most one per table, and are exactly the tables' definitions of it |
| MappingMerger.DefinitionsOfLastTable | mapping/core/src/main/java/it/unibz/inf/ontop/spec/mapping/transformer/impl/MappingMergerImpl.java:102-105 | adding a table at the end appends its definition of the predicate, if any, after all earlier ones |
| MappingMerger.Holding | mapping/core/src/main/java/it/unibz/inf/ontop/spec/mapping/transformer/impl/MappingMergerImpl.java:102-105 | the indices of the tables that define a predicate: all of them, each once, in increasing order |
| MappingMerger.DefinitionsInTableOrder | mapping/core/src/main/java/it/unibz/inf/ontop/spec/mapping/transformer/impl/MappingMergerImpl.java:102-105 | the grouped definitions are exactly one per defining table, in table order |
| MappingMerger.MergeDefinitions | mapping/core/src/main/java/it/unibz/inf/ontop/spec/mapping/transformer/impl/MappingMergerImpl.java:132-136 | fails iff the query merger returns nothing; otherwise the normalised merge |
| MappingMerger.MergeTables | mapping/core/src/main/java/it/unibz/inf/ontop/spec/mapping/transformer/impl/MappingMergerImpl.java:107-111 | a merged table has every predicate of some input as key, each with the merge of its grouped definitions |
| MappingMerger.MergeTablesSucceeds | mapping/core/src/main/java/it/unibz/inf/ontop/spec/mapping/transformer/impl/MappingMergerImpl.java:107-111 | when the definitions of every predicate merge, the merged table is built |
| MappingMerger.Merge | mapping/core/src/main/java/it/unibz/inf/ontop/spec/mapping/transformer/impl/MappingMergerImpl.java:47-62 | no mapping fails; a prefix conflict fails; a success carries the merged prefixes and the merged matchers |
| MappingMerger.MergeStages | mapping/core/src/main/java/it/unibz/inf/ontop/spec/mapping/transformer/impl/MappingMergerImpl.java:47-62 | after the prefixes merge, a missing property definition, then a failed property union, then a missing class definition, then a failed class union decides the error; the merge succeeds exactly when every stage does |
| MappingMerger.TableKeysAreDeclaredPredicates | mapping/core/src/main/java/it/unibz/inf/ontop/spec/mapping/transformer/impl/MappingMergerImpl.java:100-126 | the predicates of the tables are exactly the declared properties, or classes, of the inputs |
| MappingMerger.MergedPredicateMaps | mapping/core/src/main/java/it/unibz/inf/ontop/spec/mapping/transformer/impl/MappingMergerImpl.java:100-126 | a merged mapping's property and class maps have the union of declared predicates as keys, each with the merge of the grouped definitions |
| MappingMerger.DefinitionsComeFromDeclaringMappings | mapping/core/src/main/java/it/unibz/inf/ontop/spec/mapping/transformer/impl/MappingMergerImpl.java:100-126 | a definition is grouped under a predicate iff some input declares the predicate with that definition |
| MappingMerger.MergeAll | mapping/core/src/main/java/it/unibz/inf/ontop/spec/mapping/transformer/impl/MappingMergerImpl.java:42-51 | the varargs merge of no mapping fails |
| MappingMerger.RepeatedMappingIgnored | mapping/core/src/main/java/it/unibz/inf/ontop/spec/mapping/transformer/impl/MappingMergerImpl.java:42-44 | passing a mapping again to the varargs merge changes nothing |
| SemanticIndexRdf.WrappingAdd | test/semantic-index/src/main/java/it/unibz/inf/ontop/rdf4j/rio/helpers/SemanticIndexRDFHandler.java:103 | the sum agrees with the mathematical sum modulo 2^32, and equals it when it fits |
| SemanticIndexRdf.ObjectConstantOf | test/semantic-index/src/main/java/it/unibz/inf/ontop/rdf4j/rio/helpers/SemanticIndexRDFHandler.java:116-126 | an IRI gives a URI constant, a blank node a BNode constant, anything else nothing |
| SemanticIndexRdf.LiteralConstant | test/semantic-index/src/main/java/it/unibz/inf/ontop/rdf4j/rio/helpers/SemanticIndexRDFHandler.java:146-158 | a language tag gives a language literal; no datatype gives `xsd:string`; an unknown datatype the unsupported one; otherwise the looked-up datatype |
| SemanticIndexRdf.ConstructAssertion | test/semantic-index/src/main/java/it/unibz/inf/ontop/rdf4j/rio/helpers/SemanticIndexRDFHandler.java:114-166 | fails iff the subject is not an IRI or blank node, or the predicate is not `rdf:type` and the object is none of IRI, blank node, literal; `rdf:type` gives a class assertion, a resource object an object-property assertion, a literal a data-property assertion |
| SemanticIndexRdf.ConvertAllInOrder | test/semantic-index/src/main/java/it/unibz/inf/ontop/rdf4j/rio/helpers/SemanticIndexRDFHandler.java:100-102 | the buffer converts iff every statement does, into their assertions in buffer order; a failure is the first failing statement's |
| SemanticIndexRdf.ConvertAll | test/semantic-index/src/main/java/it/unibz/inf/ontop/rdf4j/rio/helpers/SemanticIndexRDFHandler.java:99-105 | a converted buffer has one assertion per statement |
| SemanticIndexRdf.SemanticIndexRdfHandler.constructor | test/semantic-index/src/main/java/it/unibz/inf/ontop/rdf4j/rio/helpers/SemanticIndexRDFHandler.java:72-73 | a new handler has an empty buffer and a zero count |
| SemanticIndexRdf.SemanticIndexRdfHandler.LoadBuffer | test/semantic-index/src/main/java/it/unibz/inf/ontop/rdf4j/rio/helpers/SemanticIndexRDFHandler.java:99-105 | on success the converted buffer is inserted, the returned count added with 32-bit wrap and the buffer emptied; on failure nothing changes; no statement is lost or reordered |
| SemanticIndexRdf.SemanticIndexRdfHandler.HandleStatement | test/semantic-index/src/main/java/it/unibz/inf/ontop/rdf4j/rio/helpers/SemanticIndexRDFHandler.java:86-97 | appends the statement and flushes exactly when the buffer reaches 5000; a failed flush leaves the full buffer in place; after a passing call that started below 5000 the buffer is below 5000 |
| SemanticIndexRdf.SemanticIndexRdfHandler.EndRdf | test/semantic-index/src/main/java/it/unibz/inf/ontop/rdf4j/rio/helpers/SemanticIndexRDFHandler.java:76-83 | flushes what remains: on success the buffer is empty and every received statement has been loaded |
| Wrappers.DedupAppendPresent | mapping/core/src/main/java/it/unibz/inf/ontop/spec/mapping/transformer/impl/MappingMergerImpl.java:43 | adding an element already present leaves the de-duplicated set unchanged |

## Left out

- Input and output are not modelled. This covers the JDBC insert (a parameter that returns a row count), `SQLException` wrapping, RDF4J parsing, logging and `toString`.
- `InconsistentOntologyException` raised by the assertion builder is not modelled. The builder's constructors are total here.
- A failing conversion in `loadBuffer` is modelled as leaving the state unchanged. In the source the insert consumes a lazy iterator, so rows before the failing statement may already be written.
- Some parts of `TBoxReasonerImpl` rest on code that is not visible:
  - `create`, `getSigmaReasoner` and `getChainReasoner`;
  - the jgrapht construction of the DAGs and their cycle collapse;
  - the deprecated test getters.

  The DAG is a sequence of member sequences plus a direct-sub relation. Member order stands for the sets' iteration order.
- The reduced sets of the simplified reasoner are mathematical sets, not HashSet objects.
- The simplified reasoner's data-range DAG is the original DAG, passed through unchanged, as in the source.
- Some Java NullPointerException and ClassCastException failures are preconditions, not error results:
  - the class rule needs the vertex of an existential's property to exist and to have a representative;
  - the object-property rule needs the inverse of every member to have a set, at `getVertex(repInv)` and its uses; this is the `InverseClosed` precondition;
  - the data-range rule needs the set of the first member's data property, when it exists, to have a representative, at `propRep.getRange()`; this is the `DataRangeResolvable` precondition;
  - `getEquivalenceSimplifiedReasoner` needs every set to have a representative among its members;
  - the `(OClass)` cast of a class representative is the `NamedRepresentatives` precondition. `ClassRepresentativesNamed` proves that the class rule establishes it.
- GetEquivalenceSimplifiedReasoner: requires that no set be directly below itself, because `SimpleDirectedGraph` rejects self-loops.
- Some of the matcher's collaborators are not part of this model:
  - `union`, `applyRenaming` and ground-term detection;
  - `convertSubstitution` and `convertIntoVariableOrGroundTermSubstitution`, which are thin wrappers over conversion utilities.

  `Union` fails when the two substitutions disagree on a shared variable. `ApplyRenaming` renames the values of a substitution.
- The simplifier's collaborators are parameters of `TermFactory`: the comparator `evaluateStrictEq`, the conjunction builder, the negation of a conjunction, and the simplification of `FalseOrNull`/`TrueOrNull`. As a result, the value of `EQ(a, b, NULL)` after that simplification is not derived here.
- The query-merger, normaliser and URI-template-matcher merge of the mapping merger are parameters. Guice injection is not modelled.
- `IntermediateQuery.applyProposal` is not part of this model. Removal follows the optimizer's class documentation: drop the TrueNode, and replace a join parent that is left with one child by that child. `EmptyQueryException` is not modelled.
- TrueNodesRemoval.RemovalRule: a TrueNode parent is accepted, as in the code. Well-formed trees have TrueNodes only as leaves, so that case never arises.
- TrueNodesRemoval.RemovalRule: any construction node is accepted, as in the code (`TrueNodesRemovalOptimizer.java:69`). The class documentation (lines 21 and 28) allows only a construction node without projected variables.
- StrictEqNeq.BuildTermAfterEvaluation: the code keeps every term except the dropped earlier term `i`, and always wraps the remaining terms in `StrictEq`, even when only one remains. The model follows the code.
- The data-range choice tests whether a data range is a named class (`instanceof OClass`). That test can never hold, so no data-range set is ever flagged indexed. The model keeps this, and `ChooseDataRangeRepresentatives` states it.
- The `Unknown data property` `IllegalStateException` of the data-range choice is modelled as a `Fail` outcome. The sets already assigned keep their new representatives.
