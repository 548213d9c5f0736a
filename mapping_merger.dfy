/** Merging of the mappings of several data sources into one mapping: the
    prefix-to-URI tables are united (a prefix bound to two different URIs is a
    merge conflict), the URI-template matchers are merged, and for every RDF
    property and class the definitions that the sources give for it are merged
    into one normalized definition.

    Queries (`Q`) and URI-template matchers (`M`) are opaque here; the query
    merger, the normalizer and the matcher merge are collaborators passed in. */
module MappingMerger {
  import opened Wrappers

  type Iri = string

  /** One source's mapping: its prefix manager, its URI-template matcher, the RDF
      properties and classes it covers and the definitions it holds for them. */
  datatype Mapping<Q, M> = Mapping(
    prefixes: map<string, string>,
    matcher: M,
    rdfProperties: set<Iri>,
    rdfClasses: set<Iri>,
    propertyDefinitions: map<Iri, Q>,
    classDefinitions: map<Iri, Q>)

  datatype MergedMapping<Q, M> = MergedMapping(
    prefixes: map<string, string>,
    matcher: M,
    propertyMap: map<Iri, Q>,
    classMap: map<Iri, Q>)

  /** The union-based query merger (absent when there is nothing to merge), the
      mapping normalizer and the matcher merge. */
  datatype Collaborators<!Q, !M> = Collaborators(
    mergeQueries: seq<Q> -> Option<Q>,
    normalize: Q -> Q,
    mergeMatchers: seq<M> -> M)

  /** `IllegalArgumentException` for an empty input; the three reasons of a
      `MappingMergingException`. */
  datatype MergeError =
    | EmptyMappingSet
    | ConflictingUris
    | MissingDefinition
    | MissingMergedDefinition

  // ---------------------------------------------------------------------------
  // Prefixes

  /** Every prefix declared by some mapping. */
  function AllPrefixes<Q, M>(ms: seq<Mapping<Q, M>>): (r: set<string>)
    ensures forall p :: p in r <==> exists i :: 0 <= i < |ms| && p in ms[i].prefixes
  {
    if ms == [] then {}
    else
      var r := AllPrefixes(ms[1..]) + ms[0].prefixes.Keys;
      assert forall i :: 1 <= i < |ms| ==> ms[i] == ms[1..][i - 1];
      r
  }

  /** The URIs bound to `prefix`, one per mapping that declares it, in mapping
      order (the multimap's value collection). */
  function UrisFor<Q, M>(ms: seq<Mapping<Q, M>>, prefix: string): (r: seq<string>)
    ensures forall u :: u in r <==> exists i :: 0 <= i < |ms| && prefix in ms[i].prefixes && ms[i].prefixes[prefix] == u
    ensures (exists i :: 0 <= i < |ms| && prefix in ms[i].prefixes) ==> |r| > 0
  {
    if ms == [] then []
    else
      assert forall i :: 1 <= i < |ms| ==> ms[i] == ms[1..][i - 1];
      var rest := UrisFor(ms[1..], prefix);
      if prefix in ms[0].prefixes then [ms[0].prefixes[prefix]] + rest else rest
  }

  /** The URI of a prefix when all the URIs collected for it are the same one. */
  function FlattenUriList(uris: seq<string>): (r: Result<string, MergeError>)
    ensures r.Success? <==> |uris| > 0 && forall i :: 0 <= i < |uris| ==> uris[i] == uris[0]
    ensures r.Success? ==> r.value == uris[0]
    ensures r.Failure? ==> r.error == ConflictingUris
  {
    var distinct := set u | u in uris;
    if |uris| > 0 && distinct == {uris[0]} then
      assert forall i :: 0 <= i < |uris| ==> uris[i] in distinct;
      Success(uris[0])
    else
      assert |uris| > 0 && (forall i :: 0 <= i < |uris| ==> uris[i] == uris[0]) ==> distinct == {uris[0]};
      Failure(ConflictingUris)
  }

  /** The merged prefix table, or a conflict when some prefix has two URIs.
      The lemmas below show that this fails exactly when two mappings bind
      one prefix to different URIs, and otherwise binds every declared prefix
      to the URI every mapping gives it. */
  function MergePrefixManagers<Q, M>(ms: seq<Mapping<Q, M>>): (r: Result<map<string, string>, MergeError>)
    ensures r.Failure? ==> r.error == ConflictingUris
    ensures r.Success? ==> r.value.Keys == AllPrefixes(ms)
  {
    var keys := AllPrefixes(ms);
    if exists p | p in keys :: FlattenUriList(UrisFor(ms, p)).Failure? then Failure(ConflictingUris)
    else Success(map p | p in keys :: FlattenUriList(UrisFor(ms, p)).value)
  }

  /** Two mappings binding one prefix to different URIs make the merge fail. */
  lemma {:induction false} ConflictingPrefixesFail<Q, M>(ms: seq<Mapping<Q, M>>, i: nat, j: nat, p: string)
    requires i < |ms| && j < |ms| && p in ms[i].prefixes && p in ms[j].prefixes
    requires ms[i].prefixes[p] != ms[j].prefixes[p]
    ensures MergePrefixManagers(ms) == Failure(ConflictingUris)
  {
    var uris := UrisFor(ms, p);
    assert p in AllPrefixes(ms);
    assert ms[i].prefixes[p] in uris && ms[j].prefixes[p] in uris;
    assert FlattenUriList(uris).Failure?;
  }

  /** A failed prefix merge has a witness: two mappings that bind one prefix to
      different URIs. */
  lemma {:induction false} FailedPrefixMergeHasConflict<Q, M>(ms: seq<Mapping<Q, M>>)
    requires MergePrefixManagers(ms).Failure?
    ensures MergePrefixManagers(ms).error == ConflictingUris
    ensures exists i, j, p :: 0 <= i < |ms| && 0 <= j < |ms| && p in ms[i].prefixes && p in ms[j].prefixes &&
                              ms[i].prefixes[p] != ms[j].prefixes[p]
  {
    var p :| p in AllPrefixes(ms) && FlattenUriList(UrisFor(ms, p)).Failure?;
    var uris := UrisFor(ms, p);
    var k :| 0 <= k < |uris| && uris[k] != uris[0];
    assert uris[0] in uris && uris[k] in uris;
    var i :| 0 <= i < |ms| && p in ms[i].prefixes && ms[i].prefixes[p] == uris[0];
    var j :| 0 <= j < |ms| && p in ms[j].prefixes && ms[j].prefixes[p] == uris[k];
  }

  /** A successful prefix merge has every declared prefix, bound to the URI
      every mapping gives it, and nothing else. */
  lemma {:induction false} MergedPrefixes<Q, M>(ms: seq<Mapping<Q, M>>)
    requires MergePrefixManagers(ms).Success?
    ensures forall p :: p in MergePrefixManagers(ms).value <==> p in AllPrefixes(ms)
    ensures forall i, p :: 0 <= i < |ms| && p in ms[i].prefixes ==>
              p in MergePrefixManagers(ms).value && MergePrefixManagers(ms).value[p] == ms[i].prefixes[p]
  {
    var merged := MergePrefixManagers(ms).value;
    forall i, p | 0 <= i < |ms| && p in ms[i].prefixes
      ensures p in merged && merged[p] == ms[i].prefixes[p]
    {
      assert p in AllPrefixes(ms);
      assert ms[i].prefixes[p] in UrisFor(ms, p);
    }
  }

  // ---------------------------------------------------------------------------
  // Definitions

  /** The definition of a predicate in one mapping: its property definition if
      it has one, else its class definition, else a merge error. */
  function GetDefinition<Q, M>(m: Mapping<Q, M>, pred: Iri): (r: Result<Q, MergeError>)
    ensures pred in m.propertyDefinitions ==> r == Success(m.propertyDefinitions[pred])
    ensures pred !in m.propertyDefinitions && pred in m.classDefinitions ==>
              r == Success(m.classDefinitions[pred])
    ensures r.Failure? <==> pred !in m.propertyDefinitions && pred !in m.classDefinitions
    ensures r.Failure? ==> r.error == MissingDefinition
  {
    if pred in m.propertyDefinitions then Success(m.propertyDefinitions[pred])
    else if pred in m.classDefinitions then Success(m.classDefinitions[pred])
    else Failure(MissingDefinition)
  }

  /** The predicate-to-definition table of one mapping over the given predicates
      (its RDF properties or its RDF classes). */
  function DefinitionMap<Q, M>(m: Mapping<Q, M>, predicates: set<Iri>): (r: Result<map<Iri, Q>, MergeError>)
    ensures r.Failure? <==> exists p :: p in predicates && GetDefinition(m, p).Failure?
    ensures r.Success? ==> (r.value.Keys == predicates &&
              forall p :: p in predicates ==> r.value[p] == GetDefinition(m, p).value)
    ensures r.Failure? ==> r.error == MissingDefinition
  {
    if exists p | p in predicates :: GetDefinition(m, p).Failure? then Failure(MissingDefinition)
    else Success(map p | p in predicates :: GetDefinition(m, p).value)
  }

  /** The RDF properties of a mapping, or its RDF classes. */
  function PredicatesOf<Q, M>(m: Mapping<Q, M>, properties: bool): set<Iri> {
    if properties then m.rdfProperties else m.rdfClasses
  }

  /** The definition tables of all mappings, in mapping order. `properties`
      selects the RDF properties, otherwise the RDF classes. */
  function DefinitionMaps<Q, M>(ms: seq<Mapping<Q, M>>, properties: bool): (r: Result<seq<map<Iri, Q>>, MergeError>)
    ensures r.Success? ==> |r.value| == |ms|
    ensures r.Success? ==> forall i :: 0 <= i < |ms| ==>
              DefinitionMap(ms[i], PredicatesOf(ms[i], properties)) == Success(r.value[i])
    ensures r.Failure? <==>
              exists i :: 0 <= i < |ms| && DefinitionMap(ms[i], PredicatesOf(ms[i], properties)).Failure?
    ensures r.Failure? ==> r.error == MissingDefinition
  {
    if ms == [] then Success([])
    else
      assert forall i :: 1 <= i < |ms| ==> ms[i] == ms[1..][i - 1];
      match DefinitionMap(ms[0], PredicatesOf(ms[0], properties))
      case Failure(e) => Failure(e)
      case Success(first) =>
        match DefinitionMaps(ms[1..], properties)
        case Failure(e) => Failure(e)
        case Success(rest) => Success([first] + rest)
  }

  /** Every pred some table defines. */
  function AllKeys<Q>(tables: seq<map<Iri, Q>>): (r: set<Iri>)
    ensures forall p :: p in r <==> exists i :: 0 <= i < |tables| && p in tables[i]
  {
    if tables == [] then {}
    else
      assert forall i :: 1 <= i < |tables| ==> tables[i] == tables[1..][i - 1];
      AllKeys(tables[1..]) + tables[0].Keys
  }

  /** The definitions of `pred`, one per table that has it, in table order. */
  function DefinitionsFor<Q>(tables: seq<map<Iri, Q>>, pred: Iri): (r: seq<Q>)
    ensures |r| <= |tables|
    ensures forall i :: 0 <= i < |tables| && pred in tables[i] ==> tables[i][pred] in r
    ensures forall k :: 0 <= k < |r| ==> exists i :: 0 <= i < |tables| && pred in tables[i] && tables[i][pred] == r[k]
  {
    if tables == [] then []
    else
      var rest := DefinitionsFor(tables[1..], pred);
      assert tables == [tables[0]] + tables[1..];
      FirstTableDefinition(tables[0], tables[1..], pred, rest);
      if pred in tables[0] then [tables[0][pred]] + rest else rest
  }

  /** Putting the first table's definition, if any, before definitions drawn
      from the other tables gives definitions drawn from all of them. */
  lemma FirstTableDefinition<Q>(first: map<Iri, Q>, others: seq<map<Iri, Q>>, pred: Iri, rest: seq<Q>)
    requires |rest| <= |others|
    requires forall i :: 0 <= i < |others| && pred in others[i] ==> others[i][pred] in rest
    requires forall k :: 0 <= k < |rest| ==> exists i :: 0 <= i < |others| && pred in others[i] && others[i][pred] == rest[k]
    ensures var tables, r := [first] + others, if pred in first then [first[pred]] + rest else rest;
            && |r| <= |tables|
            && (forall i :: 0 <= i < |tables| && pred in tables[i] ==> tables[i][pred] in r)
            && (forall k :: 0 <= k < |r| ==> exists i :: 0 <= i < |tables| && pred in tables[i] && tables[i][pred] == r[k])
  {
    var tables, r := [first] + others, if pred in first then [first[pred]] + rest else rest;
    var skip := |r| - |rest|;
    forall i | 0 <= i < |tables| && pred in tables[i] ensures tables[i][pred] in r {
      if i > 0 {
        assert tables[i] == others[i - 1];
      }
    }
    forall k | 0 <= k < |r| ensures exists i :: 0 <= i < |tables| && pred in tables[i] && tables[i][pred] == r[k] {
      if k < skip {
        assert tables[0][pred] == r[k];
      } else {
        assert r[k] == rest[k - skip];
        var i :| 0 <= i < |others| && pred in others[i] && others[i][pred] == rest[k - skip];
        assert tables[i + 1] == others[i];
      }
    }
  }

  /** The definition of the last table, if it has one, comes last. */
  lemma {:induction false} DefinitionsOfLastTable<Q>(tables: seq<map<Iri, Q>>, pred: Iri)
    requires tables != []
    ensures var n := |tables| - 1;
            DefinitionsFor(tables, pred) ==
              DefinitionsFor(tables[..n], pred) + (if pred in tables[n] then [tables[n][pred]] else [])
  {
    var n := |tables| - 1;
    if n > 0 {
      DefinitionsOfLastTable(tables[1..], pred);
      assert tables[1..][..n - 1] == tables[..n][1..];
      assert tables[1..][n - 1] == tables[n];
    }
  }

  /** The indices of the tables that define `pred`, in increasing order. */
  function Holding<Q>(tables: seq<map<Iri, Q>>, pred: Iri): (r: seq<nat>)
    ensures forall k :: 0 <= k < |r| ==> r[k] < |tables| && pred in tables[r[k]]
    ensures forall i :: 0 <= i < |tables| && pred in tables[i] ==> i in r
    ensures forall k :: 0 < k < |r| ==> r[k - 1] < r[k]
  {
    if tables == [] then []
    else
      var n := |tables| - 1;
      assert forall i :: 0 <= i < n ==> tables[i] == tables[..n][i];
      var before := Holding(tables[..n], pred);
      if pred in tables[n] then before + [n] else before
  }

  /** The definitions of `pred` are exactly the ones of the tables that
      define it, one per table and in table order. */
  lemma {:induction false} DefinitionsInTableOrder<Q>(tables: seq<map<Iri, Q>>, pred: Iri)
    ensures var defs, holding := DefinitionsFor(tables, pred), Holding(tables, pred);
            |defs| == |holding| && forall k :: 0 <= k < |defs| ==> defs[k] == tables[holding[k]][pred]
  {
    if tables != [] {
      var n := |tables| - 1;
      DefinitionsInTableOrder(tables[..n], pred);
      DefinitionsOfLastTable(tables, pred);
      LastTableAligned(tables, pred, DefinitionsFor(tables[..n], pred), Holding(tables[..n], pred));
    }
  }

  /** Definitions aligned with the indices of the tables before the last stay
      aligned when the last table's definition and index, if any, are
      appended. */
  lemma LastTableAligned<Q>(tables: seq<map<Iri, Q>>, pred: Iri, defs: seq<Q>, holding: seq<nat>)
    requires tables != [] && |defs| == |holding|
    requires forall k :: 0 <= k < |holding| ==>
               holding[k] < |tables| - 1 && pred in tables[..|tables| - 1][holding[k]] &&
               defs[k] == tables[..|tables| - 1][holding[k]][pred]
    ensures var n := |tables| - 1;
            var defs', holding' := defs + (if pred in tables[n] then [tables[n][pred]] else []),
                                   if pred in tables[n] then holding + [n] else holding;
            |defs'| == |holding'| &&
            forall k :: 0 <= k < |defs'| ==>
              holding'[k] < |tables| && pred in tables[holding'[k]] && defs'[k] == tables[holding'[k]][pred]
  {
    var n := |tables| - 1;
    var defs', holding' := defs + (if pred in tables[n] then [tables[n][pred]] else []),
                           if pred in tables[n] then holding + [n] else holding;
    forall k | 0 <= k < |defs'|
      ensures holding'[k] < |tables| && pred in tables[holding'[k]] && defs'[k] == tables[holding'[k]][pred]
    {
      if k < |defs| {
        assert defs'[k] == defs[k] && holding'[k] == holding[k];
        assert tables[..n][holding[k]] == tables[holding[k]];
      }
    }
  }

  /** The union of the definitions, normalized; absent union is a merge error. */
  function MergeDefinitions<Q, M>(queries: seq<Q>, c: Collaborators<Q, M>): (r: Result<Q, MergeError>)
    ensures r.Failure? <==> c.mergeQueries(queries).None?
    ensures r.Failure? ==> r.error == MissingMergedDefinition
    ensures r.Success? ==> r.value == c.normalize(c.mergeQueries(queries).value)
  {
    match c.mergeQueries(queries)
    case None => Failure(MissingMergedDefinition)
    case Some(q) => Success(c.normalize(q))
  }

  /** One merged table over all predicates of the given tables; it is built
      exactly when the definitions of every predicate merge. */
  function MergeTables<Q, M>(tables: seq<map<Iri, Q>>, c: Collaborators<Q, M>): (r: Result<map<Iri, Q>, MergeError>)
    ensures r.Failure? ==> r.error == MissingMergedDefinition
    ensures r.Success? ==> (r.value.Keys == AllKeys(tables) &&
              forall p :: p in r.value ==> MergeDefinitions(DefinitionsFor(tables, p), c) == Success(r.value[p]))
  {
    var keys := AllKeys(tables);
    if exists p | p in keys :: MergeDefinitions(DefinitionsFor(tables, p), c).Failure? then Failure(MissingMergedDefinition)
    else Success(map p | p in keys :: MergeDefinitions(DefinitionsFor(tables, p), c).value)
  }

  /** When the definitions of every predicate merge, the table is built. */
  lemma MergeTablesSucceeds<Q, M>(tables: seq<map<Iri, Q>>, c: Collaborators<Q, M>)
    requires forall p :: p in AllKeys(tables) ==> MergeDefinitions(DefinitionsFor(tables, p), c).Success?
    ensures MergeTables(tables, c).Success?
  {
  }

  function Matchers<Q, M>(ms: seq<Mapping<Q, M>>): (r: seq<M>)
    ensures |r| == |ms| && forall i :: 0 <= i < |ms| ==> r[i] == ms[i].matcher
  {
    seq(|ms|, i requires 0 <= i < |ms| => ms[i].matcher)
  }

  // ---------------------------------------------------------------------------
  // Merge

  /** Merges a set of mappings (given in its iteration order). The stages run in
      the source's order, so the first failing stage decides the error: prefixes,
      then property definitions, then class definitions. */
  function Merge<Q, M>(ms: seq<Mapping<Q, M>>, c: Collaborators<Q, M>): (r: Result<MergedMapping<Q, M>, MergeError>)
    ensures ms == [] ==> r == Failure(EmptyMappingSet)
    ensures ms != [] && MergePrefixManagers(ms).Failure? ==> r == Failure(ConflictingUris)
    ensures r.Success? ==> ms != [] && MergePrefixManagers(ms) == Success(r.value.prefixes)
    ensures r.Success? ==> r.value.matcher == c.mergeMatchers(Matchers(ms))
  {
    if ms == [] then Failure(EmptyMappingSet)
    else
      match MergePrefixManagers(ms)
      case Failure(e) => Failure(e)
      case Success(prefixes) =>
        var matcher := c.mergeMatchers(Matchers(ms));
        match DefinitionMaps(ms, true)
        case Failure(e) => Failure(e)
        case Success(propertyTables) =>
          match MergeTables(propertyTables, c)
          case Failure(e) => Failure(e)
          case Success(propertyMap) =>
            match DefinitionMaps(ms, false)
            case Failure(e) => Failure(e)
            case Success(classTables) =>
              match MergeTables(classTables, c)
              case Failure(e) => Failure(e)
              case Success(classMap) => Success(MergedMapping(prefixes, matcher, propertyMap, classMap))
  }

  /** Once the prefixes merge, the definition stages decide the result in the
      source's order: a missing definition, then a failed union of
      definitions, for the properties and then for the classes; a merge
      whose every stage succeeds is a success. */
  lemma MergeStages<Q, M>(ms: seq<Mapping<Q, M>>, c: Collaborators<Q, M>)
    requires ms != [] && MergePrefixManagers(ms).Success?
    ensures DefinitionMaps(ms, true).Failure? ==> Merge(ms, c) == Failure(MissingDefinition)
    ensures DefinitionMaps(ms, true).Success? && MergeTables(DefinitionMaps(ms, true).value, c).Failure? ==>
              Merge(ms, c) == Failure(MissingMergedDefinition)
    ensures DefinitionMaps(ms, true).Success? && MergeTables(DefinitionMaps(ms, true).value, c).Success? &&
            DefinitionMaps(ms, false).Failure? ==>
              Merge(ms, c) == Failure(MissingDefinition)
    ensures DefinitionMaps(ms, true).Success? && MergeTables(DefinitionMaps(ms, true).value, c).Success? &&
            DefinitionMaps(ms, false).Success? && MergeTables(DefinitionMaps(ms, false).value, c).Failure? ==>
              Merge(ms, c) == Failure(MissingMergedDefinition)
    ensures Merge(ms, c).Success? <==>
              && DefinitionMaps(ms, true).Success? && MergeTables(DefinitionMaps(ms, true).value, c).Success?
              && DefinitionMaps(ms, false).Success? && MergeTables(DefinitionMaps(ms, false).value, c).Success?
  {
  }

  /** The predicates defined by the definition tables of some mapping are
      exactly the predicates (properties, or classes) that mapping declares. */
  lemma {:induction false} TableKeysAreDeclaredPredicates<Q, M>(ms: seq<Mapping<Q, M>>, properties: bool)
    requires DefinitionMaps(ms, properties).Success?
    ensures forall p :: p in AllKeys(DefinitionMaps(ms, properties).value) <==>
              exists i :: 0 <= i < |ms| && p in PredicatesOf(ms[i], properties)
  {
    var tables := DefinitionMaps(ms, properties).value;
    forall p
      ensures p in AllKeys(tables) <==> exists i :: 0 <= i < |ms| && p in PredicatesOf(ms[i], properties)
    {
      if exists i :: 0 <= i < |ms| && p in PredicatesOf(ms[i], properties) {
        var i :| 0 <= i < |ms| && p in PredicatesOf(ms[i], properties);
        assert p in tables[i];
      }
    }
  }

  /** The merged property map has an entry for every RDF property of every input
      mapping and nothing else; its value merges the definitions of that property
      found in the mappings that declare it, in mapping order. The same holds of
      the class map. */
  lemma {:induction false} MergedPredicateMaps<Q, M>(ms: seq<Mapping<Q, M>>, c: Collaborators<Q, M>)
    requires Merge(ms, c).Success?
    ensures DefinitionMaps(ms, true).Success? && DefinitionMaps(ms, false).Success?
    ensures var merged := Merge(ms, c).value;
            (forall p :: p in merged.propertyMap <==> exists i :: 0 <= i < |ms| && p in ms[i].rdfProperties) &&
            (forall p :: p in merged.classMap <==> exists i :: 0 <= i < |ms| && p in ms[i].rdfClasses)
    ensures var merged := Merge(ms, c).value;
            forall p :: p in merged.propertyMap ==>
              MergeDefinitions(DefinitionsFor(DefinitionMaps(ms, true).value, p), c) == Success(merged.propertyMap[p])
    ensures var merged := Merge(ms, c).value;
            forall p :: p in merged.classMap ==>
              MergeDefinitions(DefinitionsFor(DefinitionMaps(ms, false).value, p), c) == Success(merged.classMap[p])
  {
    var merged := Merge(ms, c).value;
    assert DefinitionMaps(ms, true).Success?;
    var propertyTables := DefinitionMaps(ms, true).value;
    assert MergeTables(propertyTables, c) == Success(merged.propertyMap);
    assert DefinitionMaps(ms, false).Success?;
    var classTables := DefinitionMaps(ms, false).value;
    assert MergeTables(classTables, c) == Success(merged.classMap);
    TableKeysAreDeclaredPredicates(ms, true);
    TableKeysAreDeclaredPredicates(ms, false);
  }

  /** Every definition that goes into the merge of a pred comes from a
      mapping that declares it, looked up property-first. */
  lemma {:induction false} DefinitionsComeFromDeclaringMappings<Q, M>(ms: seq<Mapping<Q, M>>, properties: bool, p: Iri)
    requires DefinitionMaps(ms, properties).Success?
    ensures forall q :: q in DefinitionsFor(DefinitionMaps(ms, properties).value, p) <==>
              exists i :: 0 <= i < |ms| && p in (PredicatesOf(ms[i], properties)) &&
                          GetDefinition(ms[i], p) == Success(q)
  {
    var tables := DefinitionMaps(ms, properties).value;
    forall q
      ensures q in DefinitionsFor(tables, p) <==>
                exists i :: 0 <= i < |ms| && p in (PredicatesOf(ms[i], properties)) &&
                            GetDefinition(ms[i], p) == Success(q)
    {
      if q in DefinitionsFor(tables, p) {
        var i :| 0 <= i < |tables| && p in tables[i] && tables[i][p] == q;
        assert GetDefinition(ms[i], p) == Success(q);
      }
      if exists i :: 0 <= i < |ms| && p in (PredicatesOf(ms[i], properties)) &&
                     GetDefinition(ms[i], p) == Success(q) {
        var i :| 0 <= i < |ms| && p in (PredicatesOf(ms[i], properties)) &&
                 GetDefinition(ms[i], p) == Success(q);
        assert p in tables[i] && tables[i][p] == q;
      }
    }
  }

  /** The varargs entry point: the arguments are first collected into a set, so
      repeated mappings are merged once. */
  function MergeAll<Q(==), M(==)>(ms: seq<Mapping<Q, M>>, c: Collaborators<Q, M>): (r: Result<MergedMapping<Q, M>, MergeError>)
    ensures ms == [] ==> r == Failure(EmptyMappingSet)
  {
    Merge(Dedup(ms), c)
  }

  /** Passing a mapping twice to the varargs merge changes nothing. */
  lemma RepeatedMappingIgnored<Q, M>(ms: seq<Mapping<Q, M>>, m: Mapping<Q, M>, c: Collaborators<Q, M>)
    requires m in ms
    ensures MergeAll(ms + [m], c) == MergeAll(ms, c)
  {
    DedupAppendPresent(ms, m);
  }
}
