/** The equivalence simplification of a TBox reasoner: every set of
    equivalent expressions is reduced to its representative (and, for object
    properties, the representative's inverse), every other name is mapped to
    the representative, and the edges between sets are copied over. */
module TBoxSimplification {
  import opened Wrappers
  import opened TBoxEntities
  import opened TBoxRepresentatives

  /** What the reduction does with a member of a set other than the
      representative: keep it in the reduced set, map its name to the
      representative, or drop it. */
  datatype Verdict = Keep | MapName(name: string) | Drop

  /** The representative is always kept; every other member is judged by
      the rule of its kind of set. */
  function Judge<T(==)>(x: T, rep: T, verdict: (T, T) -> Verdict): Verdict {
    if x == rep then Keep else verdict(x, rep)
  }

  /** Object properties: the inverse of the representative is kept, a named
      property is mapped, an inverse is left to its own set. */
  function ObjectPropertyVerdict(x: ObjectProperty, rep: ObjectProperty): Verdict {
    if x == Inverse(rep) then Keep
    else if !x.isInverse then MapName(x.name)
    else Drop
  }

  /** Data properties: every other member is mapped. */
  function DataPropertyVerdict(x: DataProperty, rep: DataProperty): Verdict {
    MapName(x.name)
  }

  /** Classes: a named class is mapped; an existential is kept exactly when
      its property is not mapped to another property, that is, when the
      property is a representative itself. */
  function ClassVerdict(objectPropertyMap: map<string, ObjectProperty>, dataPropertyMap: map<string, DataProperty>,
                        x: ClassExpression, rep: ClassExpression): Verdict
  {
    match x
    case OClass(n) => MapName(n)
    case ObjectSomeValuesFrom(p) => if p.name in objectPropertyMap then Drop else Keep
    case DataSomeValuesFrom(dp, _) => if dp.name in dataPropertyMap then Drop else Keep
  }

  /** The members a set keeps. */
  function Kept<T(==)>(s: seq<T>, rep: T, verdict: (T, T) -> Verdict): set<T> {
    set x | x in s && Judge(x, rep, verdict).Keep?
  }

  /** The name entries a set adds to `m`, in iteration order. */
  function NamePuts<T(==)>(s: seq<T>, rep: T, verdict: (T, T) -> Verdict, m: map<string, T>): map<string, T> {
    if s == [] then m
    else
      var prev := NamePuts(s[..|s| - 1], rep, verdict, m);
      var v := Judge(s[|s| - 1], rep, verdict);
      if v.MapName? then prev[v.name := rep] else prev
  }

  /** The name map after the first `n` sets. */
  function NameMap<T(==)>(members: seq<seq<T>>, reps: seq<T>, verdict: (T, T) -> Verdict, n: nat): map<string, T>
    requires n <= |members| && |reps| == |members|
  {
    if n == 0 then map[] else NamePuts(members[n - 1], reps[n - 1], verdict, NameMap(members, reps, verdict, n - 1))
  }

  /** The map from every kept member to its reduced set, after the first
      `n` sets. */
  function NodeMap<T(==)>(members: seq<seq<T>>, reps: seq<T>, verdict: (T, T) -> Verdict, n: nat): map<T, nat>
    requires n <= |members| && |reps| == |members|
  {
    if n == 0 then map[]
    else
      var kept := Kept(members[n - 1], reps[n - 1], verdict);
      NodeMap(members, reps, verdict, n - 1) + map x | x in kept :: n - 1
  }

  /** The representatives of a DAG whose every set has one. */
  function RepresentativeValues<T>(reps: seq<Option<T>>): (r: seq<T>)
    requires forall k :: 0 <= k < |reps| ==> reps[k].Some?
    ensures |r| == |reps| && forall k :: 0 <= k < |reps| ==> reps[k] == Some(r[k])
  {
    if reps == [] then [] else RepresentativeValues(reps[..|reps| - 1]) + [reps[|reps| - 1].value]
  }

  /** A reduced DAG: the kept members of every set, its representative and
      `indexed` flag, the reduced set of every kept member, and the edges
      (sub, super) between reduced sets. */
  datatype ReducedDag<T> = ReducedDag(
    members: seq<set<T>>,
    representative: seq<T>,
    indexed: seq<bool>,
    nodeOf: map<T, nat>,
    edges: set<(nat, nat)>)

  /** The edges between reduced sets contributed by the first `n` sets:
      one from the reduced set of the representative of every direct
      sub-set to that of the set. */
  function CopiedEdges<T>(reps: seq<T>, directSub: seq<set<nat>>, nodeOf: map<T, nat>, n: nat): set<(nat, nat)>
    requires n <= |directSub| == |reps| && forall k :: 0 <= k < |reps| ==> reps[k] in nodeOf
  {
    set i, j | 0 <= i < n && j in directSub[i] && j < |reps| :: (nodeOf[reps[j]], nodeOf[reps[i]])
  }

  /** `copyEdges`: for every set and every direct sub-set, an edge between
      the reduced sets of their representatives. */
  method CopyEdges<T>(reps: seq<T>, directSub: seq<set<nat>>, nodeOf: map<T, nat>) returns (edges: set<(nat, nat)>)
    requires |directSub| == |reps| && forall k :: 0 <= k < |reps| ==> reps[k] in nodeOf
    requires forall i, j :: 0 <= i < |directSub| && j in directSub[i] ==> j < |reps|
    requires forall i, j :: 0 <= i < |directSub| && j in directSub[i] ==> nodeOf[reps[j]] != nodeOf[reps[i]]
    ensures edges == CopiedEdges(reps, directSub, nodeOf, |directSub|)
  {
    edges := {};
    var i := 0;
    while i < |directSub|
      invariant 0 <= i <= |directSub|
      invariant edges == CopiedEdges(reps, directSub, nodeOf, i)
    {
      var reducedNode := nodeOf[reps[i]];
      var subs := directSub[i];
      ghost var before := edges;
      while subs != {}
        invariant subs <= directSub[i]
        invariant edges == before + set j | j in directSub[i] - subs :: (nodeOf[reps[j]], reducedNode)
        decreases subs
      {
        var j :| j in subs;
        edges := edges + {(nodeOf[reps[j]], reducedNode)};
        subs := subs - {j};
      }
      CopiedEdgesStep(reps, directSub, nodeOf, i);
      i := i + 1;
    }
  }

  lemma CopiedEdgesStep<T>(reps: seq<T>, directSub: seq<set<nat>>, nodeOf: map<T, nat>, i: nat)
    requires |directSub| == |reps| && i < |reps| && forall k :: 0 <= k < |reps| ==> reps[k] in nodeOf
    requires forall a, j :: 0 <= a < |directSub| && j in directSub[a] ==> j < |reps|
    ensures CopiedEdges(reps, directSub, nodeOf, i + 1) ==
            CopiedEdges(reps, directSub, nodeOf, i) + set j | j in directSub[i] :: (nodeOf[reps[j]], nodeOf[reps[i]])
  {
  }

  /** The reduced sets of all sets. */
  function KeptSets<T(==)>(members: seq<seq<T>>, reps: seq<T>, verdict: (T, T) -> Verdict): (r: seq<set<T>>)
    requires |reps| == |members|
    ensures |r| == |members| && forall i :: 0 <= i < |members| ==> r[i] == Kept(members[i], reps[i], verdict)
    ensures forall i, x :: 0 <= i < |members| && x in r[i] ==> x in members[i]
    ensures forall i :: 0 <= i < |members| && reps[i] in members[i] ==> reps[i] in r[i]
    ensures forall i, x ::
              0 <= i < |members| && x in members[i] && x != reps[i] ==> (x in r[i] <==> verdict(x, reps[i]).Keep?)
  {
    seq(|members|, i requires 0 <= i < |members| => Kept(members[i], reps[i], verdict))
  }

  /** Every set's representative is one of its members. */
  ghost predicate RepresentativesAreMembers<T>(members: seq<seq<T>>, reps: seq<T>) {
    |reps| == |members| && forall k :: 0 <= k < |members| ==> reps[k] in members[k]
  }

  /** The reduced DAG of a DAG with sets `members`, representatives `reps`,
      flags `indexed` and direct sub-sets `directSub`. */
  function Reduction<T(==)>(members: seq<seq<T>>, reps: seq<T>, indexed: seq<bool>, directSub: seq<set<nat>>,
                            verdict: (T, T) -> Verdict): ReducedDag<T>
    requires WellFormedVertices(members) && RepresentativesAreMembers(members, reps) && |directSub| == |members|
  {
    var nodeOf := NodeMap(members, reps, verdict, |members|);
    NodeMapAt(members, reps, verdict, |members|);
    ReducedDag(KeptSets(members, reps, verdict), reps, indexed, nodeOf, CopiedEdges(reps, directSub, nodeOf, |members|))
  }

  /** The reduction of one DAG: the loop over its sets, then `copyEdges`. */
  method SimplifyDag<T(==)>(dag: EquivalencesDag<T>, verdict: (T, T) -> Verdict)
    returns (reduced: ReducedDag<T>, names: map<string, T>)
    requires dag.Valid() && Chosen(dag.View())
    requires RepresentativesAreMembers(dag.members, RepresentativeValues(dag.representative))
    requires forall i, j :: 0 <= i < |dag.members| && j in dag.directSub[i] ==> j != i
    ensures reduced == Reduction(dag.members, RepresentativeValues(dag.representative), dag.indexed, dag.directSub, verdict)
    ensures names == NameMap(dag.members, RepresentativeValues(dag.representative), verdict, |dag.members|)
  {
    var reps := RepresentativeValues(dag.representative);
    var members, nodeOf;
    members, nodeOf, names := ReduceSets(dag.members, reps, verdict);
    NodeMapAt(dag.members, reps, verdict, |dag.members|);
    var edges := CopyEdges(reps, dag.directSub, nodeOf);
    reduced := ReducedDag(members, reps, dag.indexed, nodeOf, edges);
  }

  /** The loop over the sets. */
  method ReduceSets<T(==)>(sets: seq<seq<T>>, reps: seq<T>, verdict: (T, T) -> Verdict)
    returns (members: seq<set<T>>, nodeOf: map<T, nat>, names: map<string, T>)
    requires |reps| == |sets|
    ensures members == KeptSets(sets, reps, verdict)
    ensures nodeOf == NodeMap(sets, reps, verdict, |sets|)
    ensures names == NameMap(sets, reps, verdict, |sets|)
  {
    members, nodeOf, names := [], map[], map[];
    var i := 0;
    while i < |sets|
      invariant 0 <= i <= |sets| && |members| == i
      invariant forall k :: 0 <= k < i ==> members[k] == Kept(sets[k], reps[k], verdict)
      invariant nodeOf == NodeMap(sets, reps, verdict, i)
      invariant names == NameMap(sets, reps, verdict, i)
    {
      var kept;
      kept, nodeOf, names := ReduceSet(sets[i], reps[i], i, verdict, nodeOf, names);
      members := members + [kept];
      i := i + 1;
    }
  }

  /** The loop over the members of set `i`: a kept member joins the
      reduced set and is mapped to it; a mapped member's name is mapped to
      the representative. */
  method ReduceSet<T(==)>(node: seq<T>, rep: T, i: nat, verdict: (T, T) -> Verdict, nodeOf0: map<T, nat>, names0: map<string, T>)
    returns (kept: set<T>, nodeOf: map<T, nat>, names: map<string, T>)
    ensures kept == Kept(node, rep, verdict)
    ensures nodeOf == nodeOf0 + map x | x in kept :: i
    ensures names == NamePuts(node, rep, verdict, names0)
  {
    kept, nodeOf, names := {}, nodeOf0, names0;
    var k := 0;
    while k < |node|
      invariant 0 <= k <= |node|
      invariant kept == Kept(node[..k], rep, verdict)
      invariant nodeOf == nodeOf0 + map x | x in kept :: i
      invariant names == NamePuts(node[..k], rep, verdict, names0)
    {
      var equi := node[k];
      KeptAppend(node, k, rep, verdict, names0);
      match Judge(equi, rep, verdict) {
        case Keep =>
          AssignAppend(nodeOf0, kept, equi, i);
          nodeOf := nodeOf[equi := i];
          kept := kept + {equi};
        case MapName(name) =>
          names := names[name := rep];
        case Drop =>
      }
      k := k + 1;
    }
    assert node[..k] == node;
  }

  /** One more member: it joins the kept members or adds its name. */
  lemma KeptAppend<T>(node: seq<T>, k: nat, rep: T, verdict: (T, T) -> Verdict, m: map<string, T>)
    requires k < |node|
    ensures Kept(node[..k + 1], rep, verdict) ==
            Kept(node[..k], rep, verdict) + (if Judge(node[k], rep, verdict).Keep? then {node[k]} else {})
    ensures var v := Judge(node[k], rep, verdict);
            var prev := NamePuts(node[..k], rep, verdict, m);
            NamePuts(node[..k + 1], rep, verdict, m) == if v.MapName? then prev[v.name := rep] else prev
  {
    assert node[..k + 1][..k] == node[..k];
    assert node[..k + 1] == node[..k] + [node[k]];
  }

  lemma AssignAppend<T>(m: map<T, nat>, kept: set<T>, e: T, i: nat)
    ensures (m + map x | x in kept :: i)[e := i] == m + map x | x in kept + {e} :: i
  {
  }

  /** Every kept member is mapped to the reduced set it was kept in. */
  lemma {:induction false} NodeMapAt<T>(members: seq<seq<T>>, reps: seq<T>, verdict: (T, T) -> Verdict, n: nat)
    requires WellFormedVertices(members) && n <= |members| && |reps| == |members|
    ensures forall k, x :: 0 <= k < n && x in Kept(members[k], reps[k], verdict) ==>
              x in NodeMap(members, reps, verdict, n) && NodeMap(members, reps, verdict, n)[x] == k
  {
    if n > 0 {
      NodeMapAt(members, reps, verdict, n - 1);
      forall k, x | 0 <= k < n - 1 && x in Kept(members[k], reps[k], verdict)
        ensures x !in Kept(members[n - 1], reps[n - 1], verdict)
      {
        assert x in members[k];
      }
    }
  }

  /** Only kept members are mapped. */
  lemma {:induction false} NodeMapKeys<T>(members: seq<seq<T>>, reps: seq<T>, verdict: (T, T) -> Verdict, n: nat)
    requires n <= |members| && |reps| == |members|
    ensures forall x :: x in NodeMap(members, reps, verdict, n) ==>
              var k := NodeMap(members, reps, verdict, n)[x];
              k < n && x in Kept(members[k], reps[k], verdict)
  {
    if n > 0 {
      NodeMapKeys(members, reps, verdict, n - 1);
    }
  }

  /** A mapped name identifies the member it comes from. */
  ghost predicate NamesIdentify<T(!new)>(verdict: (T, T) -> Verdict) {
    forall x, y, r1, r2 :: verdict(x, r1).MapName? && verdict(y, r2) == verdict(x, r1) ==> x == y
  }

  /** The entries a set adds: exactly the names of its mapped members, all
      to its representative. */
  lemma {:induction false} NamePutsSpec<T>(s: seq<T>, rep: T, verdict: (T, T) -> Verdict, m: map<string, T>, key: string)
    ensures key in NamePuts(s, rep, verdict, m) <==>
              key in m || exists x :: x in s && Judge(x, rep, verdict) == MapName(key)
    ensures key in NamePuts(s, rep, verdict, m) ==>
              NamePuts(s, rep, verdict, m)[key] ==
                if exists x :: x in s && Judge(x, rep, verdict) == MapName(key) then rep else m[key]
  {
    if s != [] {
      var init := s[..|s| - 1];
      assert s == init + [s[|s| - 1]];
      NamePutsSpec(init, rep, verdict, m, key);
    }
  }

  /** After the first `n` sets, the name of every mapped member is mapped to
      the representative of its set, and no other name is mapped. */
  lemma {:induction false} NameMapEntries<T(!new)>(members: seq<seq<T>>, reps: seq<T>, verdict: (T, T) -> Verdict, n: nat,
                                                   i: nat, x: T)
    requires WellFormedVertices(members) && |reps| == |members| && NamesIdentify(verdict)
    requires i < n <= |members| && x in members[i] && Judge(x, reps[i], verdict).MapName?
    ensures var key := Judge(x, reps[i], verdict).name;
            key in NameMap(members, reps, verdict, n) && NameMap(members, reps, verdict, n)[key] == reps[i]
  {
    var key := Judge(x, reps[i], verdict).name;
    NamePutsSpec(members[n - 1], reps[n - 1], verdict, NameMap(members, reps, verdict, n - 1), key);
    if i < n - 1 {
      NameMapEntries(members, reps, verdict, n - 1, i, x);
      forall y {:trigger Judge(y, reps[n - 1], verdict)} | y in members[n - 1]
        ensures Judge(y, reps[n - 1], verdict) != MapName(key)
      {
      }
    }
  }

  lemma {:induction false} NameMapKeys<T>(members: seq<seq<T>>, reps: seq<T>, verdict: (T, T) -> Verdict, n: nat, key: string)
    requires |reps| == |members| && n <= |members|
    requires key in NameMap(members, reps, verdict, n)
    ensures exists i, x :: 0 <= i < n && x in members[i] && Judge(x, reps[i], verdict) == MapName(key)
  {
    NamePutsSpec(members[n - 1], reps[n - 1], verdict, NameMap(members, reps, verdict, n - 1), key);
    if key in NameMap(members, reps, verdict, n - 1) {
      NameMapKeys(members, reps, verdict, n - 1, key);
    }
  }

  // ---------------------------------------------------------------------
  // The three kinds of sets

  /** The class rule, given the property name maps built before it. */
  function ClassVerdictFor(objectPropertyMap: map<string, ObjectProperty>, dataPropertyMap: map<string, DataProperty>)
    : (ClassExpression, ClassExpression) -> Verdict
  {
    (x, rep) => ClassVerdict(objectPropertyMap, dataPropertyMap, x, rep)
  }

  lemma ObjectPropertyNamesIdentify()
    ensures NamesIdentify(ObjectPropertyVerdict)
  {
    forall x, y, r1, r2 | ObjectPropertyVerdict(x, r1).MapName? && ObjectPropertyVerdict(y, r2) == ObjectPropertyVerdict(x, r1)
      ensures x == y
    {
      assert !x.isInverse && !y.isInverse;
    }
  }

  lemma ClassNamesIdentify(objectPropertyMap: map<string, ObjectProperty>, dataPropertyMap: map<string, DataProperty>)
    ensures NamesIdentify(ClassVerdictFor(objectPropertyMap, dataPropertyMap))
  {
    var verdict := ClassVerdictFor(objectPropertyMap, dataPropertyMap);
    forall x, y, r1, r2 | verdict(x, r1).MapName? && verdict(y, r2) == verdict(x, r1)
      ensures x == y
    {
      assert x.OClass? && y.OClass?;
    }
  }

  /** A reduced object-property set holds the representative and, when the
      set has it, the representative's inverse, and nothing else. */
  lemma ReducedObjectPropertySet(s: seq<ObjectProperty>, rep: ObjectProperty)
    requires rep in s
    ensures Kept(s, rep, ObjectPropertyVerdict) == if Inverse(rep) in s then {rep, Inverse(rep)} else {rep}
  {
  }

  /** A reduced class set holds the representative, no other named class,
      and exactly the existentials over properties without an entry in the
      property name maps. */
  lemma ReducedClassSet(s: seq<ClassExpression>, rep: ClassExpression,
                        objectPropertyMap: map<string, ObjectProperty>, dataPropertyMap: map<string, DataProperty>)
    requires rep in s
    ensures var kept := Kept(s, rep, ClassVerdictFor(objectPropertyMap, dataPropertyMap));
            && rep in kept && kept <= set x | x in s
            && (forall x :: x in kept && x.OClass? ==> x == rep)
            && (forall x :: x in s && x != rep && x.ObjectSomeValuesFrom? ==>
                  (x in kept <==> x.property.name !in objectPropertyMap))
            && (forall x :: x in s && x != rep && x.DataSomeValuesFrom? ==>
                  (x in kept <==> x.dataProperty.name !in dataPropertyMap))
  {
  }

  /** When every representative lies in its own reduced set, the copied
      edges are the direct sub-set relation. */
  lemma CopiedEdgesExact<T>(reps: seq<T>, directSub: seq<set<nat>>, nodeOf: map<T, nat>, a: nat, b: nat)
    requires |directSub| == |reps| && forall k :: 0 <= k < |reps| ==> reps[k] in nodeOf && nodeOf[reps[k]] == k
    requires forall i, j :: 0 <= i < |directSub| && j in directSub[i] ==> j < |reps|
    ensures (a, b) in CopiedEdges(reps, directSub, nodeOf, |reps|) <==> b < |reps| && a in directSub[b]
  {
    if b < |reps| && a in directSub[b] {
      assert (nodeOf[reps[a]], nodeOf[reps[b]]) in CopiedEdges(reps, directSub, nodeOf, |reps|);
    }
  }

  /** With the representatives among the members, the edges of the reduced
      DAG are the direct sub-set relation of the DAG. */
  lemma ReductionEdges<T>(members: seq<seq<T>>, reps: seq<T>, indexed: seq<bool>, directSub: seq<set<nat>>,
                          verdict: (T, T) -> Verdict, a: nat, b: nat)
    requires WellFormedVertices(members) && RepresentativesAreMembers(members, reps) && |directSub| == |members|
    requires forall i, j :: 0 <= i < |directSub| && j in directSub[i] ==> j < |members|
    ensures (a, b) in Reduction(members, reps, indexed, directSub, verdict).edges <==> b < |members| && a in directSub[b]
  {
    NodeMapAt(members, reps, verdict, |members|);
    assert forall k :: 0 <= k < |members| ==> reps[k] in Kept(members[k], reps[k], verdict);
    CopiedEdgesExact(reps, directSub, NodeMap(members, reps, verdict, |members|), a, b);
  }

  /** Every entry of the class map is a named class. */
  lemma ClassMapNamed(members: seq<seq<ClassExpression>>, reps: seq<ClassExpression>,
                      objectPropertyMap: map<string, ObjectProperty>, dataPropertyMap: map<string, DataProperty>, name: string)
    requires WellFormedVertices(members) && NamedRepresentatives(members, reps)
    requires name in NameMap(members, reps, ClassVerdictFor(objectPropertyMap, dataPropertyMap), |reps|)
    ensures NameMap(members, reps, ClassVerdictFor(objectPropertyMap, dataPropertyMap), |reps|)[name].OClass?
  {
    var verdict := ClassVerdictFor(objectPropertyMap, dataPropertyMap);
    NameMapKeys(members, reps, verdict, |reps|, name);
    var i, x :| 0 <= i < |reps| && x in members[i] && Judge(x, reps[i], verdict) == MapName(name);
    ClassNamesIdentify(objectPropertyMap, dataPropertyMap);
    NameMapEntries(members, reps, verdict, |reps|, i, x);
  }

  // ---------------------------------------------------------------------
  // The simplified reasoner

  /** A reasoner restricted to the vocabulary of the representatives; the
      other names are mapped to the representatives by the three maps. The
      data-range DAG is shared with the original reasoner. */
  datatype SimplifiedReasoner = SimplifiedReasoner(
    classes: ReducedDag<ClassExpression>,
    dataRanges: EquivalencesDag<DataRange>,
    objectProperties: ReducedDag<ObjectProperty>,
    dataProperties: ReducedDag<DataProperty>,
    classMap: map<string, ClassExpression>,
    objectPropertyMap: map<string, ObjectProperty>,
    dataPropertyMap: map<string, DataProperty>)

  /** A DAG whose sets all have a representative among their members, and
      in which no set is directly below itself. */
  ghost predicate Simplifiable<T>(dag: EquivalencesDag<T>)
    reads dag
  {
    && dag.Valid() && Chosen(dag.View())
    && RepresentativesAreMembers(dag.members, RepresentativeValues(dag.representative))
    && forall i, j :: 0 <= i < |dag.members| && j in dag.directSub[i] ==> j != i
  }

  /** A set with a named class other than its representative is represented
      by a named class: the representative is what the class map stores. */
  ghost predicate NamedRepresentatives(members: seq<seq<ClassExpression>>, reps: seq<ClassExpression>) {
    |reps| == |members| &&
    forall i, x :: 0 <= i < |members| && x in members[i] && x.OClass? && x != reps[i] ==> reps[i].OClass?
  }

  /** `getEquivalenceSimplifiedReasoner`: object properties first, then data
      properties, then classes, whose existentials are judged by the two
      property name maps. */
  method GetEquivalenceSimplifiedReasoner(
    classes: EquivalencesDag<ClassExpression>, dataRanges: EquivalencesDag<DataRange>,
    objectProperties: EquivalencesDag<ObjectProperty>, dataProperties: EquivalencesDag<DataProperty>)
    returns (r: SimplifiedReasoner)
    requires Simplifiable(classes) && Simplifiable(objectProperties) && Simplifiable(dataProperties)
    requires NamedRepresentatives(classes.members, RepresentativeValues(classes.representative))
    ensures var reps := RepresentativeValues(objectProperties.representative);
            && r.objectProperties == Reduction(objectProperties.members, reps, objectProperties.indexed,
                                               objectProperties.directSub, ObjectPropertyVerdict)
            && r.objectPropertyMap == NameMap(objectProperties.members, reps, ObjectPropertyVerdict, |reps|)
    ensures var reps := RepresentativeValues(dataProperties.representative);
            && r.dataProperties == Reduction(dataProperties.members, reps, dataProperties.indexed,
                                             dataProperties.directSub, DataPropertyVerdict)
            && r.dataPropertyMap == NameMap(dataProperties.members, reps, DataPropertyVerdict, |reps|)
    ensures var reps := RepresentativeValues(classes.representative);
            var verdict := ClassVerdictFor(r.objectPropertyMap, r.dataPropertyMap);
            && r.classes == Reduction(classes.members, reps, classes.indexed, classes.directSub, verdict)
            && r.classMap == NameMap(classes.members, reps, verdict, |reps|)
            && forall name :: name in r.classMap ==> r.classMap[name].OClass?
    ensures r.dataRanges == dataRanges
  {
    var reducedObjectProperties, objectPropertyMap := SimplifyDag(objectProperties, ObjectPropertyVerdict);
    var reducedDataProperties, dataPropertyMap := SimplifyDag(dataProperties, DataPropertyVerdict);
    var verdict := ClassVerdictFor(objectPropertyMap, dataPropertyMap);
    var reducedClasses, classMap := SimplifyDag(classes, verdict);
    forall name | name in classMap ensures classMap[name].OClass? {
      ClassMapNamed(classes.members, RepresentativeValues(classes.representative), objectPropertyMap, dataPropertyMap, name);
    }
    r := SimplifiedReasoner(reducedClasses, dataRanges, reducedObjectProperties, reducedDataProperties,
                            classMap, objectPropertyMap, dataPropertyMap);
  }

  /** `getClassRepresentative`: the entry of the class map; `None` where the
      map has none. */
  function GetClassRepresentative(r: SimplifiedReasoner, name: string): Option<ClassExpression> {
    if name in r.classMap then Some(r.classMap[name]) else None
  }

  /** `getObjectPropertyRepresentative`: the entry of the property's name,
      whether the property is an inverse or not. */
  function GetObjectPropertyRepresentative(r: SimplifiedReasoner, p: ObjectProperty): Option<ObjectProperty> {
    if p.name in r.objectPropertyMap then Some(r.objectPropertyMap[p.name]) else None
  }

  function GetDataPropertyRepresentative(r: SimplifiedReasoner, p: DataProperty): Option<DataProperty> {
    if p.name in r.dataPropertyMap then Some(r.dataPropertyMap[p.name]) else None
  }

  /** A named property is looked up to the representative of its set,
      except the representative and its inverse, which have no entry. */
  lemma ObjectPropertyLookup(r: SimplifiedReasoner, members: seq<seq<ObjectProperty>>, reps: seq<ObjectProperty>,
                             i: nat, x: ObjectProperty)
    requires WellFormedVertices(members) && |reps| == |members|
    requires r.objectPropertyMap == NameMap(members, reps, ObjectPropertyVerdict, |members|)
    requires i < |members| && x in members[i] && !x.isInverse
    ensures GetObjectPropertyRepresentative(r, x) ==
              if x == reps[i] || x == Inverse(reps[i]) then None else Some(reps[i])
  {
    if x == reps[i] || x == Inverse(reps[i]) {
      if x.name in r.objectPropertyMap {
        NameMapKeys(members, reps, ObjectPropertyVerdict, |members|, x.name);
        assert false;
      }
    } else {
      ObjectPropertyNamesIdentify();
      NameMapEntries(members, reps, ObjectPropertyVerdict, |members|, i, x);
    }
  }

  /** A data property is looked up to the representative of its set, except
      the representative itself, which has no entry. */
  lemma DataPropertyLookup(r: SimplifiedReasoner, members: seq<seq<DataProperty>>, reps: seq<DataProperty>,
                           i: nat, x: DataProperty)
    requires WellFormedVertices(members) && RepresentativesAreMembers(members, reps)
    requires r.dataPropertyMap == NameMap(members, reps, DataPropertyVerdict, |members|)
    requires i < |members| && x in members[i]
    ensures GetDataPropertyRepresentative(r, x) == if x == reps[i] then None else Some(reps[i])
  {
    if x == reps[i] {
      if x.name in r.dataPropertyMap {
        NameMapKeys(members, reps, DataPropertyVerdict, |members|, x.name);
      }
    } else {
      assert NamesIdentify(DataPropertyVerdict);
      NameMapEntries(members, reps, DataPropertyVerdict, |members|, i, x);
    }
  }

  /** A named class is looked up to the representative of its set, except
      the representative itself, which has no entry. */
  lemma ClassLookup(r: SimplifiedReasoner, members: seq<seq<ClassExpression>>, reps: seq<ClassExpression>,
                    i: nat, x: ClassExpression)
    requires WellFormedVertices(members) && RepresentativesAreMembers(members, reps)
    requires r.classMap == NameMap(members, reps, ClassVerdictFor(r.objectPropertyMap, r.dataPropertyMap), |members|)
    requires i < |members| && x in members[i] && x.OClass?
    ensures GetClassRepresentative(r, x.name) == if x == reps[i] then None else Some(reps[i])
  {
    var verdict := ClassVerdictFor(r.objectPropertyMap, r.dataPropertyMap);
    if x == reps[i] {
      if x.name in r.classMap {
        NameMapKeys(members, reps, verdict, |members|, x.name);
      }
    } else {
      ClassNamesIdentify(r.objectPropertyMap, r.dataPropertyMap);
      NameMapEntries(members, reps, verdict, |members|, i, x);
    }
  }

  /** Representatives chosen by the class rule meet what the class map
      needs: a set with a named class other than its representative is
      represented by a named class. */
  lemma ClassRepresentativesNamed(members: seq<seq<ClassExpression>>, reps: seq<ClassExpression>,
                                  ops: DagView<ObjectProperty>, dps: DagView<DataProperty>)
    requires WellFormedVertices(members) && ClassesResolvable(members, ops, dps) && |reps| == |members|
    requires forall i :: 0 <= i < |members| ==> reps[i] == ClassRepresentative(members[i], ops, dps)
    ensures NamedRepresentatives(members, reps)
  {
    forall i, x | 0 <= i < |members| && x in members[i] && x.OClass? && x != reps[i]
      ensures reps[i].OClass?
    {
      ClassRepresentativeChoice(members[i], ops, dps);
    }
  }
}
