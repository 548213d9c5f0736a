/** The choice of a representative for every set of equivalent expressions
    of a TBox DAG, made in place on the sets, one DAG after the other. */
module TBoxRepresentatives {
  import opened Wrappers
  import opened TBoxEntities

  /** The vertex holding `x`: the DAG's `getVertex`. */
  function FindVertex<T(==)>(members: seq<seq<T>>, x: T): (r: Option<nat>)
    ensures r.Some? ==> r.value < |members| && x in members[r.value]
    ensures r.None? ==> forall i :: 0 <= i < |members| ==> x !in members[i]
  {
    if members == [] then None
    else if x in members[|members| - 1] then Some(|members| - 1)
    else FindVertex(members[..|members| - 1], x)
  }

  /** Every set of equivalent expressions is non-empty, and no expression
      is in two sets. */
  ghost predicate WellFormedVertices<T>(members: seq<seq<T>>) {
    && (forall i :: 0 <= i < |members| ==> |members[i]| > 0)
    && (forall i, j, x :: 0 <= i < |members| && 0 <= j < |members| && x in members[i] && x in members[j] ==> i == j)
  }

  /** The representative and the `indexed` flag of every set. */
  datatype Choice<T> = Choice(representative: seq<Option<T>>, indexed: seq<bool>)

  ghost predicate Fits<T>(c: Choice<T>, n: nat) {
    |c.representative| == n && |c.indexed| == n
  }

  /** The state of fresh sets: no representative, not indexed. */
  function Unchosen<T>(n: nat): (c: Choice<T>)
    ensures Fits(c, n)
  {
    Choice(seq(n, _ => None), seq(n, _ => false))
  }

  /** The members and representatives of a DAG, as read by another DAG's
      choice. */
  datatype DagView<T> = DagView(members: seq<seq<T>>, representative: seq<Option<T>>)

  /** The representative of the set holding `x`; `None` when `x` has no set
      or its set has no representative. */
  function RepresentativeOf<T(==)>(v: DagView<T>, x: T): Option<T> {
    match FindVertex(v.members, x)
    case None => None
    case Some(k) => if k < |v.representative| then v.representative[k] else None
  }

  /** A DAG of sets of equivalent expressions: the members of each set in
      iteration order, its representative and `indexed` flag, and the sets
      directly below it. */
  class EquivalencesDag<T(==)> {
    var members: seq<seq<T>>
    var representative: seq<Option<T>>
    var indexed: seq<bool>
    var directSub: seq<set<nat>>

    ghost predicate Valid()
      reads this
    {
      && |representative| == |members| && |indexed| == |members| && |directSub| == |members|
      && WellFormedVertices(members)
      && (forall i, k :: 0 <= i < |directSub| && k in directSub[i] ==> k < |members|)
    }

    function Choices(): Choice<T>
      reads this
    {
      Choice(representative, indexed)
    }

    function View(): DagView<T>
      reads this
    {
      DagView(members, representative)
    }

    /** A DAG of fresh sets. */
    constructor (members: seq<seq<T>>, directSub: seq<set<nat>>)
      requires WellFormedVertices(members) && |directSub| == |members|
      requires forall i, k :: 0 <= i < |directSub| && k in directSub[i] ==> k < |members|
      ensures Valid() && this.members == members && this.directSub == directSub
      ensures Choices() == Unchosen(|members|)
    {
      this.members := members;
      this.directSub := directSub;
      representative := seq(|members|, _ => None);
      indexed := seq(|members|, _ => false);
    }
  }

  // ---------------------------------------------------------------------
  // Object properties

  /** The least member of set `i` in the object-property order. */
  function MinObjectProperty(members: seq<seq<ObjectProperty>>, i: nat): (r: ObjectProperty)
    requires i < |members| && |members[i]| > 0
    ensures r in members[i]
    ensures forall x {:trigger ObjectPropertyCompare(r, x)} :: x in members[i] ==> ObjectPropertyCompare(r, x) <= 0
  {
    ObjectPropertyOrder();
    MinLeast(members[i], ObjectPropertyCompare);
    Min(members[i], ObjectPropertyCompare)
  }

  /** The inverse of every member has a set. */
  ghost predicate InverseClosed(members: seq<seq<ObjectProperty>>) {
    forall i, x {:trigger members[i], Inverse(x)} ::
      0 <= i < |members| && x in members[i] ==> FindVertex(members, Inverse(x)).Some?
  }

  /** The set holding the inverse of the least member of set `i`. */
  function InverseVertex(members: seq<seq<ObjectProperty>>, i: nat): (j: nat)
    requires WellFormedVertices(members) && InverseClosed(members) && i < |members|
    ensures j < |members| && Inverse(MinObjectProperty(members, i)) in members[j]
  {
    FindVertex(members, Inverse(MinObjectProperty(members, i))).value
  }

  /** The inverses of the members of a set make up one set. */
  ghost predicate InverseConsistent(members: seq<seq<ObjectProperty>>)
    requires WellFormedVertices(members)
  {
    InverseClosed(members) &&
    forall i, x {:trigger InverseVertex(members, i), Inverse(x)} ::
      0 <= i < |members| && x in members[i] ==> Inverse(x) in members[InverseVertex(members, i)]
  }

  /** One turn of the loop over the object-property sets. A set that has a
      representative is skipped. Otherwise the least member is the
      representative, unless it is an inverse: then the representative is
      the inverse of the least member of the inverse set, which is flagged
      indexed instead. The inverse set receives the inverse of the
      representative unless the set holds it (a symmetric set). */
  function ObjectPropertyStep(members: seq<seq<ObjectProperty>>, c: Choice<ObjectProperty>, i: nat): (r: Choice<ObjectProperty>)
    requires WellFormedVertices(members) && InverseClosed(members) && Fits(c, |members|) && i < |members|
    ensures Fits(r, |members|)
    ensures c.representative[i].Some? ==> r == c
    ensures r.representative[i].Some?
  {
    if c.representative[i].Some? then c
    else
      var setInv := InverseVertex(members, i);
      var least := MinObjectProperty(members, i);
      var repInv := if least.isInverse then MinObjectProperty(members, setInv) else Inverse(least);
      var rep := if least.isInverse then Inverse(repInv) else least;
      var indexed := if least.isInverse then c.indexed[setInv := true] else c.indexed[i := true];
      var reps := c.representative[i := Some(rep)];
      Choice(if repInv in members[i] then reps else reps[setInv := Some(repInv)], indexed)
  }

  /** The choice after the first `n` turns of the loop. */
  function ObjectPropertyChoices(members: seq<seq<ObjectProperty>>, c: Choice<ObjectProperty>, n: nat): (r: Choice<ObjectProperty>)
    requires WellFormedVertices(members) && InverseClosed(members) && Fits(c, |members|) && n <= |members|
    ensures Fits(r, |members|)
  {
    if n == 0 then c else ObjectPropertyStep(members, ObjectPropertyChoices(members, c, n - 1), n - 1)
  }

  /** The loop over the object-property sets. */
  method ChooseObjectPropertyRepresentatives(dag: EquivalencesDag<ObjectProperty>)
    requires dag.Valid() && InverseClosed(dag.members)
    modifies dag
    ensures dag.Valid() && dag.members == old(dag.members) && dag.directSub == old(dag.directSub)
    ensures dag.Choices() == ObjectPropertyChoices(dag.members, old(dag.Choices()), |dag.members|)
  {
    ghost var c0, members := dag.Choices(), dag.members;
    var i := 0;
    while i < |dag.members|
      invariant dag.Valid() && dag.members == members && dag.directSub == old(dag.directSub)
      invariant 0 <= i <= |members| && dag.Choices() == ObjectPropertyChoices(members, c0, i)
    {
      ChooseObjectPropertyRepresentative(dag, c0, i);
      i := i + 1;
    }
    assert c0 == old(dag.Choices()) && i == |members|;
  }

  /** The body of that loop for set `i`: it takes the choice made by the
      first `i` turns from `c0` to the choice made by the first `i + 1`. */
  method ChooseObjectPropertyRepresentative(dag: EquivalencesDag<ObjectProperty>, ghost c0: Choice<ObjectProperty>, i: nat)
    requires dag.Valid() && InverseClosed(dag.members) && i < |dag.members| && Fits(c0, |dag.members|)
    requires dag.Choices() == ObjectPropertyChoices(dag.members, c0, i)
    modifies dag
    ensures dag.Valid() && dag.members == old(dag.members) && dag.directSub == old(dag.directSub)
    ensures dag.Choices() == ObjectPropertyChoices(dag.members, c0, i + 1)
  {
    if dag.representative[i].None? {
      var representative, indexed := dag.representative, dag.indexed;
      var rep := MinObjectProperty(dag.members, i);
      var repInv := Inverse(rep);
      var setInv := FindVertex(dag.members, repInv).value;
      if rep.isInverse {
        repInv := MinObjectProperty(dag.members, setInv);
        rep := Inverse(repInv);
        indexed := indexed[setInv := true];
      } else {
        indexed := indexed[i := true];
      }
      representative := representative[i := Some(rep)];
      if repInv !in dag.members[i] {
        representative := representative[setInv := Some(repInv)];
      }
      dag.representative, dag.indexed := representative, indexed;
    }
  }

  lemma InverseVertexInvolution(members: seq<seq<ObjectProperty>>, i: nat)
    requires WellFormedVertices(members) && InverseConsistent(members) && i < |members|
    ensures InverseVertex(members, InverseVertex(members, i)) == i
  {
    var j := InverseVertex(members, i);
    var m := MinObjectProperty(members, i);
    assert Inverse(Inverse(m)) == m;
    assert m in members[InverseVertex(members, j)];
  }

  /** The inverse set of `i` holds exactly the inverses of the members of
      `i`. */
  lemma InverseMembers(members: seq<seq<ObjectProperty>>, i: nat, y: ObjectProperty)
    requires WellFormedVertices(members) && InverseConsistent(members) && i < |members|
    requires y in members[InverseVertex(members, i)]
    ensures Inverse(y) in members[i]
  {
    InverseVertexInvolution(members, i);
  }

  /** The least member of a symmetric set is not an inverse. */
  lemma SymmetricLeastNotInverse(members: seq<seq<ObjectProperty>>, i: nat)
    requires WellFormedVertices(members) && InverseConsistent(members) && i < |members|
    requires InverseVertex(members, i) == i
    ensures !MinObjectProperty(members, i).isInverse
  {
    var m := MinObjectProperty(members, i);
    assert ObjectPropertyCompare(m, Inverse(m)) <= 0;
  }

  /** When the least member of a set is an inverse, the least member of the
      inverse set is its inverse, a named property. */
  lemma LeastOfInverseSet(members: seq<seq<ObjectProperty>>, i: nat)
    requires WellFormedVertices(members) && InverseConsistent(members) && i < |members|
    requires MinObjectProperty(members, i).isInverse
    ensures MinObjectProperty(members, InverseVertex(members, i)) == Inverse(MinObjectProperty(members, i))
  {
    var j := InverseVertex(members, i);
    var m := MinObjectProperty(members, i);
    forall y | y in members[j] ensures ObjectPropertyCompare(Inverse(m), y) <= 0 {
      InverseMembers(members, i, y);
      assert ObjectPropertyCompare(m, Inverse(y)) <= 0;
    }
    ObjectPropertyOrder();
    LeastIsMin(members[j], ObjectPropertyCompare, Inverse(m));
  }

  /** What the choice promises for a set `i` that has a representative:
      the representative is a member; a set and its inverse set have
      inverse representatives; one of them is indexed; and an indexed set's
      representative is its least member, a named property. */
  ghost predicate PairedAt(members: seq<seq<ObjectProperty>>, c: Choice<ObjectProperty>, i: nat)
    requires WellFormedVertices(members) && InverseClosed(members) && Fits(c, |members|) && i < |members|
  {
    match c
    case Choice(rep, indexed) =>
      var j := InverseVertex(members, i);
      && (rep[i].Some? <==> rep[j].Some?)
      && (rep[i].None? ==> !indexed[i])
      && (rep[i].Some? ==>
            && rep[i].value in members[i]
            && (j != i ==> rep[j] == Some(Inverse(rep[i].value)))
            && (indexed[i] || indexed[j])
            && (indexed[i] ==> rep[i].value == MinObjectProperty(members, i) && !rep[i].value.isInverse))
  }

  ghost predicate Paired(members: seq<seq<ObjectProperty>>, c: Choice<ObjectProperty>)
    requires WellFormedVertices(members) && InverseClosed(members) && Fits(c, |members|)
  {
    forall i :: 0 <= i < |members| ==> PairedAt(members, c, i)
  }

  /** A turn on a set without representative pairs it with its inverse
      set. */
  lemma ObjectPropertyStepPairs(members: seq<seq<ObjectProperty>>, c: Choice<ObjectProperty>, i: nat)
    requires WellFormedVertices(members) && InverseConsistent(members) && Fits(c, |members|) && i < |members|
    requires Paired(members, c) && c.representative[i].None?
    ensures var r := ObjectPropertyStep(members, c, i);
            PairedAt(members, r, i) && PairedAt(members, r, InverseVertex(members, i))
  {
    var j := InverseVertex(members, i);
    var r := ObjectPropertyStep(members, c, i);
    var m := MinObjectProperty(members, i);
    InverseVertexInvolution(members, i);
    assert PairedAt(members, c, i) && PairedAt(members, c, j);
    assert Inverse(Inverse(m)) == m;
    if j == i {
      SymmetricLeastNotInverse(members, i);
    } else if m.isInverse {
      LeastOfInverseSet(members, i);
      InverseMembers(members, i, MinObjectProperty(members, j));
      assert MinObjectProperty(members, j) !in members[i];
    } else {
      assert Inverse(m) !in members[i];
    }
  }

  /** A turn leaves the pairing of every other set as it was. */
  lemma ObjectPropertyStepKeeps(members: seq<seq<ObjectProperty>>, c: Choice<ObjectProperty>, i: nat, k: nat)
    requires WellFormedVertices(members) && InverseConsistent(members) && Fits(c, |members|) && i < |members|
    requires k < |members| && k != i && k != InverseVertex(members, i)
    requires PairedAt(members, c, k)
    ensures PairedAt(members, ObjectPropertyStep(members, c, i), k)
  {
    InverseVertexInvolution(members, i);
    InverseVertexInvolution(members, k);
  }

  lemma ObjectPropertyStepPaired(members: seq<seq<ObjectProperty>>, c: Choice<ObjectProperty>, i: nat)
    requires WellFormedVertices(members) && InverseConsistent(members) && Fits(c, |members|) && i < |members|
    requires Paired(members, c)
    ensures Paired(members, ObjectPropertyStep(members, c, i))
  {
    if c.representative[i].None? {
      ObjectPropertyStepPairs(members, c, i);
      forall k | 0 <= k < |members| && k != i && k != InverseVertex(members, i)
        ensures PairedAt(members, ObjectPropertyStep(members, c, i), k)
      {
        ObjectPropertyStepKeeps(members, c, i, k);
      }
    }
  }

  /** Starting from paired sets, the loop keeps every set paired with its
      inverse set; fresh sets are paired. */
  lemma {:induction false} ObjectPropertyChoicesPaired(members: seq<seq<ObjectProperty>>, c: Choice<ObjectProperty>, n: nat)
    requires WellFormedVertices(members) && InverseConsistent(members) && Fits(c, |members|) && n <= |members|
    requires Paired(members, c)
    ensures Paired(members, ObjectPropertyChoices(members, c, n))
  {
    if n > 0 {
      ObjectPropertyChoicesPaired(members, c, n - 1);
      ObjectPropertyStepPaired(members, ObjectPropertyChoices(members, c, n - 1), n - 1);
    }
  }

  /** After the first `n` turns, each of the first `n` sets has a
      representative. */
  lemma {:induction false} ObjectPropertyChoicesChosen(members: seq<seq<ObjectProperty>>, c: Choice<ObjectProperty>, n: nat)
    requires WellFormedVertices(members) && InverseClosed(members) && Fits(c, |members|) && n <= |members|
    ensures forall i :: 0 <= i < n ==> ObjectPropertyChoices(members, c, n).representative[i].Some?
  {
    if n > 0 {
      ObjectPropertyChoicesChosen(members, c, n - 1);
    }
  }

  lemma UnchosenPaired(members: seq<seq<ObjectProperty>>)
    requires WellFormedVertices(members) && InverseConsistent(members)
    ensures Paired(members, Unchosen(|members|))
  {
    var c: Choice<ObjectProperty> := Unchosen(|members|);
    forall i | 0 <= i < |members| ensures PairedAt(members, c, i) {
      assert c.representative[i] == None && c.representative[InverseVertex(members, i)] == None;
    }
  }

  // ---------------------------------------------------------------------
  // Data properties

  /** The member of set `i` with the least name. */
  function MinDataProperty(members: seq<seq<DataProperty>>, i: nat): (r: DataProperty)
    requires i < |members| && |members[i]| > 0
    ensures r in members[i]
    ensures forall x :: x in members[i] ==> CompareNames(r.name, x.name) <= 0
  {
    DataPropertyOrder();
    MinLeast(members[i], DataPropertyCompare);
    Min(members[i], DataPropertyCompare)
  }

  /** Every set without a representative receives its least member and is
      flagged indexed; a set that has one is skipped. */
  method ChooseDataPropertyRepresentatives(dag: EquivalencesDag<DataProperty>)
    requires dag.Valid()
    modifies dag
    ensures dag.Valid() && dag.members == old(dag.members) && dag.directSub == old(dag.directSub)
    ensures forall i :: 0 <= i < |dag.members| ==>
              if old(dag.representative[i]).Some? then
                dag.representative[i] == old(dag.representative[i]) && dag.indexed[i] == old(dag.indexed[i])
              else
                dag.representative[i] == Some(MinDataProperty(dag.members, i)) && dag.indexed[i]
  {
    var i := 0;
    while i < |dag.members|
      invariant 0 <= i <= |dag.members|
      invariant dag.Valid() && dag.members == old(dag.members) && dag.directSub == old(dag.directSub)
      invariant forall k :: 0 <= k < i ==>
                  if old(dag.representative[k]).Some? then
                    dag.representative[k] == old(dag.representative[k]) && dag.indexed[k] == old(dag.indexed[k])
                  else
                    dag.representative[k] == Some(MinDataProperty(dag.members, k)) && dag.indexed[k]
      invariant forall k :: i <= k < |dag.members| ==>
                  dag.representative[k] == old(dag.representative[k]) && dag.indexed[k] == old(dag.indexed[k])
    {
      if dag.representative[i].None? {
        var rep := MinDataProperty(dag.members, i);
        dag.indexed, dag.representative := dag.indexed[i := true], dag.representative[i := Some(rep)];
      }
      i := i + 1;
    }
  }

  // ---------------------------------------------------------------------
  // Classes and data ranges

  /** Every set of the view has a representative. */
  ghost predicate Chosen<T>(v: DagView<T>) {
    |v.representative| == |v.members| && forall k :: 0 <= k < |v.representative| ==> v.representative[k].Some?
  }

  function ClassName(e: ClassExpression): Option<string> {
    if e.OClass? then Some(e.name) else None
  }

  function DatatypeName(e: DataRange): Option<string> {
    if e.Datatype? then Some(e.name) else None
  }

  /** The scan for a named representative in iteration order: a named
      member replaces the candidate when there is none yet or when its
      name comes strictly first. */
  function NamedScan<T>(s: seq<T>, nameOf: T -> Option<string>): Option<string> {
    if s == [] then None
    else
      var prev := NamedScan(s[..|s| - 1], nameOf);
      match nameOf(s[|s| - 1])
      case None => prev
      case Some(n) => if prev.None? || CompareNames(n, prev.value) < 0 then Some(n) else prev
  }

  /** The scan finds a name exactly when some member is named, and it finds
      the least name. */
  lemma {:induction false} NamedScanLeast<T>(s: seq<T>, nameOf: T -> Option<string>)
    ensures NamedScan(s, nameOf).None? <==> forall x :: x in s ==> nameOf(x).None?
    ensures NamedScan(s, nameOf).Some? ==>
              && (exists x :: x in s && nameOf(x) == NamedScan(s, nameOf))
              && forall x :: x in s && nameOf(x).Some? ==> CompareNames(NamedScan(s, nameOf).value, nameOf(x).value) <= 0
  {
    if s != [] {
      var init := s[..|s| - 1];
      var last := s[|s| - 1];
      assert s == init + [last];
      NamedScanLeast(init, nameOf);
      var prev := NamedScan(init, nameOf);
      if nameOf(last).Some? {
        var n := nameOf(last).value;
        if prev.Some? {
          if CompareNames(n, prev.value) < 0 {
            forall x | x in init && nameOf(x).Some? ensures CompareNames(n, nameOf(x).value) <= 0 {
              if CompareNames(prev.value, nameOf(x).value) < 0 {
                CompareNamesTransitive(n, prev.value, nameOf(x).value);
              }
            }
          } else {
            CompareNamesAntisymmetric(n, prev.value);
          }
        }
      }
    }
  }

  /** The loop that looks for a named representative. */
  method LeastName<T>(s: seq<T>, nameOf: T -> Option<string>) returns (named: Option<string>)
    ensures named == NamedScan(s, nameOf)
  {
    named := None;
    var k := 0;
    while k < |s|
      invariant 0 <= k <= |s| && named == NamedScan(s[..k], nameOf)
    {
      assert s[..k + 1][..k] == s[..k];
      match nameOf(s[k]) {
        case None =>
        case Some(n) =>
          if named.None? || CompareNames(n, named.value) < 0 {
            named := Some(n);
          }
      }
      k := k + 1;
    }
    assert s[..k] == s;
  }

  /** The first member of a set without named class has a property whose
      set has a representative. */
  ghost predicate ClassResolvable(s: seq<ClassExpression>, ops: DagView<ObjectProperty>, dps: DagView<DataProperty>) {
    |s| > 1 && NamedScan(s, ClassName).None? ==>
      match s[0]
      case OClass(_) => true
      case ObjectSomeValuesFrom(p) => RepresentativeOf(ops, p).Some?
      case DataSomeValuesFrom(dp, _) => RepresentativeOf(dps, dp).Some?
  }

  /** The representative of a set of equivalent class expressions: its only
      member; else its named class with the least name; else the domain of
      the representative of the property of its first member. */
  function ClassRepresentative(s: seq<ClassExpression>, ops: DagView<ObjectProperty>, dps: DagView<DataProperty>): ClassExpression
    requires |s| > 0 && ClassResolvable(s, ops, dps)
  {
    if |s| <= 1 then s[0]
    else
      match NamedScan(s, ClassName)
      case Some(n) => OClass(n)
      case None =>
        match s[0]
        case OClass(_) => s[0]
        case ObjectSomeValuesFrom(p) => ObjectSomeValuesFrom(RepresentativeOf(ops, p).value)
        case DataSomeValuesFrom(dp, _) => DataSomeValuesFrom(RepresentativeOf(dps, dp).value, RdfsLiteral)
  }

  /** A set with a named class is represented by the named member with the
      least name; a set of existentials only by an existential over the
      representative of its first member's property. */
  lemma ClassRepresentativeChoice(s: seq<ClassExpression>, ops: DagView<ObjectProperty>, dps: DagView<DataProperty>)
    requires |s| > 0 && ClassResolvable(s, ops, dps)
    ensures var r := ClassRepresentative(s, ops, dps);
            && (|s| == 1 ==> r == s[0])
            && ((exists x :: x in s && x.OClass?) ==>
                  r in s && r.OClass? && forall x :: x in s && x.OClass? ==> CompareNames(r.name, x.name) <= 0)
            && (|s| > 1 && (forall x :: x in s ==> !x.OClass?) ==>
                  && !r.OClass?
                  && (s[0].ObjectSomeValuesFrom? ==> Some(r.property) == RepresentativeOf(ops, s[0].property))
                  && (s[0].DataSomeValuesFrom? ==>
                        Some(r.dataProperty) == RepresentativeOf(dps, s[0].dataProperty) && r.filler == RdfsLiteral))
  {
    NamedScanLeast(s, ClassName);
    if |s| > 1 && NamedScan(s, ClassName).Some? {
      var n := NamedScan(s, ClassName).value;
      var x :| x in s && ClassName(x) == Some(n);
      assert x == OClass(n);
      forall y | y in s && y.OClass? ensures CompareNames(n, y.name) <= 0 {
        assert ClassName(y) == Some(y.name);
      }
    }
    if |s| == 1 {
      assert forall x :: x in s ==> x == s[0];
    }
  }

  /** Every set of a class DAG is resolvable against the property DAGs. */
  ghost predicate ClassesResolvable(members: seq<seq<ClassExpression>>, ops: DagView<ObjectProperty>, dps: DagView<DataProperty>) {
    forall i :: 0 <= i < |members| ==> ClassResolvable(members[i], ops, dps)
  }

  /** Every set receives its representative, and is flagged indexed when
      the representative is a named class. */
  method ChooseClassRepresentatives(dag: EquivalencesDag<ClassExpression>, ops: DagView<ObjectProperty>, dps: DagView<DataProperty>)
    requires dag.Valid() && ClassesResolvable(dag.members, ops, dps)
    modifies dag
    ensures dag.Valid() && dag.members == old(dag.members) && dag.directSub == old(dag.directSub)
    ensures forall i :: 0 <= i < |dag.members| ==>
              && dag.representative[i] == Some(ClassRepresentative(dag.members[i], ops, dps))
              && dag.indexed[i] == (old(dag.indexed[i]) || ClassRepresentative(dag.members[i], ops, dps).OClass?)
  {
    var i := 0;
    while i < |dag.members|
      invariant 0 <= i <= |dag.members|
      invariant dag.Valid() && dag.members == old(dag.members) && dag.directSub == old(dag.directSub)
      invariant forall k :: 0 <= k < i ==>
                  && dag.representative[k] == Some(ClassRepresentative(dag.members[k], ops, dps))
                  && dag.indexed[k] == (old(dag.indexed[k]) || ClassRepresentative(dag.members[k], ops, dps).OClass?)
      invariant forall k :: i <= k < |dag.members| ==> dag.indexed[k] == old(dag.indexed[k])
    {
      var equivalenceSet := dag.members[i];
      var representative: ClassExpression;
      if |equivalenceSet| <= 1 {
        representative := equivalenceSet[0];
      } else {
        var named := LeastName(equivalenceSet, ClassName);
        if named.Some? {
          representative := OClass(named.value);
        } else {
          var first := equivalenceSet[0];
          match first {
            case OClass(_) =>
              representative := first;
            case ObjectSomeValuesFrom(p) =>
              representative := ObjectSomeValuesFrom(RepresentativeOf(ops, p).value);
            case DataSomeValuesFrom(dp, _) =>
              representative := DataSomeValuesFrom(RepresentativeOf(dps, dp).value, RdfsLiteral);
          }
        }
      }
      dag.representative := dag.representative[i := Some(representative)];
      if representative.OClass? {
        dag.indexed := dag.indexed[i := true];
      }
      i := i + 1;
    }
  }

  /** The set of the data property of the first member of a set without
      datatype, when it exists, has a representative. */
  ghost predicate DataRangeResolvable(s: seq<DataRange>, dps: DagView<DataProperty>) {
    (|s| > 1 && NamedScan(s, DatatypeName).None? && s[0].DataPropertyRange? &&
     FindVertex(dps.members, s[0].dataProperty).Some?) ==>
      RepresentativeOf(dps, s[0].dataProperty).Some?
  }

  /** The representative of a set of equivalent data ranges: its only
      member; else its datatype with the least name; else the range of the
      representative of the data property of its first member, which fails
      when that property has no set. */
  function DataRangeRepresentative(s: seq<DataRange>, dps: DagView<DataProperty>): Result<DataRange, DataProperty>
    requires |s| > 0 && DataRangeResolvable(s, dps)
  {
    if |s| <= 1 then Success(s[0])
    else
      match NamedScan(s, DatatypeName)
      case Some(n) => Success(Datatype(n))
      case None =>
        match s[0]
        case Datatype(_) => Success(s[0])
        case DataPropertyRange(p) =>
          if FindVertex(dps.members, p).None? then Failure(p)
          else Success(DataPropertyRange(RepresentativeOf(dps, p).value))
  }

  /** A set fails exactly when it has several members, no datatype, and a
      first member over a data property without set; a set with a datatype
      is represented by the datatype with the least name; a set without
      datatype whose first property has a set is represented by the range
      of that property's representative. */
  lemma DataRangeRepresentativeChoice(s: seq<DataRange>, dps: DagView<DataProperty>)
    requires |s| > 0 && DataRangeResolvable(s, dps)
    ensures var r := DataRangeRepresentative(s, dps);
            && (r.Failure? <==>
                  |s| > 1 && (forall x :: x in s ==> !x.Datatype?) &&
                  forall k :: 0 <= k < |dps.members| ==> s[0].dataProperty !in dps.members[k])
            && (r.Failure? ==> r.error == s[0].dataProperty)
            && (|s| == 1 ==> r == Success(s[0]))
            && ((exists x :: x in s && x.Datatype?) ==>
                  r.Success? && r.value in s && r.value.Datatype? &&
                  forall x :: x in s && x.Datatype? ==> CompareNames(r.value.name, x.name) <= 0)
            && (|s| > 1 && (forall x :: x in s ==> !x.Datatype?) &&
                (exists k :: 0 <= k < |dps.members| && s[0].dataProperty in dps.members[k]) ==>
                  r.Success? && r.value.DataPropertyRange? &&
                  Some(r.value.dataProperty) == RepresentativeOf(dps, s[0].dataProperty))
  {
    NamedScanLeast(s, DatatypeName);
    if |s| > 1 && NamedScan(s, DatatypeName).Some? {
      var n := NamedScan(s, DatatypeName).value;
      var x :| x in s && DatatypeName(x) == Some(n);
      assert x == Datatype(n);
      forall y | y in s && y.Datatype? ensures CompareNames(n, y.name) <= 0 {
        assert DatatypeName(y) == Some(y.name);
      }
    }
    if |s| > 1 && NamedScan(s, DatatypeName).None? {
      assert s[0] in s;
      assert !s[0].Datatype?;
    }
  }

  ghost predicate DataRangesResolvable(members: seq<seq<DataRange>>, dps: DagView<DataProperty>) {
    forall i :: 0 <= i < |members| ==> DataRangeResolvable(members[i], dps)
  }

  /** The first `k` sets carry their representatives and the others are as
      they were. */
  ghost predicate RangesChosenUpTo(members: seq<seq<DataRange>>, dps: DagView<DataProperty>,
                                   reps: seq<Option<DataRange>>, before: seq<Option<DataRange>>, k: nat)
    requires WellFormedVertices(members) && DataRangesResolvable(members, dps)
  {
    && k <= |members| && |reps| == |members| && |before| == |members|
    && (forall i :: 0 <= i < k ==>
          DataRangeRepresentative(members[i], dps).Success? &&
          reps[i] == Some(DataRangeRepresentative(members[i], dps).value))
    && (forall i :: k <= i < |members| ==> reps[i] == before[i])
  }

  /** Every set receives its representative, in order, until a set whose
      data property has no set: the loop stops there with the failure and
      leaves the later sets as they were. No set is flagged indexed. */
  method ChooseDataRangeRepresentatives(dag: EquivalencesDag<DataRange>, dps: DagView<DataProperty>)
    returns (outcome: Outcome<DataProperty>)
    requires dag.Valid() && DataRangesResolvable(dag.members, dps)
    modifies dag
    ensures dag.Valid() && dag.members == old(dag.members) && dag.directSub == old(dag.directSub)
    ensures dag.indexed == old(dag.indexed)
    ensures outcome.Pass? ==> RangesChosenUpTo(dag.members, dps, dag.representative, old(dag.representative), |dag.members|)
    ensures outcome.Fail? ==>
              exists k :: 0 <= k < |dag.members| &&
                DataRangeRepresentative(dag.members[k], dps) == Failure(outcome.error) &&
                RangesChosenUpTo(dag.members, dps, dag.representative, old(dag.representative), k)
  {
    var i := 0;
    while i < |dag.members|
      invariant 0 <= i <= |dag.members|
      invariant dag.Valid() && dag.members == old(dag.members) && dag.directSub == old(dag.directSub)
      invariant dag.indexed == old(dag.indexed)
      invariant RangesChosenUpTo(dag.members, dps, dag.representative, old(dag.representative), i)
    {
      var equivalenceSet := dag.members[i];
      var representative: DataRange;
      if |equivalenceSet| <= 1 {
        representative := equivalenceSet[0];
      } else {
        var named := LeastName(equivalenceSet, DatatypeName);
        if named.Some? {
          representative := Datatype(named.value);
        } else {
          var first := equivalenceSet[0];
          match first {
            case Datatype(_) =>
              representative := first;
            case DataPropertyRange(p) =>
              if FindVertex(dps.members, p).None? {
                return Fail(p);
              }
              representative := DataPropertyRange(RepresentativeOf(dps, p).value);
          }
        }
      }
      dag.representative := dag.representative[i := Some(representative)];
      i := i + 1;
    }
    return Pass;
  }
}
