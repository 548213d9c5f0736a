/** One-way matching of terms and the small utilities over immutable
    substitutions used by the query optimizer.

    A substitution maps variables to terms. Matching a source term `s` against
    a target term `t` looks for a substitution `theta` with `theta(s) == t`. */
module SubstitutionTools {
  import opened Wrappers

  type Variable = string

  /** Variables, constants and functional terms. `MutableFunc` is a functional
      term of the older mutable term API: it is neither a non-functional term
      nor an immutable functional term. */
  datatype Term =
    | Var(name: Variable)
    | Const(value: string)
    | Func(symbol: string, args: seq<Term>)
    | MutableFunc(symbol: string, args: seq<Term>)

  type Substitution = map<Variable, Term>

  /** An injective variable-to-variable renaming. */
  type Renaming = map<Variable, Variable>

  /** The term contains no mutable functional term. */
  predicate Immutable(t: Term)
    decreases t
  {
    match t
    case Var(_) => true
    case Const(_) => true
    case Func(_, args) => forall i :: 0 <= i < |args| ==> Immutable(args[i])
    case MutableFunc(_, _) => false
  }

  function Vars(t: Term): set<Variable>
    decreases t
  {
    match t
    case Var(x) => {x}
    case Const(_) => {}
    case Func(_, args) => set i, x | 0 <= i < |args| && x in Vars(args[i]) :: x
    case MutableFunc(_, args) => set i, x | 0 <= i < |args| && x in Vars(args[i]) :: x
  }

  predicate Ground(t: Term) {
    Vars(t) == {}
  }

  /** The image of a variable: its binding, or the variable itself. */
  function Lookup(theta: Substitution, x: Variable): Term {
    if x in theta then theta[x] else Var(x)
  }

  function Apply(theta: Substitution, t: Term): Term
    decreases t
  {
    match t
    case Var(x) => Lookup(theta, x)
    case Const(_) => t
    case Func(f, args) => Func(f, seq(|args|, i requires 0 <= i < |args| => Apply(theta, args[i])))
    case MutableFunc(f, args) => MutableFunc(f, seq(|args|, i requires 0 <= i < |args| => Apply(theta, args[i])))
  }

  /** The bindings of `theta` on the variables of `vs`, with variables that
      `theta` leaves alone bound to themselves. */
  function Restrict(theta: Substitution, vs: set<Variable>): Substitution {
    map x | x in vs :: Lookup(theta, x)
  }

  /** The union of two substitutions, absent when they disagree on a shared
      variable. */
  function Union(a: Substitution, b: Substitution): (r: Option<Substitution>)
    ensures r.Some? <==> forall x :: x in a && x in b ==> a[x] == b[x]
    ensures r.Some? ==> r.value.Keys == a.Keys + b.Keys
    ensures r.Some? ==> (forall x :: x in a ==> r.value[x] == a[x]) && (forall x :: x in b ==> r.value[x] == b[x])
  {
    if forall x | x in a && x in b :: a[x] == b[x] then Some(a + b) else None
  }

  // ---------------------------------------------------------------------------
  // Matching: the specification

  /** The substitution `theta` with `theta(s) == t`, if the matcher finds one. */
  function Match(s: Term, t: Term): Option<Substitution>
    decreases s, 2
  {
    match s
    case Var(x) =>
      if s != t && t.Func? && x in Vars(t) then None   // occurs check
      else Some(map[x := t])
    case Func(_, _) =>
      if t.Func? then MatchFunctional(s, t) else None
    case _ =>
      if s == t then Some(map[]) else None
  }

  function MatchFunctional(s: Term, t: Term): Option<Substitution>
    requires s.Func? && t.Func?
    decreases s, 1
  {
    if s.symbol != t.symbol then None
    else if Ground(s) then (if s == t then Some(map[]) else None)
    else if |s.args| != |t.args| then None
    else MatchArgs(s, t, 0, map[])
  }

  /** Matches the arguments from index `i` on, left to right, accumulating the
      child substitutions into `acc` by union. */
  function MatchArgs(s: Term, t: Term, i: nat, acc: Substitution): Option<Substitution>
    requires s.Func? && t.Func? && |s.args| == |t.args| && i <= |s.args|
    decreases s, 0, |s.args| - i
  {
    if i == |s.args| then Some(acc)
    else
      match Match(s.args[i], t.args[i])
      case None => None
      case Some(child) =>
        match Union(acc, child)
        case None => None
        case Some(u) => MatchArgs(s, t, i + 1, u)
  }

  // ---------------------------------------------------------------------------
  // Matching: the algorithm

  method ComputeUnidirectionalSubstitution(s: Term, t: Term) returns (r: Option<Substitution>)
    requires Immutable(s) && Immutable(t)
    ensures r == Match(s, t)
    decreases s, 2
  {
    if s.Var? {
      if s != t && t.Func? && s.name in Vars(t) {
        return None;
      }
      return Some(map[s.name := t]);
    } else if s.Func? {
      if t.Func? {
        r := ComputeUnidirectionalSubstitutionOfFunctionalTerms(s, t);
      } else {
        r := None;
      }
    } else if s == t {
      r := Some(map[]);
    } else {
      r := None;
    }
  }

  method ComputeUnidirectionalSubstitutionOfFunctionalTerms(s: Term, t: Term) returns (r: Option<Substitution>)
    requires s.Func? && t.Func? && Immutable(s) && Immutable(t)
    ensures r == MatchFunctional(s, t)
    decreases s, 1
  {
    if s.symbol != t.symbol {
      return None;
    }
    if Ground(s) {
      if s == t {
        return Some(map[]);
      }
      return None;
    }
    var arity := |s.args|;
    if arity != |t.args| {
      return None;
    }
    var unifier: Substitution := map[];
    var i := 0;
    while i < arity
      invariant 0 <= i <= arity
      invariant MatchArgs(s, t, i, unifier) == MatchArgs(s, t, 0, map[])
    {
      var child := ComputeUnidirectionalSubstitution(s.args[i], t.args[i]);
      if child.None? {
        return None;
      }
      var merged := Union(unifier, child.value);
      if merged.Some? {
        unifier := merged.value;
      } else {
        return None;
      }
      i := i + 1;
    }
    return Some(unifier);
  }

  // ---------------------------------------------------------------------------
  // Facts about substitution application

  /** Variables of the arguments before index `i`. */
  function ArgVars(s: Term, i: nat): set<Variable>
    requires s.Func? && i <= |s.args|
  {
    set j, x | 0 <= j < i && x in Vars(s.args[j]) :: x
  }

  /** Two substitutions that agree on the variables of `t` map `t` alike. */
  lemma {:induction false} ApplyAgree(a: Substitution, b: Substitution, t: Term)
    requires forall x :: x in Vars(t) ==> Lookup(a, x) == Lookup(b, x)
    ensures Apply(a, t) == Apply(b, t)
    decreases t
  {
    match t
    case Var(_) =>
    case Const(_) =>
    case Func(f, args) =>
      forall i | 0 <= i < |args| ensures Apply(a, args[i]) == Apply(b, args[i]) {
        ApplyAgree(a, b, args[i]);
      }
    case MutableFunc(f, args) =>
      forall i | 0 <= i < |args| ensures Apply(a, args[i]) == Apply(b, args[i]) {
        ApplyAgree(a, b, args[i]);
      }
  }

  /** A ground term is left unchanged by every substitution. */
  lemma {:induction false} ApplyGround(a: Substitution, t: Term)
    requires Ground(t)
    ensures Apply(a, t) == t
    decreases t
  {
    match t
    case Var(_) =>
    case Const(_) =>
    case Func(f, args) =>
      forall i | 0 <= i < |args| ensures Apply(a, args[i]) == args[i] {
        ApplyGround(a, args[i]);
      }
      assert seq(|args|, i requires 0 <= i < |args| => Apply(a, args[i])) == args;
    case MutableFunc(f, args) =>
      forall i | 0 <= i < |args| ensures Apply(a, args[i]) == args[i] {
        ApplyGround(a, args[i]);
      }
      assert seq(|args|, i requires 0 <= i < |args| => Apply(a, args[i])) == args;
  }

  /** Two substitutions that map `t` alike agree on every variable of `t`. */
  lemma {:induction false} ApplyEqualAgree(a: Substitution, b: Substitution, t: Term)
    requires Apply(a, t) == Apply(b, t)
    ensures forall x :: x in Vars(t) ==> Lookup(a, x) == Lookup(b, x)
    decreases t
  {
    match t
    case Var(_) =>
    case Const(_) =>
    case Func(f, args) =>
      forall x | x in Vars(t) ensures Lookup(a, x) == Lookup(b, x) {
        var i :| 0 <= i < |args| && x in Vars(args[i]);
        assert Apply(a, t).args[i] == Apply(b, t).args[i];
        ApplyEqualAgree(a, b, args[i]);
      }
    case MutableFunc(f, args) =>
      forall x | x in Vars(t) ensures Lookup(a, x) == Lookup(b, x) {
        var i :| 0 <= i < |args| && x in Vars(args[i]);
        assert Apply(a, t).args[i] == Apply(b, t).args[i];
        ApplyEqualAgree(a, b, args[i]);
      }
  }

  // ---------------------------------------------------------------------------
  // Matching: soundness, uniqueness and completeness

  /** A match found for `s` and `t` binds exactly the variables of `s` and maps
      `s` to `t`. */
  lemma {:induction false} MatchSound(s: Term, t: Term)
    requires Immutable(s) && Match(s, t).Some?
    ensures Match(s, t).value.Keys == Vars(s)
    ensures Apply(Match(s, t).value, s) == t
    decreases s, 2
  {
    match s
    case Var(x) =>
    case Const(_) =>
    case Func(_, _) =>
      MatchFunctionalSound(s, t);
  }

  lemma {:induction false} MatchFunctionalSound(s: Term, t: Term)
    requires Immutable(s) && s.Func? && t.Func? && MatchFunctional(s, t).Some?
    ensures MatchFunctional(s, t).value.Keys == Vars(s)
    ensures Apply(MatchFunctional(s, t).value, s) == t
    decreases s, 1
  {
    if Ground(s) {
      ApplyGround(map[], s);
    } else {
      assert ArgVars(s, 0) == {};
      var theta := MatchFunctional(s, t).value;
      MatchArgsSound(s, t, 0, map[], theta);
      assert ArgVars(s, |s.args|) == Vars(s);
      assert Apply(theta, s).args == t.args;
    }
  }

  lemma {:induction false} MatchArgsSound(s: Term, t: Term, i: nat, acc: Substitution, r: Substitution)
    requires Immutable(s) && s.Func? && t.Func? && |s.args| == |t.args| && i <= |s.args|
    requires MatchArgs(s, t, i, acc) == Some(r)
    requires acc.Keys == ArgVars(s, i)
    requires forall j :: 0 <= j < i ==> Apply(acc, s.args[j]) == t.args[j]
    ensures r.Keys == ArgVars(s, |s.args|)
    ensures forall j :: 0 <= j < |s.args| ==> Apply(r, s.args[j]) == t.args[j]
    decreases s, 0, |s.args| - i
  {
    if i < |s.args| {
      MatchArgsNext(s, t, i, acc);
      MatchSound(s.args[i], t.args[i]);
      UnionSolvesArgs(s, t, i, acc, Match(s.args[i], t.args[i]).value);
      MatchArgsSound(s, t, i + 1, Union(acc, Match(s.args[i], t.args[i]).value).value, r);
    }
  }

  /** A turn of the argument loop that does not fail matches argument `i`,
      unites the result with the bindings so far and goes on. */
  lemma MatchArgsNext(s: Term, t: Term, i: nat, acc: Substitution)
    requires s.Func? && t.Func? && |s.args| == |t.args| && i < |s.args|
    requires MatchArgs(s, t, i, acc).Some?
    ensures Match(s.args[i], t.args[i]).Some?
    ensures Union(acc, Match(s.args[i], t.args[i]).value).Some?
    ensures MatchArgs(s, t, i, acc) == MatchArgs(s, t, i + 1, Union(acc, Match(s.args[i], t.args[i]).value).value)
  {
  }

  /** One turn of the argument loop: uniting the bindings that solve the first
      `i` arguments with a match of argument `i` solves the first `i + 1`. */
  lemma UnionSolvesArgs(s: Term, t: Term, i: nat, acc: Substitution, child: Substitution)
    requires s.Func? && t.Func? && |s.args| == |t.args| && i < |s.args|
    requires acc.Keys == ArgVars(s, i)
    requires forall j :: 0 <= j < i ==> Apply(acc, s.args[j]) == t.args[j]
    requires child.Keys == Vars(s.args[i]) && Apply(child, s.args[i]) == t.args[i]
    requires Union(acc, child).Some?
    ensures Union(acc, child).value.Keys == ArgVars(s, i + 1)
    ensures forall j :: 0 <= j < i + 1 ==> Apply(Union(acc, child).value, s.args[j]) == t.args[j]
  {
    var u := Union(acc, child).value;
    forall j | 0 <= j < i + 1 ensures Apply(u, s.args[j]) == t.args[j] {
      if j < i {
        assert forall x :: x in Vars(s.args[j]) ==> x in acc;
        ApplyAgree(u, acc, s.args[j]);
      } else {
        ApplyAgree(u, child, s.args[j]);
      }
    }
    forall x | x in ArgVars(s, i + 1) ensures x in u {
      var j :| 0 <= j < i + 1 && x in Vars(s.args[j]);
      if j < i { assert x in ArgVars(s, i); }
    }
  }

  /** Any substitution that maps `s` to `t` agrees with the match found on the
      variables of `s`: the match is the only one, up to variables outside `s`. */
  lemma MatchUnique(s: Term, t: Term, sigma: Substitution)
    requires Immutable(s) && Match(s, t).Some? && Apply(sigma, s) == t
    ensures forall x :: x in Vars(s) ==> x in Match(s, t).value && Lookup(sigma, x) == Match(s, t).value[x]
  {
    var theta := Match(s, t).value;
    MatchSound(s, t);
    ApplyEqualAgree(sigma, theta, s);
  }

  /** The occurs check of the matcher rejects `sigma` at `s`: `sigma` binds some
      variable of `s` to a functional term containing that variable. */
  predicate OccursClash(sigma: Substitution, s: Term) {
    exists x :: x in Vars(s) && Lookup(sigma, x).Func? && x in Vars(Lookup(sigma, x))
  }

  /** Every instance of `s` is matched, by the bindings of the instantiating
      substitution, unless the occurs check rejects those bindings. */
  lemma {:induction false} MatchComplete(s: Term, sigma: Substitution)
    requires Immutable(s) && !OccursClash(sigma, s)
    ensures Match(s, Apply(sigma, s)) == Some(Restrict(sigma, Vars(s)))
    decreases s, 2
  {
    match s
    case Var(x) =>
      assert Restrict(sigma, Vars(s)) == map[x := Lookup(sigma, x)];
    case Const(_) =>
      assert Restrict(sigma, Vars(s)) == map[];
    case Func(_, _) =>
      MatchFunctionalComplete(s, sigma);
  }

  lemma {:induction false} MatchFunctionalComplete(s: Term, sigma: Substitution)
    requires Immutable(s) && s.Func? && !OccursClash(sigma, s)
    ensures MatchFunctional(s, Apply(sigma, s)) == Some(Restrict(sigma, Vars(s)))
    decreases s, 1
  {
    if Ground(s) {
      ApplyGround(sigma, s);
      assert Restrict(sigma, Vars(s)) == map[];
    } else {
      assert ArgVars(s, 0) == {};
      assert Restrict(sigma, ArgVars(s, 0)) == map[];
      MatchArgsComplete(s, sigma, 0);
      assert ArgVars(s, |s.args|) == Vars(s);
    }
  }

  lemma {:induction false} MatchArgsComplete(s: Term, sigma: Substitution, i: nat)
    requires Immutable(s) && s.Func? && !OccursClash(sigma, s) && i <= |s.args|
    ensures MatchArgs(s, Apply(sigma, s), i, Restrict(sigma, ArgVars(s, i))) ==
            Some(Restrict(sigma, ArgVars(s, |s.args|)))
    decreases s, 0, |s.args| - i
  {
    if i < |s.args| {
      var t := Apply(sigma, s);
      var acc := Restrict(sigma, ArgVars(s, i));
      assert t.args[i] == Apply(sigma, s.args[i]);
      assert !OccursClash(sigma, s.args[i]) by {
        forall x | x in Vars(s.args[i]) ensures x in Vars(s) { }
      }
      MatchComplete(s.args[i], sigma);
      var child := Restrict(sigma, Vars(s.args[i]));
      RestrictUnion(sigma, ArgVars(s, i), Vars(s.args[i]));
      ArgVarsStep(s, i);
      MatchArgsComplete(s, sigma, i + 1);
    }
  }

  lemma ArgVarsStep(s: Term, i: nat)
    requires s.Func? && i < |s.args|
    ensures ArgVars(s, i + 1) == ArgVars(s, i) + Vars(s.args[i])
  {
    forall x | x in ArgVars(s, i + 1) ensures x in ArgVars(s, i) + Vars(s.args[i]) {
      var j :| 0 <= j < i + 1 && x in Vars(s.args[j]);
      if j < i { assert x in ArgVars(s, i); }
    }
  }

  /** Two restrictions of one substitution always unite, into the restriction
      to both variable sets. */
  lemma RestrictUnion(sigma: Substitution, a: set<Variable>, b: set<Variable>)
    ensures Union(Restrict(sigma, a), Restrict(sigma, b)) == Some(Restrict(sigma, a + b))
  {
    assert Restrict(sigma, a) + Restrict(sigma, b) == Restrict(sigma, a + b);
  }

  /** The occurs check makes the matcher give up on a pair that a substitution
      does map one onto the other: `x` against `f(x)`. */
  lemma OccursCheckRejectsInstance()
    ensures var s := Var("x");
            var t := Func("f", [Var("x")]);
            Apply(map["x" := t], s) == t && Match(s, t).None?
  {
    var t := Func("f", [Var("x")]);
    assert t.args[0] == Var("x");
    assert "x" in Vars(t.args[0]);
  }

  // ---------------------------------------------------------------------------
  // Map utilities

  /** The sub-substitution of the variable-to-variable entries. */
  method ExtractVar2VarSubstitution(theta: Substitution) returns (r: Renaming)
    ensures forall x :: x in r <==> x in theta && theta[x].Var?
    ensures forall x :: x in r ==> theta[x] == Var(r[x])
  {
    r := map[];
    var pending := theta.Keys;
    while pending != {}
      invariant pending <= theta.Keys
      invariant forall x :: x in r <==> x in theta && x !in pending && theta[x].Var?
      invariant forall x :: x in r ==> theta[x] == Var(r[x])
      decreases |pending|
    {
      var x :| x in pending;
      if theta[x].Var? {
        r := r[x := theta[x].name];
      }
      pending := pending - {x};
    }
  }

  /** `IllegalArgumentException`: an entry maps to a term that is neither
      non-functional nor an immutable functional term. */
  datatype SplitError = UnknownTermType(variable: Variable)

  predicate NonFunctional(t: Term) {
    t.Var? || t.Const?
  }

  /** Splits a substitution into its non-functional part and its functional
      part. */
  method SplitFunctionFreeSubstitution(theta: Substitution) returns (r: Result<(Substitution, Substitution), SplitError>)
    ensures r.Failure? <==> exists x :: x in theta && theta[x].MutableFunc?
    ensures r.Failure? ==> r.error.variable in theta && theta[r.error.variable].MutableFunc?
    ensures r.Success? ==> r.value.0.Keys !! r.value.1.Keys
    ensures r.Success? ==> forall x :: x in r.value.0 ==> NonFunctional(r.value.0[x])
    ensures r.Success? ==> forall x :: x in r.value.1 ==> r.value.1[x].Func?
    ensures r.Success? ==> forall x :: x in theta <==> x in r.value.0 || x in r.value.1
    ensures r.Success? ==> forall x :: x in r.value.0 ==> x in theta && r.value.0[x] == theta[x]
    ensures r.Success? ==> forall x :: x in r.value.1 ==> x in theta && r.value.1[x] == theta[x]
  {
    var functionFree: Substitution := map[];
    var other: Substitution := map[];
    var pending := theta.Keys;
    while pending != {}
      invariant pending <= theta.Keys
      invariant forall x :: x in theta && x !in pending ==> !theta[x].MutableFunc?
      invariant functionFree.Keys !! other.Keys
      invariant forall x :: x in functionFree ==> NonFunctional(functionFree[x])
      invariant forall x :: x in other ==> other[x].Func?
      invariant forall x :: x in theta && x !in pending <==> x in functionFree || x in other
      invariant forall x :: x in functionFree ==> x in theta && functionFree[x] == theta[x]
      invariant forall x :: x in other ==> x in theta && other[x] == theta[x]
      decreases |pending|
    {
      var x :| x in pending;
      var target := theta[x];
      if NonFunctional(target) {
        functionFree := functionFree[x := target];
      } else if target.Func? {
        other := other[x := target];
      } else {
        return Failure(UnknownTermType(x));
      }
      pending := pending - {x};
    }
    return Success((functionFree, other));
  }

  /** A renaming as a substitution. */
  function AsSubstitution(rho: Renaming): Substitution {
    map x | x in rho :: Var(rho[x])
  }

  /** Applies a renaming to the image of a substitution. */
  function ApplyRenaming(rho: Renaming, theta: Substitution): (r: Substitution)
    ensures r.Keys == theta.Keys
  {
    map x | x in theta :: Apply(AsSubstitution(rho), theta[x])
  }

  /** The substitution after applying the renamings in list order. */
  function RenamedBy(theta: Substitution, renamings: seq<Renaming>): Substitution
    decreases |renamings|
  {
    if renamings == [] then theta
    else ApplyRenaming(renamings[|renamings| - 1], RenamedBy(theta, renamings[..|renamings| - 1]))
  }

  method RenameSubstitution(theta: Substitution, renamings: seq<Renaming>) returns (r: Substitution)
    ensures r == RenamedBy(theta, renamings)
    ensures renamings == [] ==> r == theta
  {
    r := theta;
    for i := 0 to |renamings|
      invariant r == RenamedBy(theta, renamings[..i])
    {
      assert renamings[..i + 1][..i] == renamings[..i];
      r := ApplyRenaming(renamings[i], r);
    }
    assert renamings[..|renamings|] == renamings;
  }

  /** Renaming never adds or drops an entry. */
  lemma {:induction false} RenamedByKeys(theta: Substitution, renamings: seq<Renaming>)
    ensures RenamedBy(theta, renamings).Keys == theta.Keys
    decreases |renamings|
  {
    if renamings != [] {
      RenamedByKeys(theta, renamings[..|renamings| - 1]);
    }
  }

  /** Renaming by a concatenation is renaming by each part in turn. */
  lemma {:induction false} RenamedByAppend(theta: Substitution, a: seq<Renaming>, b: seq<Renaming>)
    ensures RenamedBy(theta, a + b) == RenamedBy(RenamedBy(theta, a), b)
    decreases |b|
  {
    if b == [] {
      assert a + b == a;
    } else {
      var b' := b[..|b| - 1];
      assert (a + b)[..|a + b| - 1] == a + b';
      assert (a + b)[|a + b| - 1] == b[|b| - 1];
      RenamedByAppend(theta, a, b');
    }
  }

  /** Composition of substitutions: `Compose(a, b)` maps like `a` then `b`. */
  function Compose(a: Substitution, b: Substitution): Substitution {
    map x | x in a.Keys + b.Keys :: Apply(b, Lookup(a, x))
  }

  /** Applying two substitutions in turn is applying their composition. */
  lemma {:induction false} ApplyCompose(a: Substitution, b: Substitution, t: Term)
    ensures Apply(b, Apply(a, t)) == Apply(Compose(a, b), t)
    decreases t
  {
    match t
    case Var(x) =>
    case Const(_) =>
    case Func(f, args) =>
      forall i | 0 <= i < |args| ensures Apply(b, Apply(a, args[i])) == Apply(Compose(a, b), args[i]) {
        ApplyCompose(a, b, args[i]);
      }
    case MutableFunc(f, args) =>
      forall i | 0 <= i < |args| ensures Apply(b, Apply(a, args[i])) == Apply(Compose(a, b), args[i]) {
        ApplyCompose(a, b, args[i]);
      }
  }

  /** Each entry of a substitution renamed by a list is its original value under
      the composition of the renamings. */
  lemma {:induction false} RenamedByComposes(theta: Substitution, renamings: seq<Renaming>, x: Variable)
    requires x in theta
    ensures x in RenamedBy(theta, renamings)
    ensures RenamedBy(theta, renamings)[x] == Apply(ComposeAll(renamings), theta[x])
    decreases |renamings|
  {
    RenamedByKeys(theta, renamings);
    if renamings == [] {
      ApplyGroundless(theta[x]);
    } else {
      var init := renamings[..|renamings| - 1];
      RenamedByKeys(theta, init);
      RenamedByComposes(theta, init, x);
      ApplyCompose(ComposeAll(init), AsSubstitution(renamings[|renamings| - 1]), theta[x]);
    }
  }

  /** The composition of a list of renamings, as a substitution. */
  function ComposeAll(renamings: seq<Renaming>): Substitution
    decreases |renamings|
  {
    if renamings == [] then map[]
    else Compose(ComposeAll(renamings[..|renamings| - 1]), AsSubstitution(renamings[|renamings| - 1]))
  }

  /** The empty substitution changes nothing. */
  lemma {:induction false} ApplyGroundless(t: Term)
    ensures Apply(map[], t) == t
    decreases t
  {
    match t
    case Var(_) =>
    case Const(_) =>
    case Func(f, args) =>
      forall i | 0 <= i < |args| ensures Apply(map[], args[i]) == args[i] {
        ApplyGroundless(args[i]);
      }
      assert seq(|args|, i requires 0 <= i < |args| => Apply(map[], args[i])) == args;
    case MutableFunc(f, args) =>
      forall i | 0 <= i < |args| ensures Apply(map[], args[i]) == args[i] {
        ApplyGroundless(args[i]);
      }
      assert seq(|args|, i requires 0 <= i < |args| => Apply(map[], args[i])) == args;
  }

  // ---------------------------------------------------------------------------
  // Injectivity

  /** The number of distinct values equals the number of keys. */
  function IsInjective(m: map<Variable, Term>): bool {
    |m.Values| == |m.Keys|
  }

  /** Counting distinct values decides injectivity: no two keys share a value. */
  lemma {:induction false} IsInjectiveIff(m: map<Variable, Term>)
    ensures IsInjective(m) <==> forall x, y :: x in m && y in m && m[x] == m[y] ==> x == y
    ensures |m.Values| <= |m.Keys|
    decreases |m.Keys|
  {
    if m.Keys != {} {
      var k :| k in m;
      var rest := m - {k};
      assert rest.Keys == m.Keys - {k};
      IsInjectiveIff(rest);
      if exists y :: y in rest && rest[y] == m[k] {
        var y :| y in rest && rest[y] == m[k];
        assert m.Values == rest.Values by {
          forall v | v in m.Values ensures v in rest.Values {
            var z :| z in m && m[z] == v;
            if z == k { assert rest[y] == v; } else { assert z in rest; }
          }
        }
        assert m[y] == m[k] && y != k;
      } else {
        assert m.Values == rest.Values + {m[k]} by {
          forall v | v in m.Values ensures v in rest.Values + {m[k]} {
            var z :| z in m && m[z] == v;
            if z != k { assert z in rest; }
          }
        }
        assert m[k] !in rest.Values;
        if forall x, y :: x in rest && y in rest && rest[x] == rest[y] ==> x == y {
          forall x | x in m && x != k ensures m[x] != m[k] {
            assert x in rest;
          }
          forall x, y | x in m && y in m && m[x] == m[y] ensures x == y {
            if x != k && y != k {
              assert x in rest && y in rest;
            }
          }
        } else {
          var x, y :| x in rest && y in rest && rest[x] == rest[y] && x != y;
          assert m[x] == m[y];
        }
      }
    }
  }
}
