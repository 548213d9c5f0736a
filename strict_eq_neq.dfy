/** Simplification of the n-ary strict equality (`isEq`) and strict inequality
    (`!isEq`) of SQL, under three-valued logic: a NULL argument makes the
    comparison unknown, and the pairwise comparison of the other arguments may
    decide it outright, reduce it, or leave it alone.

    The pairwise comparator, the simplifier of the FALSE-OR-NULL and
    TRUE-OR-NULL wrappers, and the term factory's conjunction and negation are
    collaborators, passed in as a `TermFactory`. */
module StrictEqNeq {
  import opened Wrappers

  datatype Term =
    | NullConstant
    | BooleanConstant(value: bool)
    /** Any other term (variable, constant, functional term): the simplifier
        only compares it through the pairwise comparator. */
    | Atom(name: string)
    | StrictEq(args: seq<Term>)
    | StrictNEq(args: seq<Term>)
    | FalseOrNull(arg: Term)
    | TrueOrNull(arg: Term)

  /** The five outcomes of comparing two terms for strict equality. */
  datatype EvaluationResult =
    | SameExpression
    | SimplifiedExpression(expression: Term)
    | IsNull
    | IsFalse
    | IsTrue

  /** `evaluateStrictEq` of a term against another, `simplify` of an expression
      (with the construction-node flag), the factory's conjunction (absent for
      no conjunct) and the negation of a conjunction. */
  datatype TermFactory = TermFactory(
    evaluateStrictEq: (Term, Term) -> EvaluationResult,
    simplify: (Term, bool) -> Term,
    conjunction: seq<Term> -> Option<Term>,
    negate: Term -> Term)

  /** `IllegalArgumentException`, `MinorOntopInternalBugException` and the
      "TODO" `RuntimeException`. */
  datatype SimplifierError = IllegalArgument | InternalBug | NotImplemented

  // ---------------------------------------------------------------------------
  // Arguments

  /** The non-NULL arguments, in order. */
  function NonNull(ts: seq<Term>): (r: seq<Term>)
    ensures forall i :: 0 <= i < |r| ==> r[i] != NullConstant && r[i] in ts
    ensures forall i :: 0 <= i < |ts| && ts[i] != NullConstant ==> ts[i] in r
  {
    if ts == [] then []
    else
      assert forall i :: 1 <= i < |ts| ==> ts[i] == ts[1..][i - 1];
      (if ts[0] == NullConstant then [] else [ts[0]]) + NonNull(ts[1..])
  }

  /** Filtering keeps the order of the arguments: the non-NULL arguments of a
      concatenation are those of its first part, then those of its second. */
  lemma {:induction false} NonNullAppend(a: seq<Term>, b: seq<Term>)
    ensures NonNull(a + b) == NonNull(a) + NonNull(b)
  {
    if a != [] {
      assert (a + b)[1..] == a[1..] + b;
      NonNullAppend(a[1..], b);
    } else {
      assert a + b == b;
    }
  }

  /** The set of non-NULL arguments, in order of first occurrence. */
  function NonNullTerms(ts: seq<Term>): (r: seq<Term>)
    ensures Distinct(r)
    ensures forall x :: x in r <==> x in ts && x != NullConstant
  {
    var r := Dedup(NonNull(ts));
    assert forall x :: x in ts && x != NullConstant ==> x in r by {
      forall x | x in ts && x != NullConstant ensures x in r {
        var i :| 0 <= i < |ts| && ts[i] == x;
        var n := NonNull(ts);
        var k :| 0 <= k < |n| && n[k] == x;
      }
    }
    assert forall x :: x in r ==> x in ts && x != NullConstant by {
      forall x | x in r ensures x in ts && x != NullConstant {
        var k :| 0 <= k < |r| && r[k] == x;
        var n := NonNull(ts);
        var m :| 0 <= m < |n| && n[m] == x;
      }
    }
    r
  }

  // ---------------------------------------------------------------------------
  // The pairwise reduction: the specification

  /** The first `k >= j` at which term `i` does not compare as the same
      expression, or `|ts|` when there is none. */
  function RowStop(f: TermFactory, ts: seq<Term>, i: nat, j: nat): (k: nat)
    requires i < j <= |ts|
    ensures j <= k <= |ts|
    ensures k < |ts| ==> f.evaluateStrictEq(ts[i], ts[k]) != SameExpression
    ensures forall m :: j <= m < k ==> f.evaluateStrictEq(ts[i], ts[m]) == SameExpression
    decreases |ts| - j
  {
    if j == |ts| || f.evaluateStrictEq(ts[i], ts[j]) != SameExpression then j
    else RowStop(f, ts, i, j + 1)
  }

  /** The comparison that ends the row of term `i`, if any: the first one,
      against a later term, that is not the same expression. */
  function Verdict(f: TermFactory, ts: seq<Term>, i: nat): Option<EvaluationResult>
    requires i < |ts|
  {
    var k := RowStop(f, ts, i, i + 1);
    if k < |ts| then Some(f.evaluateStrictEq(ts[i], ts[k])) else None
  }

  /** The terms kept and the expressions collected so far, or how the
      reduction stopped early. */
  datatype ScanState =
    | Running(kept: seq<Term>, collected: seq<Term>)
    | ShortCircuitFalse
    | UnexpectedNull

  /** The state after the rows of the first `n` terms. */
  function Scan(f: TermFactory, ts: seq<Term>, n: nat): ScanState
    requires n <= |ts|
  {
    if n == 0 then Running([], [])
    else
      match Scan(f, ts, n - 1)
      case Running(kept, collected) =>
        (match Verdict(f, ts, n - 1)
         case None => Running(kept + [ts[n - 1]], collected)
         case Some(SimplifiedExpression(e)) => Running(kept, collected + [e])
         case Some(IsFalse) => ShortCircuitFalse
         case Some(IsNull) => UnexpectedNull
         case Some(_) => Running(kept, collected))
      case stopped => stopped
  }

  /** The conjunction of the expressions, negated for the inequality; the
      factory has no conjunction of nothing. */
  function CombineExpressions(f: TermFactory, isEq: bool, es: seq<Term>): (r: Result<Term, SimplifierError>)
    ensures r.Failure? <==> f.conjunction(es).None?
    ensures r.Failure? ==> r.error == IllegalArgument
  {
    match f.conjunction(es)
    case None => Failure(IllegalArgument)
    case Some(c) => Success(if isEq then c else f.negate(c))
  }

  /** The simplification of the comparison of distinct non-NULL terms. */
  function SimplifyNonNull(f: TermFactory, isEq: bool, ts: seq<Term>): (r: Result<Term, SimplifierError>)
    ensures r.Failure? ==> r.error == InternalBug || r.error == IllegalArgument
    ensures ts == [] ==> r == Success(BooleanConstant(isEq))
  {
    match Scan(f, ts, |ts|)
    case UnexpectedNull => Failure(InternalBug)
    case ShortCircuitFalse => Success(BooleanConstant(!isEq))
    case Running(kept, collected) =>
      var remaining := Dedup(kept);
      var others := Dedup(collected);
      if remaining == [] then
        (if others == [] then Success(BooleanConstant(isEq)) else CombineExpressions(f, isEq, others))
      else CombineExpressions(f, isEq, [StrictEq(remaining)] + others)
  }

  // ---------------------------------------------------------------------------
  // The pairwise reduction: the algorithm

  method SimplifyNonNullTerms(f: TermFactory, isEq: bool, nonNullTerms: seq<Term>) returns (r: Result<Term, SimplifierError>)
    ensures r == SimplifyNonNull(f, isEq, nonNullTerms)
  {
    var remainingTerms: seq<Term> := [];
    var otherExpressions: seq<Term> := [];
    var size := |nonNullTerms|;
    var i := 0;
    while i < size
      invariant 0 <= i <= size
      invariant Scan(f, nonNullTerms, i) == Running(remainingTerms, otherExpressions)
    {
      var next := ScanRow(f, nonNullTerms, i, remainingTerms, otherExpressions);
      match next {
        case Running(kept, collected) =>
          remainingTerms, otherExpressions := kept, collected;
        case UnexpectedNull =>
          ScanStaysStopped(f, nonNullTerms, i + 1, size);
          return Failure(InternalBug);
        case ShortCircuitFalse =>
          ScanStaysStopped(f, nonNullTerms, i + 1, size);
          return Success(BooleanConstant(!isEq));
      }
      i := i + 1;
    }
    var remaining := Dedup(remainingTerms);
    var others := Dedup(otherExpressions);
    if remaining == [] {
      if others == [] {
        return Success(BooleanConstant(isEq));
      }
      return CombineExpressions(f, isEq, others);
    }
    return CombineExpressions(f, isEq, [StrictEq(remaining)] + others);
  }

  /** The row of term `i`: it is compared with the later terms until a
      comparison is not the same expression, and the first such comparison
      decides whether the term is kept, replaced by an expression, or stops
      the reduction. */
  method ScanRow(f: TermFactory, ts: seq<Term>, i: nat, kept: seq<Term>, collected: seq<Term>)
    returns (next: ScanState)
    requires i < |ts| && Scan(f, ts, i) == Running(kept, collected)
    ensures next == Scan(f, ts, i + 1)
  {
    var term := ts[i];
    var remainingTerms, otherExpressions := kept, collected;
    var keepTerm := true;
    var j := i + 1;
    while j < |ts| && keepTerm
      invariant i + 1 <= j <= |ts|
      invariant keepTerm ==> RowStop(f, ts, i, i + 1) == RowStop(f, ts, i, j)
      invariant keepTerm ==> remainingTerms == kept && otherExpressions == collected
      invariant !keepTerm ==> Scan(f, ts, i + 1) == Running(remainingTerms, otherExpressions)
    {
      var evaluation := f.evaluateStrictEq(term, ts[j]);
      match evaluation {
        case SameExpression =>
        case SimplifiedExpression(e) =>
          otherExpressions := otherExpressions + [e];
          keepTerm := false;
        case IsNull =>
          return UnexpectedNull;
        case IsFalse =>
          return ShortCircuitFalse;
        case IsTrue =>
          keepTerm := false;
      }
      j := j + 1;
    }
    if keepTerm {
      remainingTerms := remainingTerms + [term];
    }
    return Running(remainingTerms, otherExpressions);
  }

  /** Once the reduction has stopped, later rows change nothing. */
  lemma {:induction false} ScanStaysStopped(f: TermFactory, ts: seq<Term>, n: nat, m: nat)
    requires n <= m <= |ts| && !Scan(f, ts, n).Running?
    ensures Scan(f, ts, m) == Scan(f, ts, n)
    decreases m
  {
    if m > n {
      ScanStaysStopped(f, ts, n, m - 1);
    }
  }

  // ---------------------------------------------------------------------------
  // Properties of the reduction

  /** The reduction runs through the first `n` rows exactly when none of them
      ends with IS_FALSE or IS_NULL. */
  lemma {:induction false} ScanRunning(f: TermFactory, ts: seq<Term>, n: nat)
    requires n <= |ts|
    ensures Scan(f, ts, n).Running? <==>
            forall i :: 0 <= i < n ==> Verdict(f, ts, i) != Some(IsFalse) && Verdict(f, ts, i) != Some(IsNull)
    decreases n
  {
    if n > 0 {
      ScanRunning(f, ts, n - 1);
    }
  }

  /** A running reduction keeps exactly the terms whose row never ends. */
  lemma {:induction false} ScanKept(f: TermFactory, ts: seq<Term>, n: nat, x: Term)
    requires n <= |ts| && Scan(f, ts, n).Running?
    ensures x in Scan(f, ts, n).kept <==> exists i :: 0 <= i < n && Verdict(f, ts, i).None? && ts[i] == x
    decreases n
  {
    if n > 0 {
      ScanKept(f, ts, n - 1, x);
      if Verdict(f, ts, n - 1).None? {
        assert Scan(f, ts, n).kept == Scan(f, ts, n - 1).kept + [ts[n - 1]];
      } else {
        assert Scan(f, ts, n).kept == Scan(f, ts, n - 1).kept;
      }
    }
  }

  /** A running reduction collects exactly the expressions that end a row. */
  lemma {:induction false} ScanCollected(f: TermFactory, ts: seq<Term>, n: nat, e: Term)
    requires n <= |ts| && Scan(f, ts, n).Running?
    ensures e in Scan(f, ts, n).collected <==> exists i :: 0 <= i < n && Verdict(f, ts, i) == Some(SimplifiedExpression(e))
    decreases n
  {
    if n > 0 {
      ScanCollected(f, ts, n - 1, e);
    }
  }

  /** The first row that ends with IS_FALSE or IS_NULL decides the outcome:
      the constant `!isEq`, or the internal-bug error. */
  lemma {:induction false} FirstStopDecides(f: TermFactory, isEq: bool, ts: seq<Term>, i: nat)
    requires i < |ts|
    requires Verdict(f, ts, i) == Some(IsFalse) || Verdict(f, ts, i) == Some(IsNull)
    requires forall k :: 0 <= k < i ==> Verdict(f, ts, k) != Some(IsFalse) && Verdict(f, ts, k) != Some(IsNull)
    ensures Verdict(f, ts, i) == Some(IsFalse) ==> SimplifyNonNull(f, isEq, ts) == Success(BooleanConstant(!isEq))
    ensures Verdict(f, ts, i) == Some(IsNull) ==> SimplifyNonNull(f, isEq, ts) == Failure(InternalBug)
  {
    ScanRunning(f, ts, i);
    ScanStaysStopped(f, ts, i + 1, |ts|);
  }

  /** The row of the last term is empty, so the last term is always kept: the
      reduction never leaves no term standing. */
  lemma {:induction false} LastTermKept(f: TermFactory, ts: seq<Term>)
    requires |ts| > 0 && Scan(f, ts, |ts|).Running?
    ensures |Scan(f, ts, |ts|).kept| > 0
    ensures Scan(f, ts, |ts|).kept[|Scan(f, ts, |ts|).kept| - 1] == ts[|ts| - 1]
  {
    var n := |ts|;
    assert RowStop(f, ts, n - 1, n) == n;
  }

  /** When the reduction runs to the end, the result is the conjunction of the
      strict equality of the kept terms with the collected expressions,
      negated for the inequality. */
  lemma {:induction false} RunningResult(f: TermFactory, isEq: bool, ts: seq<Term>)
    requires |ts| > 0 && Scan(f, ts, |ts|).Running?
    ensures var s := Scan(f, ts, |ts|);
            SimplifyNonNull(f, isEq, ts) == CombineExpressions(f, isEq, [StrictEq(Dedup(s.kept))] + Dedup(s.collected))
    ensures |Dedup(Scan(f, ts, |ts|).kept)| > 0
  {
    LastTermKept(f, ts);
    DedupHead(Scan(f, ts, |ts|).kept);
  }

  /** When no two terms can be compared, every term is kept and nothing is
      collected. */
  lemma {:induction false} AllSameKeepsEveryTerm(f: TermFactory, ts: seq<Term>, n: nat)
    requires n <= |ts|
    requires forall i, j :: 0 <= i < j < |ts| ==> f.evaluateStrictEq(ts[i], ts[j]) == SameExpression
    ensures Scan(f, ts, n) == Running(ts[..n], [])
    decreases n
  {
    if n > 0 {
      AllSameKeepsEveryTerm(f, ts, n - 1);
      assert RowStop(f, ts, n - 1, n) == |ts|;
      assert ts[..n] == ts[..n - 1] + [ts[n - 1]];
    }
  }

  // ---------------------------------------------------------------------------
  // The function symbol

  /** The simplification of the strict (in)equality of the given arguments. */
  function BuildTermAfterEvaluation(f: TermFactory, isEq: bool, newTerms: seq<Term>,
                                    isInConstructionNodeInOptimizationPhase: bool): (r: Result<Term, SimplifierError>)
    ensures |newTerms| < 2 ==> r == Failure(IllegalArgument)
    ensures |newTerms| >= 2 && NullConstant in newTerms &&
            (forall x, y :: x in newTerms && y in newTerms && x != NullConstant && y != NullConstant ==> x == y) ==>
              r == Success(NullConstant)
    ensures |newTerms| >= 2 && NullConstant in newTerms && |NonNullTerms(newTerms)| >= 2 ==>
              r == Success(f.simplify(
                     if isEq then FalseOrNull(StrictEq(NonNullTerms(newTerms)))
                     else TrueOrNull(StrictNEq(NonNullTerms(newTerms))),
                     isInConstructionNodeInOptimizationPhase))
    ensures |newTerms| >= 2 && NullConstant !in newTerms && (forall i :: 0 <= i < |newTerms| ==> newTerms[i] == newTerms[0]) ==>
              r == Success(BooleanConstant(isEq))
    ensures |newTerms| >= 2 && NullConstant !in newTerms && |NonNullTerms(newTerms)| >= 2 ==>
              r == SimplifyNonNull(f, isEq, NonNullTerms(newTerms))
  {
    if |newTerms| < 2 then Failure(IllegalArgument)
    else
      var nonNullTerms := NonNullTerms(newTerms);
      AtMostOneNonNull(newTerms);
      if NullConstant in newTerms then
        if |nonNullTerms| <= 1 then Success(NullConstant)
        else
          var newExpression := if isEq then FalseOrNull(StrictEq(nonNullTerms))
                               else TrueOrNull(StrictNEq(nonNullTerms));
          Success(f.simplify(newExpression, isInConstructionNodeInOptimizationPhase))
      else if |nonNullTerms| == 1 then Success(BooleanConstant(isEq))
      else
        assert newTerms[0] in nonNullTerms;
        assert |nonNullTerms| >= 2;
        SimplifyNonNull(f, isEq, nonNullTerms)
  }

  /** At most one distinct non-NULL argument exactly when all non-NULL
      arguments are equal. */
  lemma AtMostOneNonNull(ts: seq<Term>)
    ensures |NonNullTerms(ts)| <= 1 <==>
            forall x, y :: x in ts && y in ts && x != NullConstant && y != NullConstant ==> x == y
  {
    DistinctNonNullAtMostOne(NonNullTerms(ts), ts);
  }

  lemma DistinctNonNullAtMostOne(r: seq<Term>, ts: seq<Term>)
    requires Distinct(r) && forall x :: x in r <==> x in ts && x != NullConstant
    ensures |r| <= 1 <==> forall x, y :: x in ts && y in ts && x != NullConstant && y != NullConstant ==> x == y
  {
    if |r| >= 2 {
      assert r[0] in r && r[1] in r;
    } else {
      forall x, y | x in ts && y in ts && x != NullConstant && y != NullConstant ensures x == y {
        assert x in r && y in r;
      }
    }
  }

  /** `a = a` is true and `a <> a` false, whatever the comparator says. */
  lemma SameArgumentExample(f: TermFactory, phase: bool)
    ensures BuildTermAfterEvaluation(f, true, [Atom("a"), Atom("a")], phase) == Success(BooleanConstant(true))
    ensures BuildTermAfterEvaluation(f, false, [Atom("a"), Atom("a")], phase) == Success(BooleanConstant(false))
  {
  }

  /** `a = NULL` is unknown, and so is `a <> NULL`. */
  lemma NullArgumentExample(f: TermFactory, phase: bool)
    ensures BuildTermAfterEvaluation(f, true, [Atom("a"), NullConstant], phase) == Success(NullConstant)
    ensures BuildTermAfterEvaluation(f, false, [Atom("a"), NullConstant], phase) == Success(NullConstant)
  {
  }

  /** Distinct non-NULL arguments are their own non-NULL set. */
  lemma {:induction false} NonNullTermsOfDistinct(ts: seq<Term>)
    requires Distinct(ts) && NullConstant !in ts
    ensures NonNullTerms(ts) == ts
  {
    NonNullOfNonNull(ts);
  }

  lemma {:induction false} NonNullOfNonNull(ts: seq<Term>)
    requires NullConstant !in ts
    ensures NonNull(ts) == ts
  {
    if ts != [] {
      NonNullOfNonNull(ts[1..]);
    }
  }

  /** `a = b` is false, and `a <> b` true, for terms the comparator tells
      apart. */
  lemma DistinctArgumentsExample(f: TermFactory, phase: bool)
    requires f.evaluateStrictEq(Atom("a"), Atom("b")) == IsFalse
    ensures BuildTermAfterEvaluation(f, true, [Atom("a"), Atom("b")], phase) == Success(BooleanConstant(false))
    ensures BuildTermAfterEvaluation(f, false, [Atom("a"), Atom("b")], phase) == Success(BooleanConstant(true))
  {
    var ab := [Atom("a"), Atom("b")];
    NonNullTermsOfDistinct(ab);
    assert RowStop(f, ab, 0, 1) == 1;
    FirstStopDecides(f, true, ab, 0);
    FirstStopDecides(f, false, ab, 0);
  }

  /** This symbol does not preserve distinctness of its arguments. */
  function IsInjective(arguments: seq<Term>): (r: bool)
    ensures !r
  {
    false
  }

  /** The comparison can always be evaluated after the translation to SQL. */
  function CanBePostProcessed(arguments: seq<Term>): (r: bool)
    ensures r
  {
    true
  }

  /** Negating the n-ary form is not implemented: it always raises. */
  function Negate(subTerms: seq<Term>): (r: Result<Term, SimplifierError>)
    ensures r == Failure(NotImplemented)
  {
    Failure(NotImplemented)
  }
}
