/** Removal of TrueNodes, the neutral leaves of an intermediate query tree.

    A TrueNode is removed when its parent is an inner join, a construction
    node, a TrueNode, or a left join of which it is the right argument. When
    the parent is a join left with a single child, the join is replaced by
    that child. Passes over the TrueNodes of the query repeat until a pass
    removes nothing. */
module TrueNodesRemoval {
  import opened Wrappers

  type NodeId = nat

  datatype NodeKind =
    | InnerJoin
    | LeftJoin
    | Construction(projectedVariables: set<string>)
    | TrueNode
    | OtherNode(name: string)

  /** The argument position of a child of a left join. */
  datatype ArgumentPosition = Left | Right

  predicate IsJoin(k: NodeKind) {
    k.InnerJoin? || k.LeftJoin?
  }

  /** The removal rule: may a TrueNode whose parent has kind `parentKind` be
      removed, given whether it is the right argument of that parent? */
  function RemovalRule(parentKind: NodeKind, isRightChild: bool): (r: bool)
    ensures parentKind.LeftJoin? ==> (r <==> isRightChild)
    ensures parentKind.OtherNode? ==> !r
    ensures parentKind.InnerJoin? || parentKind.Construction? || parentKind.TrueNode? ==> r
  {
    match parentKind
    case InnerJoin => true
    case Construction(_) => true
    case TrueNode => true
    case LeftJoin => isRightChild
    case OtherNode(_) => false
  }

  datatype TrueNodeRemovalProposal = TrueNodeRemovalProposal(node: NodeId)

  /** The tree of an intermediate query: the kind of every node, the parent
      of every node but the root, the argument position of every child of a
      left join, and the root. */
  datatype QueryTree = QueryTree(
    kind: map<NodeId, NodeKind>,
    parent: map<NodeId, NodeId>,
    position: map<NodeId, ArgumentPosition>,
    root: NodeId)

  /** The children of `p`. */
  function Children(q: QueryTree, p: NodeId): set<NodeId> {
    set c | c in q.parent && q.parent[c] == p
  }

  /** The children of `p` in argument position `pos`. */
  function ChildrenAt(q: QueryTree, p: NodeId, pos: ArgumentPosition): set<NodeId>
    requires q.position.Keys <= q.parent.Keys
  {
    set c | c in q.position && q.parent[c] == p && q.position[c] == pos
  }

  /** `rank` grows from every parent to its children, so following parents
      always ends at the root. */
  ghost predicate RankedBy(q: QueryTree, rank: map<NodeId, nat>) {
    forall c {:trigger q.parent[c]} :: c in q.parent ==>
      c in rank && q.parent[c] in rank && rank[q.parent[c]] < rank[c]
  }

  /** The nodes form a tree: every node but the root has a parent in the
      tree, the parent links have no cycle, and exactly the children of left
      joins have an argument position. */
  ghost predicate Linked(q: QueryTree) {
    && q.root in q.kind
    && q.parent.Keys == q.kind.Keys - {q.root}
    && q.position.Keys <= q.parent.Keys
    // triggered on the lookup only: `c in q.parent` alone would walk up the
    // ancestors of `c` without end
    && (forall c {:trigger q.parent[c]} :: c in q.parent ==>
          q.parent[c] in q.kind && (c in q.position <==> q.kind[q.parent[c]].LeftJoin?))
    && (exists rank :: RankedBy(q, rank))
  }

  /** TrueNodes are leaves, a left join has one left and one right argument,
      an inner join at least two children. */
  ghost predicate Shaped(q: QueryTree)
    requires Linked(q)
  {
    && (forall c {:trigger q.parent[c]} :: c in q.parent ==> !q.kind[q.parent[c]].TrueNode?)
    && (forall p :: p in q.kind && q.kind[p].LeftJoin? ==>
          |ChildrenAt(q, p, Left)| == 1 && |ChildrenAt(q, p, Right)| == 1)
    && (forall p :: p in q.kind && q.kind[p].InnerJoin? ==> |Children(q, p)| >= 2)
  }

  ghost predicate WellFormed(q: QueryTree) {
    Linked(q) && Shaped(q)
  }

  /** The TrueNodes of the query. */
  function TrueNodes(q: QueryTree): set<NodeId> {
    set n | n in q.kind && q.kind[n] == TrueNode
  }

  /** `n` is the right argument of its parent. */
  predicate IsRightChild(q: QueryTree, n: NodeId) {
    n in q.position && q.position[n] == Right
  }

  predicate IsRemovableTrueNode(q: QueryTree, n: NodeId)
    requires Linked(q)
  {
    n in q.parent && RemovalRule(q.kind[q.parent[n]], IsRightChild(q, n))
  }

  /** Only a removable TrueNode yields a proposal: one with a parent that is
      an inner join, a construction node (with or without projected
      variables), a TrueNode, or a left join of which it is the right
      argument. The root and the left argument of a left join never do. */
  function EvaluateNode(q: QueryTree, n: NodeId): (r: Option<TrueNodeRemovalProposal>)
    requires WellFormed(q) && n in q.kind
    ensures r.Some? <==> q.kind[n] == TrueNode && n in q.parent &&
                         (q.kind[q.parent[n]].InnerJoin? || q.kind[q.parent[n]].Construction? ||
                          q.kind[q.parent[n]].TrueNode? ||
                          (q.kind[q.parent[n]].LeftJoin? && q.position[n] == Right))
    ensures r.Some? ==> r.value.node == n
    ensures n == q.root ==> r.None?
    ensures n in q.position && q.position[n] == Left ==> r.None?
  {
    if q.kind[n] == TrueNode && IsRemovableTrueNode(q, n) then Some(TrueNodeRemovalProposal(n)) else None
  }

  /** No TrueNode of the query is removable. */
  ghost predicate Settled(q: QueryTree)
    requires Linked(q)
  {
    forall n :: n in TrueNodes(q) ==> !IsRemovableTrueNode(q, n)
  }

  /** The only element of a singleton. */
  function TheElement(s: set<NodeId>): (x: NodeId)
    requires |s| == 1
    ensures s == {x}
  {
    var x :| x in s;
    assert s == {x} by {
      assert |s - {x}| == 0;
    }
    x
  }

  /** `n` leaves the tree; its parent stays. */
  function DropLeaf(q: QueryTree, n: NodeId): QueryTree {
    QueryTree(q.kind - {n}, q.parent - {n}, q.position - {n}, q.root)
  }

  /** `n` leaves the tree with its parent `p`, and `n2`, the other child of
      `p`, takes the place of `p`: it becomes the root when `p` is the root,
      and otherwise takes the parent and the argument position of `p`. */
  function ReplaceParent(q: QueryTree, n: NodeId, p: NodeId, n2: NodeId): QueryTree
    requires p in q.parent || p == q.root
  {
    if p == q.root then
      QueryTree(q.kind - {n, p}, q.parent - {n, n2}, q.position - {n, n2}, n2)
    else
      QueryTree(q.kind - {n, p}, (q.parent - {n, p})[n2 := q.parent[p]],
                (q.position - {n, p, n2}) + (if p in q.position then map[n2 := q.position[p]] else map[]),
                q.root)
  }

  /** The tree after removing the removable TrueNode `n`: a join left with a
      single child is replaced by that child. */
  function RemoveTrueNode(q: QueryTree, n: NodeId): (r: QueryTree)
    requires Linked(q) && n in q.parent
    ensures n !in r.kind && r.kind.Keys <= q.kind.Keys
  {
    var p := q.parent[n];
    var remaining := Children(q, p) - {n};
    if IsJoin(q.kind[p]) && |remaining| == 1 then ReplaceParent(q, n, p, TheElement(remaining))
    else DropLeaf(q, n)
  }

  /** A left join's children are its left and its right argument. */
  lemma LeftJoinChildren(q: QueryTree, p: NodeId)
    requires WellFormed(q) && p in q.kind && q.kind[p].LeftJoin?
    ensures Children(q, p) == ChildrenAt(q, p, Left) + ChildrenAt(q, p, Right)
    ensures |Children(q, p)| == 2
  {
    assert ChildrenAt(q, p, Left) !! ChildrenAt(q, p, Right);
  }

  /** The parent of a removable TrueNode `n` is a join, a construction node
      or a TrueNode, and a left join parent has exactly one other child. */
  lemma RemovedParent(q: QueryTree, n: NodeId)
    requires WellFormed(q) && n in TrueNodes(q) && IsRemovableTrueNode(q, n)
    ensures var p := q.parent[n];
            && p in q.kind && p != n && n in Children(q, p)
            && (IsJoin(q.kind[p]) || q.kind[p].Construction? || q.kind[p].TrueNode?)
            && (q.kind[p].LeftJoin? ==> IsRightChild(q, n) && |Children(q, p) - {n}| == 1)
  {
    var p: NodeId := q.parent[n];
    if q.kind[p].LeftJoin? {
      LeftJoinChildren(q, p);
    }
  }

  /** Removal keeps the kind of every remaining node and removes `n` and
      possibly its parent join: exactly one TrueNode goes. */
  lemma RemoveTrueNodeKinds(q: QueryTree, n: NodeId)
    requires WellFormed(q) && n in TrueNodes(q) && IsRemovableTrueNode(q, n)
    ensures var r := RemoveTrueNode(q, n);
            && r.kind.Keys <= q.kind.Keys - {n}
            && (forall m :: m in r.kind ==> r.kind[m] == q.kind[m])
            && (forall m :: m in q.kind && m != n && !IsJoin(q.kind[m]) ==> m in r.kind)
            && TrueNodes(r) == TrueNodes(q) - {n}
            && |r.kind| < |q.kind|
  {
    RemovedParent(q, n);
    var r := RemoveTrueNode(q, n);
    assert |r.kind.Keys| <= |q.kind.Keys - {n}| < |q.kind.Keys|;
  }

  /** Removal keeps the tree well formed. */
  lemma RemoveTrueNodeWellFormed(q: QueryTree, n: NodeId)
    requires WellFormed(q) && n in TrueNodes(q) && IsRemovableTrueNode(q, n)
    ensures WellFormed(RemoveTrueNode(q, n))
  {
    RemovedParent(q, n);
    var p := q.parent[n];
    var remaining := Children(q, p) - {n};
    if IsJoin(q.kind[p]) && |remaining| == 1 {
      var n2 := TheElement(remaining);
      assert Children(q, p) == remaining + {n};
      if p == q.root {
        RootReplacedLinked(q, n, n2);
        RootReplacedShaped(q, n, n2);
      } else {
        InnerReplacedLinked(q, n, n2);
        InnerReplacedShaped(q, n, n2);
      }
    } else {
      DropLeafLinked(q, n);
      DropLeafShaped(q, n);
    }
  }

  lemma DropLeafLinked(q: QueryTree, n: NodeId)
    requires WellFormed(q) && n in TrueNodes(q) && n in q.parent
    ensures Linked(DropLeaf(q, n))
  {
    var r := DropLeaf(q, n);
    var rank :| RankedBy(q, rank);
    assert RankedBy(r, rank);
  }

  lemma DropLeafShaped(q: QueryTree, n: NodeId)
    requires WellFormed(q) && n in TrueNodes(q) && IsRemovableTrueNode(q, n)
    requires !(IsJoin(q.kind[q.parent[n]]) && |Children(q, q.parent[n]) - {n}| == 1)
    requires Linked(DropLeaf(q, n))
    ensures Shaped(DropLeaf(q, n))
  {
    RemovedParent(q, n);
    var p := q.parent[n];
    var r := DropLeaf(q, n);
    forall p' | p' in r.kind && r.kind[p'].LeftJoin?
      ensures |ChildrenAt(r, p', Left)| == 1 && |ChildrenAt(r, p', Right)| == 1
    {
      assert p' != p;
      assert ChildrenAt(r, p', Left) == ChildrenAt(q, p', Left);
      assert ChildrenAt(r, p', Right) == ChildrenAt(q, p', Right);
    }
    forall p' | p' in r.kind && r.kind[p'].InnerJoin?
      ensures |Children(r, p')| >= 2
    {
      assert Children(r, p') == Children(q, p') - {n};
    }
  }

  lemma RootReplacedLinked(q: QueryTree, n: NodeId, n2: NodeId)
    requires WellFormed(q) && n in TrueNodes(q) && n in q.parent && q.parent[n] == q.root
    requires Children(q, q.root) == {n, n2} && n != n2
    ensures Linked(ReplaceParent(q, n, q.root, n2))
  {
    var r := ReplaceParent(q, n, q.root, n2);
    assert n2 in Children(q, q.root);
    var rank :| RankedBy(q, rank);
    assert RankedBy(r, rank);
  }

  lemma RootReplacedShaped(q: QueryTree, n: NodeId, n2: NodeId)
    requires WellFormed(q) && n in TrueNodes(q) && n in q.parent && q.parent[n] == q.root
    requires Children(q, q.root) == {n, n2} && n != n2
    requires Linked(ReplaceParent(q, n, q.root, n2))
    ensures Shaped(ReplaceParent(q, n, q.root, n2))
  {
    var r := ReplaceParent(q, n, q.root, n2);
    forall p' | p' in r.kind
      ensures Children(r, p') == Children(q, p')
      ensures forall pos :: ChildrenAt(r, p', pos) == ChildrenAt(q, p', pos)
    {
    }
  }

  lemma InnerReplacedLinked(q: QueryTree, n: NodeId, n2: NodeId)
    requires WellFormed(q) && n in TrueNodes(q) && n in q.parent && q.parent[n] != q.root
    requires Children(q, q.parent[n]) == {n, n2} && n != n2
    ensures Linked(ReplaceParent(q, n, q.parent[n], n2))
  {
    var p: NodeId := q.parent[n];
    var gp: NodeId := q.parent[p];
    var r := ReplaceParent(q, n, p, n2);
    assert n2 in Children(q, p);
    var rank :| RankedBy(q, rank);
    assert gp != p && gp != n && n2 != p;
    assert RankedBy(r, rank);
    forall c | c in r.parent
      ensures r.parent[c] in r.kind && (c in r.position <==> r.kind[r.parent[c]].LeftJoin?)
    {
      if c != n2 {
        assert c !in Children(q, p);
      }
    }
  }

  lemma InnerReplacedShaped(q: QueryTree, n: NodeId, n2: NodeId)
    requires WellFormed(q) && n in TrueNodes(q) && n in q.parent && q.parent[n] != q.root
    requires Children(q, q.parent[n]) == {n, n2} && n != n2
    requires Linked(ReplaceParent(q, n, q.parent[n], n2))
    ensures Shaped(ReplaceParent(q, n, q.parent[n], n2))
  {
    var p: NodeId := q.parent[n];
    var gp: NodeId := q.parent[p];
    var r := ReplaceParent(q, n, p, n2);
    assert n2 in Children(q, p) && p in Children(q, gp);
    forall p' | p' in r.kind && r.kind[p'].LeftJoin?
      ensures |ChildrenAt(r, p', Left)| == 1 && |ChildrenAt(r, p', Right)| == 1
    {
      SameChildrenAt(q, n, n2, p', Left);
      SameChildrenAt(q, n, n2, p', Right);
    }
    forall p' | p' in r.kind && r.kind[p'].InnerJoin?
      ensures |Children(r, p')| >= 2
    {
      SameChildren(q, n, n2, p');
    }
  }

  lemma SameChildren(q: QueryTree, n: NodeId, n2: NodeId, p': NodeId)
    requires Linked(q) && n in q.parent && q.parent[n] != q.root
    requires Children(q, q.parent[n]) == {n, n2} && n != n2 && p' != q.parent[n]
    ensures |Children(ReplaceParent(q, n, q.parent[n], n2), p')| == |Children(q, p')|
  {
    var p: NodeId := q.parent[n];
    var gp: NodeId := q.parent[p];
    var before := Children(q, p');
    var after := Children(ReplaceParent(q, n, p, n2), p');
    assert n2 in Children(q, p) && p in Children(q, gp);
    forall c | c in before && c != p ensures c in after {
      assert c !in Children(q, p);
    }
    if p' == gp {
      assert after == before - {p} + {n2};
    } else {
      assert after == before;
    }
  }

  /** Under the replacement, the grandparent swaps `p` for `n2` in the same
      argument position, and every other node keeps its children. */
  lemma SameChildrenAt(q: QueryTree, n: NodeId, n2: NodeId, p': NodeId, pos: ArgumentPosition)
    requires Linked(q) && n in q.parent && q.parent[n] != q.root && n !in Children(q, n)
    requires Children(q, q.parent[n]) == {n, n2} && n != n2
    requires Linked(ReplaceParent(q, n, q.parent[n], n2)) && p' in q.kind && p' != q.parent[n] && p' != n
    ensures |ChildrenAt(ReplaceParent(q, n, q.parent[n], n2), p', pos)| == |ChildrenAt(q, p', pos)|
  {
    var p: NodeId := q.parent[n];
    var before := ChildrenAt(q, p', pos);
    var after := ChildrenAt(ReplaceParent(q, n, p, n2), p', pos);
    var moved := p' == q.parent[p] && p in q.position && q.position[p] == pos;
    ChildrenAtAfter(q, n, n2, p', pos);
    ChildrenAtBefore(q, n, n2, p', pos);
    if moved {
      assert p in before && n2 !in before;
      assert after == before - {p} + {n2};
    } else {
      assert p !in before;
      assert after == before;
    }
  }

  lemma ChildrenAtAfter(q: QueryTree, n: NodeId, n2: NodeId, p': NodeId, pos: ArgumentPosition)
    requires Linked(q) && n in q.parent && q.parent[n] != q.root
    requires Children(q, q.parent[n]) == {n, n2} && n != n2
    requires Linked(ReplaceParent(q, n, q.parent[n], n2))
    ensures var p := q.parent[n];
            forall c :: c in ChildrenAt(ReplaceParent(q, n, p, n2), p', pos) ==>
              if c == n2 then p' == q.parent[p] && p in q.position && q.position[p] == pos
              else c in ChildrenAt(q, p', pos)
  {
  }

  lemma ChildrenAtBefore(q: QueryTree, n: NodeId, n2: NodeId, p': NodeId, pos: ArgumentPosition)
    requires Linked(q) && n in q.parent && q.parent[n] != q.root && p' != q.parent[n]
    requires Children(q, q.parent[n]) == {n, n2} && n != n2
    requires Linked(ReplaceParent(q, n, q.parent[n], n2))
    ensures var p := q.parent[n];
            && (forall c :: c in ChildrenAt(q, p', pos) && c != p ==> c in ChildrenAt(ReplaceParent(q, n, p, n2), p', pos))
            && (p' == q.parent[p] && p in q.position && q.position[p] == pos ==>
                  n2 in ChildrenAt(ReplaceParent(q, n, p, n2), p', pos))
  {
    var p: NodeId := q.parent[n];
    forall c | c in ChildrenAt(q, p', pos) && c != p
      ensures c in ChildrenAt(ReplaceParent(q, n, p, n2), p', pos)
    {
      assert c !in Children(q, p);
    }
  }

  /** What removal does under a join parent `p`: with one other child `n2`
      left, `p` goes and `n2` takes its place; with more, only `n` leaves
      the children of `p`. */
  lemma RemovalUnderJoin(q: QueryTree, n: NodeId, n2: NodeId)
    requires WellFormed(q) && n in TrueNodes(q) && IsRemovableTrueNode(q, n) && IsJoin(q.kind[q.parent[n]])
    requires n2 in Children(q, q.parent[n]) && n2 != n
    ensures var p := q.parent[n];
            var r := RemoveTrueNode(q, n);
            && n !in r.kind
            && (|Children(q, p)| == 2 ==>
                  && p !in r.kind && n2 in r.kind && r.kind[n2] == q.kind[n2]
                  && (p == q.root ==> r.root == n2 && n2 !in r.parent)
                  && (p != q.root ==> r.root == q.root && n2 in r.parent && r.parent[n2] == q.parent[p] &&
                                      (p in q.position ==> n2 in r.position && r.position[n2] == q.position[p])))
            && (|Children(q, p)| > 2 ==>
                  p in r.kind && r.root == q.root && Children(r, p) == Children(q, p) - {n})
  {
    RemovedParent(q, n);
    var p := q.parent[n];
    var r := RemoveTrueNode(q, n);
    if |Children(q, p)| == 2 {
      assert Children(q, p) - {n} == {n2} by {
        assert n2 in Children(q, p) - {n};
      }
      assert TheElement(Children(q, p) - {n}) == n2;
      assert n2 != p;
    } else if |Children(q, p)| > 2 {
      assert r == DropLeaf(q, n);
    }
  }

  /** An intermediate query, edited in place by the proposals applied to it. */
  class IntermediateQuery {
    var kind: map<NodeId, NodeKind>
    var parent: map<NodeId, NodeId>
    var position: map<NodeId, ArgumentPosition>
    var root: NodeId

    function Tree(): QueryTree
      reads this
    {
      QueryTree(kind, parent, position, root)
    }

    ghost predicate Valid()
      reads this
    {
      WellFormed(Tree())
    }

    constructor (q: QueryTree)
      requires WellFormed(q)
      ensures Valid() && Tree() == q
    {
      kind, parent, position, root := q.kind, q.parent, q.position, q.root;
    }

    /** Removes the proposed TrueNode, replacing its parent join by the other
        child when only that one is left. */
    method ApplyProposal(proposal: TrueNodeRemovalProposal)
      requires Valid() && proposal.node in TrueNodes(Tree()) && IsRemovableTrueNode(Tree(), proposal.node)
      modifies this
      ensures Valid()
      ensures Tree() == RemoveTrueNode(old(Tree()), proposal.node)
      ensures kind.Keys <= old(kind).Keys - {proposal.node}
      ensures forall m :: m in kind ==> kind[m] == old(kind)[m]
      ensures forall m :: m in old(kind) && m != proposal.node && !IsJoin(old(kind)[m]) ==> m in kind
      ensures TrueNodes(Tree()) == old(TrueNodes(Tree())) - {proposal.node}
    {
      var n := proposal.node;
      ghost var q := Tree();
      RemoveTrueNodeWellFormed(q, n);
      RemoveTrueNodeKinds(q, n);
      var p := parent[n];
      var remaining := Children(Tree(), p) - {n};
      if IsJoin(kind[p]) && |remaining| == 1 {
        var n2 := TheElement(remaining);
        if p == root {
          kind, parent, position, root := kind - {n, p}, parent - {n, n2}, position - {n, n2}, n2;
        } else {
          var gp := parent[p];
          var moved: map<NodeId, ArgumentPosition> := if p in position then map[n2 := position[p]] else map[];
          kind, parent, position := kind - {n, p}, (parent - {n, p})[n2 := gp], (position - {n, p, n2}) + moved;
        }
      } else {
        kind, parent, position := kind - {n}, parent - {n}, position - {n};
      }
    }
  }

  /** Applies removal proposals, pass after pass over the TrueNodes of the
      query, until a pass applies none. On return no TrueNode is removable,
      and the number of passes is at most one more than the number of
      TrueNodes the query started with. */
  method OptimizeQuery(query: IntermediateQuery) returns (ghost passes: nat)
    requires query.Valid()
    modifies query
    ensures query.Valid() && Settled(query.Tree())
    ensures TrueNodes(query.Tree()) <= old(TrueNodes(query.Tree()))
    ensures forall m :: m in query.kind ==> m in old(query.kind) && query.kind[m] == old(query.kind)[m]
    ensures forall m :: m in old(query.kind) && !IsJoin(old(query.kind)[m]) && old(query.kind)[m] != TrueNode ==>
              m in query.kind
    ensures passes <= |old(TrueNodes(query.Tree()))| + 1
  {
    ghost var t0 := TrueNodes(query.Tree());
    ghost var k0 := query.kind;
    passes := 0;
    var iterate := true;
    while iterate
      invariant query.Valid()
      invariant TrueNodes(query.Tree()) <= t0
      invariant forall m :: m in query.kind ==> m in k0 && query.kind[m] == k0[m]
      invariant forall m :: m in k0 && !IsJoin(k0[m]) && k0[m] != TrueNode ==> m in query.kind
      invariant passes + |TrueNodes(query.Tree())| + (if iterate then 1 else 0) <= |t0| + 1
      invariant !iterate ==> Settled(query.Tree())
      decreases |TrueNodes(query.Tree())| + (if iterate then 1 else 0)
    {
      var trueNodes := TrueNodes(query.Tree());
      ghost var before := query.Tree();
      iterate := false;
      var pending := trueNodes;
      while pending != {}
        invariant query.Valid()
        invariant pending <= TrueNodes(query.Tree()) <= trueNodes
        invariant forall m :: m in query.kind ==> m in k0 && query.kind[m] == k0[m]
        invariant forall m :: m in k0 && !IsJoin(k0[m]) && k0[m] != TrueNode ==> m in query.kind
        invariant !iterate ==> query.Tree() == before
        invariant !iterate ==> forall m :: m in trueNodes - pending ==> !IsRemovableTrueNode(before, m)
        invariant iterate ==> |TrueNodes(query.Tree())| < |trueNodes|
        decreases pending
      {
        var trueNode :| trueNode in pending;
        pending := pending - {trueNode};
        var proposal := EvaluateNode(query.Tree(), trueNode);
        if proposal.Some? {
          query.ApplyProposal(proposal.value);
          iterate := true;
        }
      }
      passes := passes + 1;
    }
  }
}
