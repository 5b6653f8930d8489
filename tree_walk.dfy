/** The depth-first walk that `Tree.__str__` performs with an explicit stack,
    reduced to the sequence of node ids it records. The walk is proved equal
    to a recursive preorder that emits the right subtree before the left one,
    and the preorder's properties are proved as lemmas. */
module TreeWalk {
  import opened Wrappers
  import opened Trees

  /** Why the walk stops early. */
  datatype WalkError =
    | NodeOutOfRange(nid: int)            // IndexError reading `nodes[nid]`
    | CategoricalSplitExpected(nid: int)  // a branch with categories is not categorical
    | NumericalSplitExpected(nid: int)    // a branch without categories is not numerical

  /** The node ids recorded, in order, or the reason the walk stopped. */
  type Visits = Result<seq<int>, WalkError>

  // The walk can loop forever on a cyclic tree. `rank` is a witness that it
  // does not: each child a branch node pushes has a smaller rank than the
  // branch.

  ghost predicate ChildRanked(t: Tree, rank: seq<nat>, nid: int, child: int)
    requires |rank| == |t.nodes| && ValidId(t, nid)
  {
    ValidId(t, child) ==> rank[Index(t, child)] < rank[Index(t, nid)]
  }

  ghost predicate Ranked(t: Tree, rank: seq<nat>) {
    && |rank| == |t.nodes|
    && forall nid :: ValidId(t, nid) && IsBranch(t, nid) ==>
         ChildRanked(t, rank, nid, LeftChild(t, nid)) &&
         ChildRanked(t, rank, nid, RightChild(t, nid))
  }

  /** The assertions `__str__` makes about a branch node: with categories it
      must be categorical, without them numerical. */
  function SplitCheck(t: Tree, nid: int): Option<WalkError>
    requires ValidId(t, nid)
  {
    if |SplitCategories(t, nid)| > 0 then
      if IsCategorical(t, nid) then None else Some(CategoricalSplitExpected(nid))
    else
      if IsNumerical(t, nid) then None else Some(NumericalSplitExpected(nid))
  }

  /** Sequencing of two partial walks: the first error wins. */
  function Then(a: Visits, b: Visits): Visits {
    match a
    case Err(e) => Err(e)
    case Ok(x) =>
      match b
      case Err(e) => Err(e)
      case Ok(y) => Ok(x + y)
  }

  function Prepend(p: seq<int>, a: Visits): Visits {
    match a
    case Err(e) => Err(e)
    case Ok(x) => Ok(p + x)
  }

  /** The reference definition: preorder from `nid`, a branch node followed
      by its right subtree and then its left subtree. */
  ghost function Preorder(t: Tree, rank: seq<nat>, nid: int): Visits
    requires Ranked(t, rank)
    decreases if ValidId(t, nid) then rank[Index(t, nid)] + 1 else 0
  {
    if !ValidId(t, nid) then Err(NodeOutOfRange(nid))
    else if !IsBranch(t, nid) then Ok([nid])
    else if SplitCheck(t, nid).Some? then Err(SplitCheck(t, nid).value)
    else
      Prepend([nid], Then(Preorder(t, rank, RightChild(t, nid)),
                          Preorder(t, rank, LeftChild(t, nid))))
  }

  /** What a stack still owes: the preorder of its top, then of the rest. */
  ghost function Pending(t: Tree, rank: seq<nat>, stack: seq<int>): Visits
    requires Ranked(t, rank)
    decreases |stack|
  {
    if stack == [] then Ok([])
    else Then(Preorder(t, rank, stack[|stack| - 1]), Pending(t, rank, stack[..|stack| - 1]))
  }

  /** `__str__`'s loop: pop a node id, record it, and push the left and then
      the right child of a node that is neither a leaf nor deleted. It
      records exactly the preorder from node 0. */
  method Walk(t: Tree, ghost rank: seq<nat>) returns (r: Visits)
    requires Ranked(t, rank)
    ensures r == Preorder(t, rank, 0)
  {
    var stack := [0];
    var order := [];
    WalkStart(t, rank);
    while stack != []
      invariant Preorder(t, rank, 0) == Prepend(order, Pending(t, rank, stack))
      decreases Weight(t, rank, stack)
    {
      var nid := stack[|stack| - 1];
      WalkStep(t, rank, order, stack);
      stack := stack[..|stack| - 1];
      if !ValidId(t, nid) {
        return Err(NodeOutOfRange(nid));
      }
      order := order + [nid];
      if !IsLeaf(t, nid) && !IsDeleted(t, nid) {
        var left := LeftChild(t, nid);
        var right := RightChild(t, nid);
        stack := stack + [left];
        stack := stack + [right];
        var categories := SplitCategories(t, nid);
        if |categories| > 0 {
          if !IsCategorical(t, nid) {
            return Err(CategoricalSplitExpected(nid));
          }
        } else {
          if !IsNumerical(t, nid) {
            return Err(NumericalSplitExpected(nid));
          }
        }
      }
    }
    assert order + [] == order;
    return Ok(order);
  }

  lemma WalkStart(t: Tree, rank: seq<nat>)
    requires Ranked(t, rank)
    ensures Preorder(t, rank, 0) == Prepend([], Pending(t, rank, [0]))
  {
    ThenOkEmpty(Preorder(t, rank, 0));
    assert [0][..0] == [];
    PrependEmpty(Preorder(t, rank, 0));
  }

  /** One iteration of the walk keeps the invariant, lowers the measure,
      or meets the error the preorder ends with. */
  lemma WalkStep(t: Tree, rank: seq<nat>, order: seq<int>, stack: seq<int>)
    requires Ranked(t, rank) && stack != []
    requires Preorder(t, rank, 0) == Prepend(order, Pending(t, rank, stack))
    ensures var nid, rest := stack[|stack| - 1], stack[..|stack| - 1];
      && (!ValidId(t, nid) ==> Preorder(t, rank, 0) == Err(NodeOutOfRange(nid)))
      && (ValidId(t, nid) && !IsBranch(t, nid) ==>
            Preorder(t, rank, 0) == Prepend(order + [nid], Pending(t, rank, rest)) &&
            Weight(t, rank, rest) < Weight(t, rank, stack))
      && (ValidId(t, nid) && IsBranch(t, nid) && SplitCheck(t, nid).Some? ==>
            Preorder(t, rank, 0) == Err(SplitCheck(t, nid).value))
      && (ValidId(t, nid) && IsBranch(t, nid) && SplitCheck(t, nid).None? ==>
            var next := rest + [LeftChild(t, nid)] + [RightChild(t, nid)];
            Preorder(t, rank, 0) == Prepend(order + [nid], Pending(t, rank, next)) &&
            Weight(t, rank, next) < Weight(t, rank, stack))
  {
    var nid, rest := stack[|stack| - 1], stack[..|stack| - 1];
    if ValidId(t, nid) {
      var tail := Pending(t, rank, rest);
      if !IsBranch(t, nid) {
        assert [nid] + [] == [nid];
        ThenPrepend([nid], Ok([]), tail);
        ThenOkEmptyLeft(tail);
      } else if SplitCheck(t, nid).None? {
        var left, right := LeftChild(t, nid), RightChild(t, nid);
        var next := rest + [left] + [right];
        assert next[..|next| - 1] == rest + [left];
        assert next[..|next| - 1][..|next| - 2] == rest;
        ChildrenWeighLess(t, rank, nid);
        var r, l := Preorder(t, rank, right), Preorder(t, rank, left);
        ThenPrepend([nid], Then(r, l), tail);
        ThenAssoc(r, l, tail);
        assert Pending(t, rank, next) == Then(r, Then(l, tail));
      }
      if IsBranch(t, nid) && SplitCheck(t, nid).None? {
        PrependPrepend(order, [nid], Pending(t, rank, rest + [LeftChild(t, nid)] + [RightChild(t, nid)]));
      } else {
        PrependPrepend(order, [nid], tail);
      }
    }
  }

  // Algebra of partial walks

  lemma ThenOkEmpty(a: Visits)
    ensures Then(a, Ok([])) == a
  {
    if a.Ok? {
      assert a.value + [] == a.value;
    }
  }

  lemma PrependEmpty(a: Visits)
    ensures Prepend([], a) == a
  {
    if a.Ok? {
      assert [] + a.value == a.value;
    }
  }

  lemma ThenOkEmptyLeft(a: Visits)
    ensures Then(Ok([]), a) == a
  {
    if a.Ok? {
      assert [] + a.value == a.value;
    }
  }

  lemma ThenPrepend(p: seq<int>, a: Visits, b: Visits)
    ensures Then(Prepend(p, a), b) == Prepend(p, Then(a, b))
  {
    if a.Ok? && b.Ok? {
      assert (p + a.value) + b.value == p + (a.value + b.value);
    }
  }

  lemma ThenAssoc(a: Visits, b: Visits, c: Visits)
    ensures Then(Then(a, b), c) == Then(a, Then(b, c))
  {
    if a.Ok? && b.Ok? && c.Ok? {
      assert (a.value + b.value) + c.value == a.value + (b.value + c.value);
    }
  }

  lemma PrependPrepend(o: seq<int>, p: seq<int>, a: Visits)
    ensures Prepend(o, Prepend(p, a)) == Prepend(o + p, a)
  {
    if a.Ok? {
      assert o + (p + a.value) == (o + p) + a.value;
    }
  }

  // Termination measure of the loop

  function Pow3(k: nat): (r: nat)
    ensures r >= 1
  {
    if k == 0 then 1 else 3 * Pow3(k - 1)
  }

  lemma {:induction false} Pow3Monotone(i: nat, j: nat)
    requires i <= j
    ensures Pow3(i) <= Pow3(j)
  {
    if i < j {
      Pow3Monotone(i, j - 1);
    }
  }

  ghost function NodeWeight(t: Tree, rank: seq<nat>, nid: int): nat
    requires |rank| == |t.nodes|
  {
    if ValidId(t, nid) then Pow3(rank[Index(t, nid)]) else 0
  }

  ghost function Weight(t: Tree, rank: seq<nat>, stack: seq<int>): nat
    requires |rank| == |t.nodes|
    decreases |stack|
  {
    if stack == [] then 0
    else NodeWeight(t, rank, stack[|stack| - 1]) + Weight(t, rank, stack[..|stack| - 1])
  }

  lemma ChildrenWeighLess(t: Tree, rank: seq<nat>, nid: int)
    requires Ranked(t, rank) && ValidId(t, nid) && IsBranch(t, nid)
    ensures NodeWeight(t, rank, LeftChild(t, nid)) + NodeWeight(t, rank, RightChild(t, nid))
            < NodeWeight(t, rank, nid)
  {
    var k := rank[Index(t, nid)];
    if k > 0 {
      var l, r := LeftChild(t, nid), RightChild(t, nid);
      if ValidId(t, l) {
        Pow3Monotone(rank[Index(t, l)], k - 1);
      }
      if ValidId(t, r) {
        Pow3Monotone(rank[Index(t, r)], k - 1);
      }
    }
  }

  // Properties of the preorder

  /** Counts the branch nodes (neither leaf nor deleted) among `ids`. */
  function CountBranches(t: Tree, ids: seq<int>): nat
    requires forall x :: x in ids ==> ValidId(t, x)
  {
    if ids == [] then 0
    else CountBranches(t, ids[..|ids| - 1]) + (if IsBranch(t, ids[|ids| - 1]) then 1 else 0)
  }

  lemma {:induction false} CountBranchesAppend(t: Tree, a: seq<int>, b: seq<int>)
    requires forall x :: x in a + b ==> ValidId(t, x)
    ensures CountBranches(t, a + b) == CountBranches(t, a) + CountBranches(t, b)
  {
    if b == [] {
      assert a + b == a;
    } else {
      assert (a + b)[..|a + b| - 1] == a + b[..|b| - 1];
      CountBranchesAppend(t, a, b[..|b| - 1]);
    }
  }

  /** A completed walk from `nid` starts with `nid`, records only ids that
      designate nodes, and every branch node it records passed the split
      assertions: it has categories exactly when its split is categorical. */
  lemma {:induction false} PreorderVisitsCheckedNodes(t: Tree, rank: seq<nat>, nid: int)
    requires Ranked(t, rank) && Preorder(t, rank, nid).Ok?
    ensures |Preorder(t, rank, nid).value| >= 1
    ensures Preorder(t, rank, nid).value[0] == nid
    ensures forall x :: x in Preorder(t, rank, nid).value ==> ValidId(t, x)
    ensures forall x :: x in Preorder(t, rank, nid).value && IsBranch(t, x) ==>
              (|SplitCategories(t, x)| > 0 <==> IsCategorical(t, x))
    decreases rank[Index(t, nid)]
  {
    if IsBranch(t, nid) {
      var l, r := LeftChild(t, nid), RightChild(t, nid);
      PreorderVisitsCheckedNodes(t, rank, r);
      PreorderVisitsCheckedNodes(t, rank, l);
    }
  }

  /** Each recorded branch node pushed two children and each child is
      recorded, so a completed walk records one more node than twice the
      number of branch nodes in it. */
  lemma {:induction false} PreorderSize(t: Tree, rank: seq<nat>, nid: int)
    requires Ranked(t, rank) && Preorder(t, rank, nid).Ok?
    ensures forall x :: x in Preorder(t, rank, nid).value ==> ValidId(t, x)
    ensures |Preorder(t, rank, nid).value| ==
            2 * CountBranches(t, Preorder(t, rank, nid).value) + 1
    decreases rank[Index(t, nid)]
  {
    PreorderVisitsCheckedNodes(t, rank, nid);
    if IsBranch(t, nid) {
      var l, r := LeftChild(t, nid), RightChild(t, nid);
      PreorderSize(t, rank, r);
      PreorderSize(t, rank, l);
      var R, L := Preorder(t, rank, r).value, Preorder(t, rank, l).value;
      assert Preorder(t, rank, nid).value == [nid] + R + L;
      CountBranchesAppend(t, [nid] + R, L);
      CountBranchesAppend(t, [nid], R);
      assert CountBranches(t, [nid]) == 1 by {
        assert [nid][..0] == [];
      }
    } else {
      assert Preorder(t, rank, nid).value == [nid];
      assert [nid][..0] == [];
    }
  }

  /** The walk pushes the left child before the right one, so the right
      subtree is recorded first, right after the branch node, and the left
      subtree fills the rest. */
  lemma RightSubtreeFirst(t: Tree, rank: seq<nat>, nid: int)
    requires Ranked(t, rank) && Preorder(t, rank, nid).Ok?
    requires ValidId(t, nid) && IsBranch(t, nid)
    ensures Preorder(t, rank, RightChild(t, nid)).Ok?
    ensures Preorder(t, rank, LeftChild(t, nid)).Ok?
    ensures var o, L := Preorder(t, rank, nid).value, Preorder(t, rank, LeftChild(t, nid)).value;
            |o| == 1 + |Preorder(t, rank, RightChild(t, nid)).value| + |L| &&
            o[1] == RightChild(t, nid) && o[|o| - |L|] == LeftChild(t, nid)
  {
    PreorderVisitsCheckedNodes(t, rank, RightChild(t, nid));
    PreorderVisitsCheckedNodes(t, rank, LeftChild(t, nid));
  }

  /** The walk expands branch nodes only: a leaf or a deleted node is
      recorded on its own and none of its children is visited, while a
      completed walk from a branch node records more than the node. */
  lemma ExpandsOnlyBranches(t: Tree, rank: seq<nat>, nid: int)
    requires Ranked(t, rank) && ValidId(t, nid)
    ensures Preorder(t, rank, nid) == Ok([nid]) <==> IsLeaf(t, nid) || IsDeleted(t, nid)
  {
    if IsBranch(t, nid) && Preorder(t, rank, nid).Ok? {
      RightSubtreeFirst(t, rank, nid);
      PreorderVisitsCheckedNodes(t, rank, RightChild(t, nid));
    }
  }
}
