/** `Model.__init__`: turns the document of a boosted tree model (already
    parsed from JSON or UBJSON) into typed trees. For each tree it checks the
    tree id, rebuilds each node's category list from the CSR-style storage
    (`categories_nodes`, `categories_segments`, `categories_sizes` over the
    flat `categories`), and zips the per-node columns into `Node` records. */
module ModelLoader {
  import opened Wrappers
  import opened Trees

  /** One entry of the document's `trees` list. */
  datatype TreeDoc = TreeDoc(
    id: int,
    leftChildren: seq<int>,
    rightChildren: seq<int>,
    parents: seq<int>,
    splitConditions: seq<Float>,
    splitIndices: seq<int>,
    defaultLeft: IntColumn,
    splitType: IntColumn,
    categoriesSegments: seq<int>,
    categoriesSizes: seq<int>,
    categoriesNodes: seq<int>,
    categories: seq<int>,
    baseWeights: seq<Float>,
    lossChanges: seq<Float>,
    sumHessian: seq<Float>)

  /** The parts of the learner document the parser reads. */
  datatype ModelDoc = ModelDoc(
    numClass: int,
    numFeature: int,
    baseScore: Float,
    treeInfo: seq<int>,
    numTrees: int,
    trees: seq<TreeDoc>)

  datatype Model = Model(
    numOutputGroup: int,
    numFeature: int,
    baseScore: Float,
    treeInfo: seq<int>,
    numTrees: int,
    trees: seq<Tree>)

  /** The per-node columns read after `left_children`, in the order the node
      record reads them (`split_type` is checked separately). */
  datatype Column =
    | RightChildren | Parents | SplitIndices | SplitConditions | DefaultLeft
    | BaseWeights | LossChanges | SumHessian

  datatype LoadError =
    | MissingTree(index: int)                  // IndexError on the trees list
    | TreeIdMismatch(treeId: int, index: int)  // tree id differs from its position
    | CategoryArraysLengthMismatch             // CSR arrays of different lengths
    | SplitTypeLengthMismatch                  // split_type and left_children differ in length
    | DuplicateCategories(nid: int)            // a node's category list repeats a value
    | EmptyCategories(nid: int)                // a listed categorical node has no categories
    | MissingColumnEntry(column: Column, nid: int)  // IndexError reading a column
    | InvalidSplitType(nid: int, value: int)   // ValueError from SplitType(value)

  // Python's slicing and set size

  /** Where a slice bound lands in a sequence of length `n`: negative bounds
      count from the end, and bounds are clamped to `0..n`. */
  function SliceBound(i: int, n: nat): (b: nat)
    ensures b <= n
  {
    if i < 0 then (if i + n < 0 then 0 else i + n)
    else if i > n then n
    else i
  }

  /** A slice bound as Python reads it before any clamping: a negative bound
      counts from the end. */
  function FromEnd(i: int, n: nat): int {
    if i < 0 then i + n else i
  }

  /** Index `k` of a sequence of length `n` is selected by the slice
      `[lo:hi]`. */
  predicate InSlice(k: int, lo: int, hi: int, n: nat) {
    FromEnd(lo, n) <= k < FromEnd(hi, n)
  }

  /** `r` is the run of `s` starting at index `b`, and it covers exactly the
      indices of `s` that the slice `[lo:hi]` selects. */
  predicate SelectedRun(s: seq<int>, lo: int, hi: int, b: int, r: seq<int>) {
    && 0 <= b && b + |r| <= |s| && r == s[b..b + |r|]
    && forall k :: 0 <= k < |s| ==> (b <= k < b + |r| <==> InSlice(k, lo, hi, |s|))
  }

  /** `s[lo:hi]`: the elements of `s` at the indices the slice selects, in
      order. */
  function PySlice(s: seq<int>, lo: int, hi: int): (r: seq<int>)
    ensures exists b :: SelectedRun(s, lo, hi, b, r)
    ensures 0 <= lo <= hi <= |s| ==> r == s[lo..hi]
    ensures 0 <= hi <= lo ==> r == []
    ensures |r| <= |s|
  {
    var a, b := SliceBound(lo, |s|), SliceBound(hi, |s|);
    var v := if a < b then s[a..b] else [];
    assert SelectedRun(s, lo, hi, a, v);
    v
  }

  /** The selected run is determined by the slice, so `PySlice` is the only
      result its contract admits. */
  lemma SelectedRunUnique(s: seq<int>, lo: int, hi: int, b1: int, r1: seq<int>, b2: int, r2: seq<int>)
    requires SelectedRun(s, lo, hi, b1, r1) && SelectedRun(s, lo, hi, b2, r2)
    ensures r1 == r2
  {
    if r1 != [] {
      assert InSlice(b1, lo, hi, |s|) && InSlice(b1 + |r1| - 1, lo, hi, |s|);
    }
    if r2 != [] {
      assert InSlice(b2, lo, hi, |s|) && InSlice(b2 + |r2| - 1, lo, hi, |s|);
    }
  }

  /** A slice whose bounds lie inside the sequence has `hi - lo` elements. */
  lemma PySliceInBounds(s: seq<int>, lo: int, size: int)
    requires 0 <= lo && 0 <= size && lo + size <= |s|
    ensures |PySlice(s, lo, lo + size)| == size
    ensures PySlice(s, lo, lo + size) == s[lo..lo + size]
  {
  }

  function ToSet(s: seq<int>): set<int> {
    set x | x in s
  }

  predicate NoDuplicates(s: seq<int>) {
    forall i, j :: 0 <= i < j < |s| ==> s[i] != s[j]
  }

  /** `len(set(s)) == len(s)` holds exactly when no value occurs twice. */
  lemma {:induction false} SetSizeNoDuplicates(s: seq<int>)
    ensures |ToSet(s)| <= |s|
    ensures |ToSet(s)| == |s| <==> NoDuplicates(s)
  {
    if s != [] {
      var s', x := s[..|s| - 1], s[|s| - 1];
      assert s == s' + [x];
      assert ToSet(s) == ToSet(s') + {x};
      SetSizeNoDuplicates(s');
      if x in s' {
        assert ToSet(s) == ToSet(s');
        var i :| 0 <= i < |s'| && s'[i] == x;
        assert s[i] == s[|s| - 1];
      } else {
        assert x !in ToSet(s');
        assert NoDuplicates(s) <==> NoDuplicates(s');
      }
    }
  }

  // The CSR category storage

  /** The assertion that `categories_segments`, `categories_sizes` and
      `categories_nodes` have one entry each per listed categorical node. */
  predicate CsrLengthsAgree(doc: TreeDoc) {
    |doc.categoriesSegments| == |doc.categoriesSizes| == |doc.categoriesNodes|
  }

  /** `cats[beg:beg + size]` for the k-th listed categorical node. */
  function CategorySlice(doc: TreeDoc, k: nat): seq<int>
    requires CsrLengthsAgree(doc) && k < |doc.categoriesNodes|
  {
    var beg := doc.categoriesSegments[k];
    PySlice(doc.categories, beg, beg + doc.categoriesSizes[k])
  }

  /** The assertions on the k-th slice: first no repeated value, then not
      empty. */
  function SegmentError(doc: TreeDoc, k: nat): (e: Option<LoadError>)
    requires CsrLengthsAgree(doc) && k < |doc.categoriesNodes|
    ensures e.None? <==> CategorySlice(doc, k) != [] && NoDuplicates(CategorySlice(doc, k))
  {
    var c := CategorySlice(doc, k);
    SetSizeNoDuplicates(c);
    if |ToSet(c)| != |c| then Some(DuplicateCategories(doc.categoriesNodes[k]))
    else if c == [] then Some(EmptyCategories(doc.categoriesNodes[k]))
    else None
  }

  /** How many entries of `nodes`, from position `k` on, the node loop
      reaches: an entry is reached when it is at least `lo` (one past the
      previous reached entry) and below `n`. The count is the longest run
      that is strictly increasing and inside the bounds. */
  function Tracked(nodes: seq<int>, n: int, k: nat, lo: int): (m: nat)
    requires k <= |nodes|
    ensures k + m <= |nodes|
    ensures forall j :: k <= j < k + m ==> lo <= nodes[j] < n
    ensures forall i, j :: k <= i < j < k + m ==> nodes[i] < nodes[j]
    ensures k + m < |nodes| ==>
              !((if m == 0 then lo else nodes[k + m - 1] + 1) <= nodes[k + m] < n)
    decreases |nodes| - k
  {
    if k < |nodes| && lo <= nodes[k] < n then 1 + Tracked(nodes, n, k + 1, nodes[k] + 1)
    else 0
  }

  /** The number of listed categorical nodes the node loop consumes. */
  function TrackedCount(doc: TreeDoc): nat {
    Tracked(doc.categoriesNodes, |doc.leftChildren|, 0, 0)
  }

  /** The loop consumes every listed node exactly when `categories_nodes` is
      strictly increasing and holds node ids only. */
  lemma AllListedNodesTracked(doc: TreeDoc)
    ensures var nodes, n := doc.categoriesNodes, |doc.leftChildren|;
            TrackedCount(doc) == |nodes| <==>
            (forall j :: 0 <= j < |nodes| ==> 0 <= nodes[j] < n) &&
            (forall i, j :: 0 <= i < j < |nodes| ==> nodes[i] < nodes[j])
  {
  }

  /** The first consumed listed node, from position `k` on, whose slice fails
      an assertion, or `m` if there is none. */
  function FirstBadSegment(doc: TreeDoc, m: nat, k: nat): (b: nat)
    requires CsrLengthsAgree(doc) && k <= m <= |doc.categoriesNodes|
    ensures k <= b <= m
    ensures forall j :: k <= j < b ==> SegmentError(doc, j).None?
    ensures b < m ==> SegmentError(doc, b).Some?
    decreases m - k
  {
    if k == m then m
    else if SegmentError(doc, k).Some? then k
    else FirstBadSegment(doc, m, k + 1)
  }

  /** The error the category loop stops with, if any. */
  function CategoryError(doc: TreeDoc): Option<LoadError>
    requires CsrLengthsAgree(doc)
  {
    var m := TrackedCount(doc);
    var b := FirstBadSegment(doc, m, 0);
    if b < m then SegmentError(doc, b) else None
  }

  /** What the category loop produces: one list per node; the k-th consumed
      listed node gets its slice; every other node gets the empty list. */
  ghost predicate CategoriesDecoded(doc: TreeDoc, cats: seq<seq<int>>)
    requires CsrLengthsAgree(doc)
  {
    var nodes, m := doc.categoriesNodes, TrackedCount(doc);
    && |cats| == |doc.leftChildren|
    && (forall k :: 0 <= k < m ==> cats[nodes[k]] == CategorySlice(doc, k))
    && (forall j :: 0 <= j < |cats| && j !in nodes[..m] ==> cats[j] == [])
  }

  /** The id of the categorical node the loop waits for once the cursor is
      at `catCnt`, or -1 when the listed nodes are used up. */
  function NextCatNode(doc: TreeDoc, catCnt: nat): int
    requires catCnt <= |doc.categoriesNodes|
  {
    if catCnt < |doc.categoriesNodes| then doc.categoriesNodes[catCnt] else -1
  }

  /** The state of the category loop before node `nodeId`: the cursor has
      consumed exactly the listed nodes below `nodeId`, their slices passed
      the assertions, and `acc` holds the lists of nodes `0 .. nodeId - 1`. */
  ghost predicate DecodingState(doc: TreeDoc, nodeId: int, catCnt: nat, acc: seq<seq<int>>)
    requires CsrLengthsAgree(doc)
  {
    var catNodes, n, m := doc.categoriesNodes, |doc.leftChildren|, TrackedCount(doc);
    && 0 <= nodeId <= n
    && catCnt <= m
    && (forall k :: 0 <= k < catCnt ==> catNodes[k] < nodeId)
    && (catCnt < m ==> nodeId <= catNodes[catCnt])
    && (catCnt == m < |catNodes| ==> catNodes[m] < nodeId || n <= catNodes[m])
    && (forall k :: 0 <= k < catCnt ==> SegmentError(doc, k).None?)
    && |acc| == nodeId
    && (forall k :: 0 <= k < catCnt ==> acc[catNodes[k]] == CategorySlice(doc, k))
    && (forall j :: 0 <= j < nodeId && j !in catNodes[..m] ==> acc[j] == [])
  }

  /** The category loop of `Model.__init__`: a cursor into the CSR arrays
      and the id of the next categorical node to wait for. */
  method DecodeCategories(doc: TreeDoc) returns (r: Result<seq<seq<int>>, LoadError>)
    requires CsrLengthsAgree(doc)
    ensures r.Err? <==> CategoryError(doc).Some?
    ensures r.Err? ==> r.error == CategoryError(doc).value
    ensures r.Ok? ==> CategoriesDecoded(doc, r.value)
  {
    var n := |doc.leftChildren|;
    var catNodes := doc.categoriesNodes;
    var catCnt: nat := 0;
    var lastCatNode := if |catNodes| > 0 then catNodes[catCnt] else -1;
    var nodeCategories: seq<seq<int>> := [];
    var nodeId := 0;
    while nodeId < n
      invariant catCnt <= |catNodes| && lastCatNode == NextCatNode(doc, catCnt)
      invariant DecodingState(doc, nodeId, catCnt, nodeCategories)
    {
      if nodeId == lastCatNode {
        var beg := doc.categoriesSegments[catCnt];
        var size := doc.categoriesSizes[catCnt];
        var end := beg + size;
        var nodeCats := PySlice(doc.categories, beg, end);
        DecodingStepListed(doc, nodeId, catCnt, nodeCategories);
        ghost var k := catCnt;
        assert nodeCats == CategorySlice(doc, k);
        if |ToSet(nodeCats)| != |nodeCats| {
          CategoryErrorAt(doc, k);
          return Err(DuplicateCategories(nodeId));
        }
        catCnt := catCnt + 1;
        if catCnt == |catNodes| {
          lastCatNode := -1;
        } else {
          lastCatNode := catNodes[catCnt];
        }
        if nodeCats == [] {
          CategoryErrorAt(doc, k);
          return Err(EmptyCategories(nodeId));
        }
        assert SegmentError(doc, k).None?;
        nodeCategories := nodeCategories + [nodeCats];
      } else {
        DecodingStepUnlisted(doc, nodeId, catCnt, nodeCategories);
        nodeCategories := nodeCategories + [[]];
      }
      nodeId := nodeId + 1;
    }
    DecodingDone(doc, catCnt, nodeCategories);
    return Ok(nodeCategories);
  }

  /** At a node the cursor waits for, that node is the next reachable listed
      node, and its slice passes exactly when it is duplicate-free and
      non-empty; if it does, the loop state moves on by one node and one
      listed entry. */
  lemma DecodingStepListed(doc: TreeDoc, nodeId: int, catCnt: nat, acc: seq<seq<int>>)
    requires CsrLengthsAgree(doc) && DecodingState(doc, nodeId, catCnt, acc)
    requires nodeId < |doc.leftChildren| && catCnt <= |doc.categoriesNodes|
    requires nodeId == NextCatNode(doc, catCnt)
    ensures catCnt < TrackedCount(doc) && nodeId == doc.categoriesNodes[catCnt]
    ensures SegmentError(doc, catCnt).None? <==>
              |ToSet(CategorySlice(doc, catCnt))| == |CategorySlice(doc, catCnt)| &&
              CategorySlice(doc, catCnt) != []
    ensures forall k :: 0 <= k < catCnt ==> SegmentError(doc, k).None?
    ensures SegmentError(doc, catCnt).None? ==>
              DecodingState(doc, nodeId + 1, catCnt + 1, acc + [CategorySlice(doc, catCnt)])
  {
    var catNodes, m := doc.categoriesNodes, TrackedCount(doc);
    var acc' := acc + [CategorySlice(doc, catCnt)];
    forall j | 0 <= j < nodeId + 1 && j !in catNodes[..m]
      ensures acc'[j] == []
    {
      assert j != nodeId by {
        assert catNodes[catCnt] in catNodes[..m];
      }
    }
  }

  /** Any other node gets the empty list and the cursor stays put. */
  lemma DecodingStepUnlisted(doc: TreeDoc, nodeId: int, catCnt: nat, acc: seq<seq<int>>)
    requires CsrLengthsAgree(doc) && DecodingState(doc, nodeId, catCnt, acc)
    requires nodeId < |doc.leftChildren| && catCnt <= |doc.categoriesNodes|
    requires nodeId != NextCatNode(doc, catCnt)
    ensures DecodingState(doc, nodeId + 1, catCnt, acc + [[]])
  {
  }

  /** After the last node the cursor has consumed exactly the reachable
      listed nodes, no slice failed, and the lists are the decoded ones. */
  lemma DecodingDone(doc: TreeDoc, catCnt: nat, acc: seq<seq<int>>)
    requires CsrLengthsAgree(doc) && DecodingState(doc, |doc.leftChildren|, catCnt, acc)
    ensures catCnt == TrackedCount(doc)
    ensures CategoryError(doc).None?
    ensures CategoriesDecoded(doc, acc)
  {
    var b := FirstBadSegment(doc, TrackedCount(doc), 0);
  }

  /** The error of the first consumed listed node whose slice fails is the
      error the category loop stops with. */
  lemma CategoryErrorAt(doc: TreeDoc, c: nat)
    requires CsrLengthsAgree(doc) && c < TrackedCount(doc)
    requires forall k :: 0 <= k < c ==> SegmentError(doc, k).None?
    requires SegmentError(doc, c).Some?
    ensures CategoryError(doc) == SegmentError(doc, c)
  {
    var b := FirstBadSegment(doc, TrackedCount(doc), 0);
    assert b == c;
  }

  /** The decoded lists are determined by the document: two results of the
      category loop agree. */
  lemma {:induction false} CategoriesDecodedUnique(doc: TreeDoc, a: seq<seq<int>>, b: seq<seq<int>>)
    requires CsrLengthsAgree(doc)
    requires CategoriesDecoded(doc, a) && CategoriesDecoded(doc, b)
    ensures a == b
  {
    var nodes, m := doc.categoriesNodes, TrackedCount(doc);
    forall j | 0 <= j < |a|
      ensures a[j] == b[j]
    {
      if j in nodes[..m] {
        var k :| 0 <= k < m && nodes[k] == j;
        assert a[nodes[k]] == CategorySlice(doc, k) == b[nodes[k]];
      }
    }
  }

  /** Every category list that decoding accepts for a consumed listed node
      is a non-empty list with no repeated value. */
  lemma ListedCategoriesAreSets(doc: TreeDoc, cats: seq<seq<int>>)
    requires CsrLengthsAgree(doc) && CategoryError(doc).None?
    requires CategoriesDecoded(doc, cats)
    ensures forall k :: 0 <= k < TrackedCount(doc) ==>
              var c := cats[doc.categoriesNodes[k]];
              c != [] && NoDuplicates(c) && |ToSet(c)| == |c|
  {
    var m := TrackedCount(doc);
    forall k | 0 <= k < m
      ensures var c := cats[doc.categoriesNodes[k]]; c != [] && NoDuplicates(c) && |ToSet(c)| == |c|
    {
      assert SegmentError(doc, k).None?;
      SetSizeNoDuplicates(cats[doc.categoriesNodes[k]]);
    }
  }

  /** When `categories_nodes` is strictly increasing and holds node ids only,
      a node gets a non-empty category list exactly when it is listed. */
  lemma ListedNodesCarryCategories(doc: TreeDoc, cats: seq<seq<int>>)
    requires CsrLengthsAgree(doc) && CategoryError(doc).None?
    requires CategoriesDecoded(doc, cats)
    requires forall j :: 0 <= j < |doc.categoriesNodes| ==> 0 <= doc.categoriesNodes[j] < |doc.leftChildren|
    requires forall i, j :: 0 <= i < j < |doc.categoriesNodes| ==> doc.categoriesNodes[i] < doc.categoriesNodes[j]
    ensures forall j :: 0 <= j < |cats| ==> (cats[j] != [] <==> j in doc.categoriesNodes)
  {
    var nodes := doc.categoriesNodes;
    AllListedNodesTracked(doc);
    assert nodes[..TrackedCount(doc)] == nodes;
    ListedCategoriesAreSets(doc, cats);
    forall j | 0 <= j < |cats| && j in nodes
      ensures cats[j] != []
    {
      var k :| 0 <= k < |nodes| && nodes[k] == j;
    }
  }

  // Node assembly

  /** The first failure reading node `j`'s entries, in the order the node
      record reads them. */
  function ColumnError(doc: TreeDoc, j: nat): Option<LoadError>
    requires j < |doc.leftChildren| && doc.splitType.Length() == |doc.leftChildren|
  {
    var splitTypes := ToIntegers(doc.splitType);
    if |doc.rightChildren| <= j then Some(MissingColumnEntry(RightChildren, j))
    else if |doc.parents| <= j then Some(MissingColumnEntry(Parents, j))
    else if |doc.splitIndices| <= j then Some(MissingColumnEntry(SplitIndices, j))
    else if |doc.splitConditions| <= j then Some(MissingColumnEntry(SplitConditions, j))
    else if doc.defaultLeft.Length() <= j then Some(MissingColumnEntry(DefaultLeft, j))
    else if ToSplitType(splitTypes[j]).None? then Some(InvalidSplitType(j, splitTypes[j]))
    else if |doc.baseWeights| <= j then Some(MissingColumnEntry(BaseWeights, j))
    else if |doc.lossChanges| <= j then Some(MissingColumnEntry(LossChanges, j))
    else if |doc.sumHessian| <= j then Some(MissingColumnEntry(SumHessian, j))
    else None
  }

  /** Node `j` holds entry `j` of every column, its category list is
      `cats[j]`, `default_left` is true exactly when that entry is 1, and its
      split type is the member whose value is the `split_type` entry. */
  ghost predicate NodeFromColumns(doc: TreeDoc, cats: seq<seq<int>>, j: nat, node: Node)
    requires j < |doc.leftChildren| && |cats| == |doc.leftChildren|
    requires doc.splitType.Length() == |doc.leftChildren|
  {
    && j < |doc.rightChildren| && j < |doc.parents| && j < |doc.splitIndices|
    && j < |doc.splitConditions| && j < doc.defaultLeft.Length()
    && j < |doc.baseWeights| && j < |doc.lossChanges| && j < |doc.sumHessian|
    && node.left == doc.leftChildren[j]
    && node.right == doc.rightChildren[j]
    && node.parent == doc.parents[j]
    && node.splitIdx == doc.splitIndices[j]
    && node.splitCond == doc.splitConditions[j]
    && (node.defaultLeft <==> ToIntegers(doc.defaultLeft)[j] == 1)
    && SplitTypeValue(node.splitType) == ToIntegers(doc.splitType)[j]
    && node.categories == cats[j]
    && node.baseWeight == doc.baseWeights[j]
    && node.lossChg == doc.lossChanges[j]
    && node.sumHess == doc.sumHessian[j]
  }

  function MakeNode(doc: TreeDoc, cats: seq<seq<int>>, j: nat): (node: Node)
    requires j < |doc.leftChildren| && |cats| == |doc.leftChildren|
    requires doc.splitType.Length() == |doc.leftChildren|
    requires ColumnError(doc, j).None?
    ensures NodeFromColumns(doc, cats, j, node)
  {
    Node(
      doc.leftChildren[j],
      doc.rightChildren[j],
      doc.parents[j],
      doc.splitIndices[j],
      doc.splitConditions[j],
      ToIntegers(doc.defaultLeft)[j] == 1,
      ToSplitType(ToIntegers(doc.splitType)[j]).value,
      cats[j],
      doc.baseWeights[j],
      doc.lossChanges[j],
      doc.sumHessian[j])
  }

  /** The first node, from `j` on, that cannot be assembled, with its error. */
  function FirstColumnError(doc: TreeDoc, j: nat): (e: Option<LoadError>)
    requires doc.splitType.Length() == |doc.leftChildren|
    ensures e.None? <==> forall i :: j <= i < |doc.leftChildren| ==> ColumnError(doc, i).None?
    ensures e.Some? ==> exists i :: j <= i < |doc.leftChildren| && e == ColumnError(doc, i) &&
                          forall i' :: j <= i' < i ==> ColumnError(doc, i').None?
    decreases |doc.leftChildren| - j
  {
    if |doc.leftChildren| <= j then None
    else if ColumnError(doc, j).Some? then ColumnError(doc, j)
    else FirstColumnError(doc, j + 1)
  }

  /** The list comprehension that builds the node records: one node per
      entry of `left_children`, or the first error a column raises. */
  function AssembleNodes(doc: TreeDoc, cats: seq<seq<int>>): (r: Result<seq<Node>, LoadError>)
    requires |cats| == |doc.leftChildren| && doc.splitType.Length() == |doc.leftChildren|
    ensures r.Ok? <==> forall j :: 0 <= j < |doc.leftChildren| ==> ColumnError(doc, j).None?
    ensures r.Ok? ==> |r.value| == |doc.leftChildren| &&
                      forall j :: 0 <= j < |r.value| ==> NodeFromColumns(doc, cats, j, r.value[j])
    ensures r.Err? ==> r.error == FirstColumnError(doc, 0).value
  {
    match FirstColumnError(doc, 0)
    case Some(e) => Err(e)
    case None =>
      Ok(seq(|doc.leftChildren|, j requires 0 <= j < |doc.leftChildren| => MakeNode(doc, cats, j)))
  }

  // One tree

  /** The first error loading the tree document found at position `i`, in
      the order the checks run. */
  function TreeError(doc: TreeDoc, i: int): Option<LoadError> {
    if doc.id != i then Some(TreeIdMismatch(doc.id, i))
    else if !CsrLengthsAgree(doc) then Some(CategoryArraysLengthMismatch)
    else if doc.splitType.Length() != |doc.leftChildren| then Some(SplitTypeLengthMismatch)
    else if CategoryError(doc).Some? then CategoryError(doc)
    else FirstColumnError(doc, 0)
  }

  function NodeCategories(t: Tree): (cats: seq<seq<int>>)
    ensures |cats| == |t.nodes|
    ensures forall j :: 0 <= j < |t.nodes| ==> cats[j] == t.nodes[j].categories
  {
    seq(|t.nodes|, j requires 0 <= j < |t.nodes| => t.nodes[j].categories)
  }

  /** `t` is the tree that loading the document at position `i` yields: no
      check fails, its id is `i`, it has one node per entry of
      `left_children`, the category lists are the decoded ones and every node
      is read from the columns. */
  ghost predicate TreeLoaded(doc: TreeDoc, i: int, t: Tree) {
    && TreeError(doc, i).None?
    && CsrLengthsAgree(doc)
    && doc.splitType.Length() == |doc.leftChildren|
    && t.treeId == i
    && |t.nodes| == |doc.leftChildren|
    && CategoriesDecoded(doc, NodeCategories(t))
    && forall j :: 0 <= j < |t.nodes| ==> NodeFromColumns(doc, NodeCategories(t), j, t.nodes[j])
  }

  /** The body of the per-tree loop of `Model.__init__`. */
  method LoadTree(doc: TreeDoc, i: int) returns (r: Result<Tree, LoadError>)
    ensures r.Err? <==> TreeError(doc, i).Some?
    ensures r.Err? ==> r.error == TreeError(doc, i).value
    ensures r.Ok? ==> TreeLoaded(doc, i, r.value)
  {
    var treeId := doc.id;
    if treeId != i {
      return Err(TreeIdMismatch(treeId, i));
    }
    var splitTypes := ToIntegers(doc.splitType);
    if !CsrLengthsAgree(doc) {
      return Err(CategoryArraysLengthMismatch);
    }
    if |doc.leftChildren| != |splitTypes| {
      return Err(SplitTypeLengthMismatch);
    }
    var decoded := DecodeCategories(doc);
    if decoded.Err? {
      return Err(decoded.error);
    }
    var nodeCategories := decoded.value;
    var nodes := AssembleNodes(doc, nodeCategories);
    if nodes.Err? {
      return Err(nodes.error);
    }
    var tree := Tree(treeId, nodes.value);
    assert NodeCategories(tree) == nodeCategories;
    return Ok(tree);
  }

  /** Loading is deterministic: a tree document yields at most one tree. */
  lemma TreeLoadedUnique(doc: TreeDoc, i: int, t1: Tree, t2: Tree)
    requires TreeLoaded(doc, i, t1) && TreeLoaded(doc, i, t2)
    ensures t1 == t2
  {
    CategoriesDecodedUnique(doc, NodeCategories(t1), NodeCategories(t2));
    forall j | 0 <= j < |t1.nodes|
      ensures t1.nodes[j] == t2.nodes[j]
    {
      var cats := NodeCategories(t1);
      assert NodeFromColumns(doc, cats, j, t1.nodes[j]);
      assert NodeFromColumns(doc, cats, j, t2.nodes[j]);
      SplitTypeValueInjective(t1.nodes[j].splitType, t2.nodes[j].splitType);
    }
  }

  lemma SplitTypeValueInjective(a: SplitType, b: SplitType)
    requires SplitTypeValue(a) == SplitTypeValue(b)
    ensures a == b
  {
  }

  /** The accessors of a loaded tree read back the document's columns at the
      position the node id designates, and the node predicates become
      conditions on those entries. */
  lemma LoadedTreeAccessors(doc: TreeDoc, i: int, t: Tree, nid: int)
    requires TreeLoaded(doc, i, t) && ValidId(t, nid)
    ensures var j := Index(t, nid);
      && LeftChild(t, nid) == doc.leftChildren[j]
      && RightChild(t, nid) == doc.rightChildren[j]
      && Parent(t, nid) == doc.parents[j]
      && SplitIndex(t, nid) == doc.splitIndices[j]
      && SplitCondition(t, nid) == doc.splitConditions[j]
      && BaseWeight(t, nid) == doc.baseWeights[j]
      && LossChange(t, nid) == doc.lossChanges[j]
      && Trees.SumHessian(t, nid) == doc.sumHessian[j]
      && (At(t, nid).defaultLeft <==> ToIntegers(doc.defaultLeft)[j] == 1)
      && (IsLeaf(t, nid) <==> doc.leftChildren[j] == -1)
      && (IsDeleted(t, nid) <==> doc.splitIndices[j] == UInt32Max)
      && (IsCategorical(t, nid) <==> ToIntegers(doc.splitType)[j] == 1)
      && (IsNumerical(t, nid) <==> ToIntegers(doc.splitType)[j] == 0)
  {
    var j := Index(t, nid);
    assert NodeFromColumns(doc, NodeCategories(t), j, t.nodes[j]);
  }

  // The whole model

  /** `range(num_trees)` is empty for a negative count. */
  function TreeCount(doc: ModelDoc): nat {
    if doc.numTrees < 0 then 0 else doc.numTrees
  }

  /** Entry `k` of the trees list exists and loads as tree `k`. */
  predicate TreeLoads(doc: ModelDoc, k: nat) {
    k < |doc.trees| && TreeError(doc.trees[k], k).None?
  }

  /** The first error loading trees `i`, `i + 1`, ... of the document. */
  function FirstTreeError(doc: ModelDoc, i: nat): (e: Option<LoadError>)
    ensures e.None? <==> forall k :: i <= k < TreeCount(doc) ==> TreeLoads(doc, k)
    decreases TreeCount(doc) - i
  {
    if TreeCount(doc) <= i then None
    else if |doc.trees| <= i then assert !TreeLoads(doc, i); Some(MissingTree(i))
    else if TreeError(doc.trees[i], i).Some? then assert !TreeLoads(doc, i); TreeError(doc.trees[i], i)
    else FirstTreeError(doc, i + 1)
  }

  /** `trees` are the first `|trees|` trees of the document, loaded. */
  ghost predicate TreesLoaded(doc: ModelDoc, trees: seq<Tree>) {
    forall i :: 0 <= i < |trees| ==> i < |doc.trees| && TreeLoaded(doc.trees[i], i, trees[i])
  }

  lemma TreesLoadedExtend(doc: ModelDoc, trees: seq<Tree>, t: Tree)
    requires TreesLoaded(doc, trees)
    requires |trees| < |doc.trees| && TreeLoaded(doc.trees[|trees|], |trees|, t)
    ensures TreesLoaded(doc, trees + [t])
  {
  }

  lemma FirstTreeErrorStep(doc: ModelDoc, i: nat)
    requires i < TreeCount(doc) && TreeLoads(doc, i)
    ensures FirstTreeError(doc, i) == FirstTreeError(doc, i + 1)
  {
  }

  /** `m` is the model loading the document yields: the shape parameters
      are copied and tree `i` is the tree loaded from document entry `i`. */
  ghost predicate ModelLoaded(doc: ModelDoc, m: Model) {
    && m.numOutputGroup == doc.numClass
    && m.numFeature == doc.numFeature
    && m.baseScore == doc.baseScore
    && m.treeInfo == doc.treeInfo
    && m.numTrees == doc.numTrees
    && |m.trees| == TreeCount(doc)
    && TreesLoaded(doc, m.trees)
  }

  /** `Model.__init__`: read the shape parameters, then load `num_trees`
      trees in order, stopping at the first error. */
  method LoadModel(doc: ModelDoc) returns (r: Result<Model, LoadError>)
    ensures r.Err? <==> FirstTreeError(doc, 0).Some?
    ensures r.Err? ==> r.error == FirstTreeError(doc, 0).value
    ensures r.Ok? ==> ModelLoaded(doc, r.value)
  {
    var trees: seq<Tree> := [];
    var i := 0;
    while i < doc.numTrees
      invariant 0 <= i <= TreeCount(doc)
      invariant |trees| == i
      invariant TreesLoaded(doc, trees)
      invariant FirstTreeError(doc, 0) == FirstTreeError(doc, i)
    {
      if |doc.trees| <= i {
        return Err(MissingTree(i));
      }
      var tree := LoadTree(doc.trees[i], i);
      if tree.Err? {
        return Err(tree.error);
      }
      TreesLoadedExtend(doc, trees, tree.value);
      FirstTreeErrorStep(doc, i);
      trees := trees + [tree.value];
      i := i + 1;
    }
    return Ok(Model(doc.numClass, doc.numFeature, doc.baseScore, doc.treeInfo, doc.numTrees, trees));
  }

  /** A loaded model comes from a document that raises nothing; it has
      `num_trees` trees (none for a negative count), and the tree at
      position `i` has id `i`. */
  lemma LoadedTreeIds(doc: ModelDoc, m: Model)
    requires ModelLoaded(doc, m)
    ensures FirstTreeError(doc, 0).None?
    ensures doc.numTrees >= 0 ==> |m.trees| == doc.numTrees
    ensures forall i :: 0 <= i < |m.trees| ==> m.trees[i].treeId == i
  {
  }
}
