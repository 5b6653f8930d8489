/** The typed view of one XGBoost tree: the `SplitType` enumeration, the
    `Node` record, the `Tree` with its per-node accessors and predicates, and
    `to_integers`, which turns a JSON integer list or a UBJSON byte string into
    a list of integers. */
module Trees {
  import opened Wrappers

  /** A floating-point payload (split condition, base weight, loss change,
      sum of hessians). The parser copies these values and never computes on
      them, so any carrier type will do. */
  type Float = real

  newtype byte = x: int | 0 <= x < 256

  /** A per-node integer column as the document stores it: a JSON list of
      integers, or a UBJSON byte string whose elements are uint8. */
  datatype IntColumn = IntList(values: seq<int>) | ByteString(bytes: seq<byte>)
  {
    function Length(): nat {
      match this
      case IntList(v) => |v|
      case ByteString(b) => |b|
    }
  }

  /** `to_integers`: the i-th result is the i-th element of the column, read
      as an integer; a byte string yields values in 0..255. */
  function ToIntegers(data: IntColumn): (r: seq<int>)
    ensures |r| == data.Length()
    ensures data.IntList? ==> forall i :: 0 <= i < |r| ==> r[i] == data.values[i]
    ensures data.ByteString? ==> forall i :: 0 <= i < |r| ==> r[i] == data.bytes[i] as int
    ensures data.ByteString? ==> forall i :: 0 <= i < |r| ==> 0 <= r[i] < 256
  {
    match data
    case IntList(v) => v
    case ByteString(b) => seq(|b|, i requires 0 <= i < |b| => b[i] as int)
  }

  /** `SplitType`, an integer enumeration: numerical = 0, categorical = 1. */
  datatype SplitType = Numerical | Categorical

  function SplitTypeValue(s: SplitType): int {
    match s
    case Numerical => 0
    case Categorical => 1
  }

  /** `SplitType(v)`: succeeds exactly for the two enumeration values and
      returns the member whose value is `v`; any other value is a ValueError. */
  function ToSplitType(v: int): (r: Option<SplitType>)
    ensures r.Some? <==> v == 0 || v == 1
    ensures r.Some? ==> SplitTypeValue(r.value) == v
  {
    if v == 0 then Some(Numerical)
    else if v == 1 then Some(Categorical)
    else None
  }

  /** Converting a member to its value and back gives the member again. */
  lemma SplitTypeRoundTrip(s: SplitType)
    ensures ToSplitType(SplitTypeValue(s)) == Some(s)
  {
  }

  datatype Node = Node(
    left: int,
    right: int,
    parent: int,
    splitIdx: int,
    splitCond: Float,
    defaultLeft: bool,
    splitType: SplitType,
    categories: seq<int>,
    baseWeight: Float,
    lossChg: Float,
    sumHess: Float)

  datatype Tree = Tree(treeId: int, nodes: seq<Node>)

  /** The largest uint32, the split index that marks a deleted node. */
  const UInt32Max: int := 0xFFFF_FFFF

  /** Node ids the subscript `nodes[node_id]` accepts; anything else raises
      IndexError. Python counts negative ids from the end. */
  predicate ValidId(t: Tree, nid: int) {
    -|t.nodes| <= nid < |t.nodes|
  }

  /** The position in `nodes` that a valid node id reads. */
  function Index(t: Tree, nid: int): (k: nat)
    requires ValidId(t, nid)
    ensures k < |t.nodes|
    ensures 0 <= nid ==> k == nid
    ensures nid < 0 ==> k == |t.nodes| + nid
  {
    if nid < 0 then |t.nodes| + nid else nid
  }

  function At(t: Tree, nid: int): Node
    requires ValidId(t, nid)
  {
    t.nodes[Index(t, nid)]
  }

  function LossChange(t: Tree, nid: int): Float
    requires ValidId(t, nid)
  {
    At(t, nid).lossChg
  }

  function SumHessian(t: Tree, nid: int): Float
    requires ValidId(t, nid)
  {
    At(t, nid).sumHess
  }

  function BaseWeight(t: Tree, nid: int): Float
    requires ValidId(t, nid)
  {
    At(t, nid).baseWeight
  }

  function SplitIndex(t: Tree, nid: int): int
    requires ValidId(t, nid)
  {
    At(t, nid).splitIdx
  }

  function SplitCondition(t: Tree, nid: int): Float
    requires ValidId(t, nid)
  {
    At(t, nid).splitCond
  }

  function SplitCategories(t: Tree, nid: int): seq<int>
    requires ValidId(t, nid)
  {
    At(t, nid).categories
  }

  function Parent(t: Tree, nid: int): int
    requires ValidId(t, nid)
  {
    At(t, nid).parent
  }

  function LeftChild(t: Tree, nid: int): int
    requires ValidId(t, nid)
  {
    At(t, nid).left
  }

  function RightChild(t: Tree, nid: int): int
    requires ValidId(t, nid)
  {
    At(t, nid).right
  }

  /** A split on a categorical feature. */
  predicate IsCategorical(t: Tree, nid: int)
    requires ValidId(t, nid)
  {
    At(t, nid).splitType == Categorical
  }

  /** `is_numerical` is the negation of `is_categorical`; since a split type
      has exactly two members it also means the split type is numerical. */
  predicate IsNumerical(t: Tree, nid: int)
    requires ValidId(t, nid)
    ensures IsNumerical(t, nid) <==> At(t, nid).splitType == Numerical
  {
    !IsCategorical(t, nid)
  }

  /** A leaf has no left child: its left id is -1. */
  predicate IsLeaf(t: Tree, nid: int)
    requires ValidId(t, nid)
  {
    At(t, nid).left == -1
  }

  /** A deleted node carries the largest uint32, 2^32 - 1, as split index. */
  predicate IsDeleted(t: Tree, nid: int)
    requires ValidId(t, nid)
  {
    SplitIndex(t, nid) == UInt32Max
  }

  /** A node whose children the walk expands: neither a leaf nor deleted. */
  predicate IsBranch(t: Tree, nid: int)
    requires ValidId(t, nid)
  {
    !IsLeaf(t, nid) && !IsDeleted(t, nid)
  }
}
