# XGBoost JSON/UBJSON tree-model parser, modelled in Dafny

This project models the core of `demo/guide-python/model_parser.py`, the XGBoost
demo that reads a saved boosted-tree model. The model is a JSON or UBJSON
document that has already been loaded into a dictionary. The demo turns it
into typed `Tree` and `Node` objects and walks each tree depth-first.

Four modules, one per concern of the source file:

- `Wrappers` (`wrappers.dfy`): `Option` and `Result`. Each assertion,
  IndexError and ValueError that `Model.__init__` and the walk of
  `Tree.__str__` can raise becomes an explicit error value.
- `Trees` (`trees.dfy`) holds:
  - `to_integers`, which reads an integer column stored either as a JSON list
    or as a UBJSON byte string;
  - the `SplitType` enumeration;
  - the `Node` record and the `Tree`;
  - the per-node accessors and the predicates `is_leaf`, `is_deleted`,
    `is_categorical` and `is_numerical`.

  Node ids follow Python subscript rules: `-len <= id < len` is accepted, and a
  negative id counts from the end.
- `TreeWalk` (`tree_walk.dfy`): the stack-based walk of `Tree.__str__`,
  reduced to the sequence of node ids it records. The `Walk` method keeps the
  source's explicit stack and `while` loop. It is proved equal to `Preorder`,
  a recursive definition that records a node, then its right subtree, then its
  left subtree. The walk stops early on an out-of-range id, or when a branch
  node fails the split-type assertions.
- `ModelLoader` (`model_loader.dfy`): `Model.__init__`. For each tree it:
  - checks that the tree id equals its position;
  - checks the lengths of the CSR category arrays and of `split_type`;
  - runs the category loop (a cursor `catCnt` and the next awaited node
    `lastCatNode`);
  - zips the per-node columns into `Node` records.

  The category loop (`DecodeCategories`) and the per-tree loop (`LoadModel`)
  are methods with loops. Each is proved against a declarative statement of
  its result (`CategoriesDecoded`, `TreeLoaded`, `ModelLoaded`) and of its
  first error (`CategoryError`, `TreeError`, `FirstTreeError`).

Modelling choices:

- **Floats are carried, not computed.** The floating-point fields
  (`split_conditions`, `base_weights`, `loss_changes`, `sum_hessian`,
  `base_score`) are copied through without any arithmetic. They are carried
  as `Float`, an alias of `real`.
- **Python slicing.** `cats[beg:end]` follows Python's slice rules: a negative
  bound counts from the end, and bounds are clamped to the sequence. So a
  segment that runs past the end of `categories` yields a shorter list, as it
  does in the source.
- **The duplicate check.** It is modelled as written, `len(set(c)) == len(c)`.
  `SetSizeNoDuplicates` proves that this means no value occurs twice.
- **Which nodes get a category list.** The category loop gives the k-th
  listed node its slice only if the cursor reaches it. `Tracked` makes that
  exact: the cursor consumes the longest prefix of `categories_nodes` that is
  strictly increasing and lies in `0 .. len(left_children) - 1`. Every node it
  does not consume gets the empty list.

## Model

| member | source | states |
|---|---|---|
| `Trees.ToIntegers` | demo/guide-python/model_parser.py:26-28 | the result has the column's length and its i-th element is the i-th element of the list or byte string; bytes give values in 0..255 |
| `Trees.ToSplitType` | demo/guide-python/model_parser.py:31-34 | `SplitType(v)` succeeds exactly for v = 0 or 1 and yields the member whose value is v |
| `Trees.SplitTypeRoundTrip` | demo/guide-python/model_parser.py:31-34 | converting a member to its value and back yields the same member |
| `Trees.IsNumerical` | demo/guide-python/model_parser.py:85-90 | `is_numerical` is the negation of `is_categorical`, i.e. the split type is numerical |
| `TreeWalk.Walk` | demo/guide-python/model_parser.py:112-135 | the stack walk from node 0 records exactly the preorder (node, right subtree, left subtree), or stops with the preorder's first error |
| `TreeWalk.WalkStep` | demo/guide-python/model_parser.py:115-135 | one pop: an out-of-range id or a failed split assertion ends the walk with that error; otherwise the popped id is recorded, a branch node pushes left then right, and the termination measure drops |
| `TreeWalk.PreorderVisitsCheckedNodes` | demo/guide-python/model_parser.py:124-135 | a completed walk starts at its root and records only valid ids; every branch node recorded has categories exactly when its split is categorical |
| `TreeWalk.PreorderSize` | demo/guide-python/model_parser.py:124-128 | only branch nodes push children, two each, so a completed walk records 2 x (branch nodes recorded) + 1 ids |
| `TreeWalk.ExpandsOnlyBranches` | demo/guide-python/model_parser.py:104-128 | a node is recorded on its own, with none of its children visited, exactly when it is a leaf or deleted |
| `TreeWalk.RightSubtreeFirst` | demo/guide-python/model_parser.py:125-128 | left is pushed before right, so the right child follows its parent immediately and the left subtree closes the parent's part of the walk |
| `ModelLoader.PySlice` | demo/guide-python/model_parser.py:209-212 | `s[lo:hi]` is a contiguous run of `s` covering exactly the indices k with lo <= k < hi, a negative bound counting from the end; so it is `s[lo..hi]` when 0 <= lo <= hi <= len(s), and empty when 0 <= hi <= lo |
| `ModelLoader.SelectedRunUnique` | demo/guide-python/model_parser.py:209-212 | the run of selected indices determines the slice, so the contract of `PySlice` admits one result only |
| `ModelLoader.PySliceInBounds` | demo/guide-python/model_parser.py:209-212 | a segment inside `categories` yields exactly `size` categories |
| `ModelLoader.SetSizeNoDuplicates` | demo/guide-python/model_parser.py:213-214 | `len(set(c)) == len(c)` holds exactly when no category repeats in `c` |
| `ModelLoader.SegmentError` | demo/guide-python/model_parser.py:209-220 | the k-th listed node's slice passes both assertions exactly when it is non-empty and duplicate-free |
| `ModelLoader.Tracked` | demo/guide-python/model_parser.py:201-219 | the entries the cursor reaches form the longest run that is strictly increasing and within the node range, and the next entry cannot be reached |
| `ModelLoader.AllListedNodesTracked` | demo/guide-python/model_parser.py:201-219 | the cursor consumes every listed node exactly when `categories_nodes` is strictly increasing and holds node ids only |
| `ModelLoader.FirstBadSegment` | demo/guide-python/model_parser.py:207-221 | finds the first consumed listed node whose slice fails an assertion; all earlier ones pass |
| `ModelLoader.CategoryErrorAt` | demo/guide-python/model_parser.py:213-220 | when all earlier slices pass, the first failing slice's error is the error the category loop reports |
| `ModelLoader.DecodeCategories` | demo/guide-python/model_parser.py:201-224 | the category loop fails exactly with the first failing slice's error; otherwise it yields one list per node, the slice for each consumed listed node and the empty list for every other node |
| `ModelLoader.DecodingStepListed` | demo/guide-python/model_parser.py:208-221 | a node equal to `last_cat_node` is the next consumed listed node; when its slice passes, the cursor advances by one and the node gets its slice |
| `ModelLoader.DecodingStepUnlisted` | demo/guide-python/model_parser.py:222-224 | any other node gets the empty list and the cursor does not move |
| `ModelLoader.DecodingDone` | demo/guide-python/model_parser.py:206-224 | after the last node the cursor equals the number of consumed listed nodes, no slice failed and the lists are the decoded ones |
| `ModelLoader.CategoriesDecodedUnique` | demo/guide-python/model_parser.py:206-224 | the decoded category lists are determined by the document |
| `ModelLoader.ListedCategoriesAreSets` | demo/guide-python/model_parser.py:213-221 | every accepted category list of a consumed listed node is non-empty with no repeated value, and so has as many distinct values as elements |
| `ModelLoader.ListedNodesCarryCategories` | demo/guide-python/model_parser.py:201-224 | for strictly increasing in-range `categories_nodes`, a node gets a non-empty list exactly when it is listed; every other node gets an empty list |
| `ModelLoader.FirstColumnError` | demo/guide-python/model_parser.py:232-247 | finds the first node whose record cannot be built, with that node's first failing column; it finds none exactly when every node can be built |
| `ModelLoader.MakeNode` | demo/guide-python/model_parser.py:233-245 | node j holds entry j of every column and `cats[j]`; `default_left` is true exactly when its entry is 1; the split type's value is the `split_type` entry |
| `ModelLoader.AssembleNodes` | demo/guide-python/model_parser.py:231-247 | builds one node per entry of `left_children`, each read from the columns, exactly when every column entry exists and every split type is 0 or 1; otherwise fails with the first node's first error |
| `ModelLoader.LoadTree` | demo/guide-python/model_parser.py:173-250 | fails exactly with the first failing check, in source order: tree id, CSR lengths, `split_type` length, categories, columns. Otherwise it yields the tree with id i, one node per entry, the decoded category lists and nodes read from the columns |
| `ModelLoader.TreeLoadedUnique` | demo/guide-python/model_parser.py:173-250 | a tree document yields at most one tree |
| `ModelLoader.LoadedTreeAccessors` | demo/guide-python/model_parser.py:61-110 | on a loaded tree every accessor reads the document's column entry. `is_leaf` holds exactly when `left_children` is -1, `is_deleted` when `split_indices` is 2^32 - 1, `is_categorical` when `split_type` is 1, `is_numerical` when it is 0, and `default_left` when its entry is 1 |
| `ModelLoader.FirstTreeError` | demo/guide-python/model_parser.py:169-175 | finds no error exactly when each of the first `num_trees` entries exists and loads as the tree of its position |
| `ModelLoader.TreesLoadedExtend` | demo/guide-python/model_parser.py:171-250 | appending the tree loaded from the next entry keeps the loaded prefix correct |
| `ModelLoader.LoadModel` | demo/guide-python/model_parser.py:146-252 | fails exactly with the first error among the first `num_trees` trees (a missing entry or a failed tree); otherwise it copies the shape parameters and tree i is the tree loaded from entry i |
| `ModelLoader.LoadedTreeIds` | demo/guide-python/model_parser.py:169-175 | a loaded model comes from a document on which no tree fails; it has `num_trees` trees (none for a negative count) and tree i has id i |

## Left out

- The command-line entry point (argparse, file-extension dispatch, `open`, `json.load`, `ubjson.load`): input/output and foreign libraries. The model starts from the already-parsed document (`ModelDoc`, `TreeDoc`).
- Missing dictionary keys (KeyError) and the `int(...)`/`float(...)` coercion of string-valued learner parameters: the document is taken as already typed.
- `print_model` and the text that `__str__` builds (`"\n".join`, `str(dict)`, the gain/cover/weight/condition/categories entries of each record): the walk is modelled as the sequence of visited node ids and its errors.
- Floating-point semantics of split conditions, weights, gains, hessian sums and the base score: they are copied unchanged, so `Float` is `real`.
- `np.iinfo(np.uint32).max` is the constant 4294967295 (`Trees.UInt32Max`).
- TreeWalk.Walk: requires a `rank` witness that every branch node's in-range children rank below it. So every tree with a cycle among branch nodes is outside the model, reachable or not. That includes trees on which the source walk would still stop: with an IndexError at an out-of-range child, or with a failed split assertion. On such a cycle the source walk can run forever, unless a node it pops first raises.
- Trees.LossChange, Trees.SumHessian, Trees.BaseWeight, Trees.SplitIndex, Trees.SplitCondition, Trees.SplitCategories, Trees.Parent, Trees.LeftChild, Trees.RightChild, Trees.IsLeaf, Trees.IsDeleted, Trees.IsCategorical, Trees.IsNumerical: called outside the walk, they require a valid node id (`-len(nodes) <= id < len(nodes)`). They do not model the IndexError the source raises for any other id. Only the walk returns that error, as `NodeOutOfRange`.
- Python's dynamic typing of the document: columns hold integers (or bytes for `default_left`/`split_type`) and `Float` values. Ill-typed entries (strings, nested lists) are not modelled.
