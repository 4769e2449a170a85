/** Value model of the generic AVL tree of Tree.h.

    A subtree is either `Nil` (a null `node*`) or a `Node` carrying the cached
    height, the two children and the stored element.  The element type `T` is
    modelled as `int` with its own `<` and `==`.  Every function here is the
    specification of the heap-based method of the same name in `AvlHeap`. */
module Avl {

  datatype Option<T> = None | Some(value: T)

  datatype Tree = Nil | Node(height: nat, left: Tree, data: int, right: Tree)

  function Max(a: int, b: int): int { if a > b then a else b }

  // ---------------------------------------------------------------------------
  // What a tree holds
  // ---------------------------------------------------------------------------

  /** The elements of a subtree, with their multiplicities. */
  function Elems(t: Tree): multiset<int>
  {
    match t
    case Nil => multiset{}
    case Node(_, l, d, r) => Elems(l) + multiset{d} + Elems(r)
  }

  /** The number of nodes of a subtree. */
  function Size(t: Tree): nat
  {
    match t
    case Nil => 0
    case Node(_, l, _, r) => Size(l) + 1 + Size(r)
  }

  /** The length of the longest root-to-leaf path, counted in nodes: the value
      the cached `height` field is meant to hold. */
  function Depth(t: Tree): nat
  {
    match t
    case Nil => 0
    case Node(_, l, _, r) => 1 + Max(Depth(l), Depth(r))
  }

  // ---------------------------------------------------------------------------
  // The three invariants of an AVL tree
  // ---------------------------------------------------------------------------

  /** Search-tree ordering as insertion and the rotations keep it: nothing
      on the left is greater than the node's element and nothing on the right
      is smaller.  Insertion sends equal elements right, but a left rotation
      can then lift an equal element above its twin, so "left is strictly
      smaller" does not survive duplicates (see
      `AvlProperties.DuplicatesBreakStrictOrder`). */
  predicate Bst(t: Tree)
  {
    match t
    case Nil => true
    case Node(_, l, d, r) =>
      && Bst(l) && Bst(r)
      && (forall e | e in Elems(l) :: !(d < e))
      && (forall e | e in Elems(r) :: !(e < d))
  }

  /** Every cached height is one more than the larger cached child height. */
  predicate HeightsOk(t: Tree)
  {
    match t
    case Nil => true
    case Node(h, l, _, r) => HeightsOk(l) && HeightsOk(r) && h == 1 + Max(Height(l), Height(r))
  }

  /** Every node's balance factor is -1, 0 or 1. */
  predicate Balanced(t: Tree)
  {
    match t
    case Nil => true
    case Node(_, l, _, r) => Balanced(l) && Balanced(r) && -1 <= BalanceFactor(t) <= 1
  }

  predicate IsAvl(t: Tree)
  {
    Bst(t) && HeightsOk(t) && Balanced(t)
  }

  // ---------------------------------------------------------------------------
  // Height bookkeeping (Tree.h:387-406)
  // ---------------------------------------------------------------------------

  /** The cached height of a subtree; an absent subtree has height 0. */
  function Height(t: Tree): nat
  {
    if t.Nil? then 0 else t.height
  }

  /** Right height minus left height; defined for present nodes only. */
  function BalanceFactor(t: Tree): int
    requires t.Node?
  {
    Height(t.right) - Height(t.left)
  }

  /** Overwrites the node's cached height from its children's cached heights. */
  function FixHeight(t: Tree): (r: Tree)
    requires t.Node?
    ensures r.Node? && r.left == t.left && r.data == t.data && r.right == t.right
    ensures Height(r) == 1 + Max(Height(t.left), Height(t.right))
  {
    t.(height := 1 + Max(Height(t.left), Height(t.right)))
  }

  // ---------------------------------------------------------------------------
  // Rotations (Tree.h:360-383)
  // ---------------------------------------------------------------------------

  /** Promotes the left child `y`; `y`'s right subtree moves under the demoted
      node, whose height is fixed before `y`'s. */
  function RotateRight(t: Tree): (r: Tree)
    requires t.Node? && t.left.Node?
    ensures r.Node? && r.right.Node?
    ensures InOrder(r) == InOrder(t)
  {
    var y := t.left;
    var demoted := FixHeight(Node(t.height, y.right, t.data, t.right));
    FixHeight(Node(y.height, y.left, y.data, demoted))
  }

  /** Promotes the right child `x`; `x`'s left subtree moves under the demoted
      node, whose height is fixed before `x`'s. */
  function RotateLeft(t: Tree): (r: Tree)
    requires t.Node? && t.right.Node?
    ensures r.Node? && r.left.Node?
    ensures InOrder(r) == InOrder(t)
  {
    var x := t.right;
    var demoted := FixHeight(Node(t.height, t.left, t.data, x.left));
    FixHeight(Node(x.height, demoted, x.data, x.right))
  }

  // ---------------------------------------------------------------------------
  // Rebalancing and insertion (Tree.h:313-357)
  // ---------------------------------------------------------------------------

  /** Fixes the node's height, then repairs a balance factor of +2 or -2;
      any other balance factor leaves the node where it is. */
  function Balance(t: Tree): (r: Tree)
    requires t.Node?
    ensures r.Node?
    ensures InOrder(r) == InOrder(t)
  {
    var p := FixHeight(t);
    if BalanceFactor(p) == 2 then RepairRightHeavy(p)
    else if BalanceFactor(p) == -2 then RepairLeftHeavy(p)
    else p
  }

  /** The `+2` branch of `Balance` (Tree.h:342-347): a right rotation of the
      right child first when that child leans left (the right-left case),
      then a left rotation of the node. */
  function RepairRightHeavy(p: Tree): (r: Tree)
    requires p.Node? && p.right.Node?
    ensures r.Node?
    ensures InOrder(r) == InOrder(p)
  {
    var q := if BalanceFactor(p.right) < 0 then p.(right := RotateRight(p.right)) else p;
    RotateLeft(q)
  }

  /** The `-2` branch of `Balance` (Tree.h:349-354), the mirror image of
      `RepairRightHeavy`. */
  function RepairLeftHeavy(p: Tree): (r: Tree)
    requires p.Node? && p.left.Node?
    ensures r.Node?
    ensures InOrder(r) == InOrder(p)
  {
    var q := if BalanceFactor(p.left) > 0 then p.(left := RotateLeft(p.left)) else p;
    RotateRight(q)
  }

  /** Recursive insertion: a new leaf of height 1 where the `<`-directed walk
      falls off the tree (ties go right), then `Balance` on every node of the
      path, bottom-up.  The parent keeps its stale height until `Balance`
      fixes it. */
  function Insert(t: Tree, x: int): (r: Tree)
    ensures r.Node?
  {
    match t
    case Nil => Node(1, Nil, x, Nil)
    case Node(h, l, d, rt) =>
      if x < d then Balance(Node(h, Insert(l, x), d, rt))
      else Balance(Node(h, l, d, Insert(rt, x)))
  }

  /** The tree that a sequence of `Insert` calls builds from an empty tree. */
  function Build(xs: seq<int>): Tree
  {
    if xs == [] then Nil else Insert(Build(xs[..|xs| - 1]), xs[|xs| - 1])
  }

  // ---------------------------------------------------------------------------
  // Traversals (Tree.h:411-468): the sequence of elements handed to the
  // callback, in the order of the calls
  // ---------------------------------------------------------------------------

  function InOrder(t: Tree): (s: seq<int>)
  {
    match t
    case Nil => []
    case Node(_, l, d, r) => InOrder(l) + [d] + InOrder(r)
  }

  function PreOrder(t: Tree): (s: seq<int>)
  {
    match t
    case Nil => []
    case Node(_, l, d, r) => [d] + PreOrder(l) + PreOrder(r)
  }

  function PostOrder(t: Tree): (s: seq<int>)
  {
    match t
    case Nil => []
    case Node(_, l, d, r) => PostOrder(l) + PostOrder(r) + [d]
  }

  // ---------------------------------------------------------------------------
  // Search (Tree.h:474-505)
  // ---------------------------------------------------------------------------

  /** Walks the `<`-directed path; `Some(e)` when the walk meets an element
      `e == key` (the callback receives `e` and the search returns true),
      `None` when it falls off the tree (no callback, false). */
  function SearchHelper(key: int, t: Tree): (hit: Option<int>)
    ensures hit.Some? ==> hit.value == key && key in Elems(t)
  {
    match t
    case Nil => None
    case Node(_, l, d, r) =>
      if key == d then Some(d)
      else if key < d then SearchHelper(key, l)
      else SearchHelper(key, r)
  }

  // ---------------------------------------------------------------------------
  // Copy (Tree.h:283-300)
  // ---------------------------------------------------------------------------

  /** Node-by-node copy as written: the copy of the LEFT subtree becomes the
      new node's RIGHT child and vice versa, so the result is the mirror image
      of the source.  Tree.h:291 calls a default constructor `node()` that the
      struct does not declare (only `node(T)` exists, Tree.h:143-149); each
      copied node is modelled as that constructor leaves it, height 1, and
      `Copy` never writes the height afterwards. */
  function Copy(t: Tree): Tree
  {
    match t
    case Nil => Nil
    case Node(_, l, d, r) => Node(1, Copy(r), d, Copy(l))
  }
}
