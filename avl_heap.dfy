/** The pointer-based AVL tree of Tree.h: heap nodes whose `height`, `left`
    and `right` fields are overwritten in place, and the `Tree` object that
    owns the root pointer.  Each node carries the value of its subtree as a
    ghost `Model`, and every method is proved against the function of the
    same name in `Avl`, applied to the value the heap held before the call
    (`Clear` against `PostOrderNodes`). */
module AvlHeap {
  import Avl
  import AvlProperties

  /** `struct node` (Tree.h:137-150).  `Repr` (the nodes of the subtree
      rooted here) and `Model` (the value of that subtree) are ghost
      bookkeeping, not part of the struct. */
  class Node {
    var height: nat
    var left: Node?
    var right: Node?
    var data: int
    ghost var Repr: set<Node>
    ghost var Model: Avl.Tree

    /** `node(T)`: a leaf holding `d`, with no children and height 1. */
    constructor (d: int)
      ensures Valid() && fresh(Repr) && Repr == {this}
      ensures data == d && left == null && right == null
      ensures Model == Avl.Node(1, Avl.Nil, d, Avl.Nil)
    {
      data := d;
      left := null;
      right := null;
      height := 1;
      Repr := {this};
      Model := Avl.Node(1, Avl.Nil, d, Avl.Nil);
    }

    /** The subtree is finite and its two children share no node, so the
        nodes form a tree; `Model` is the value the fields spell out. */
    ghost predicate Valid()
      reads this, Repr
      decreases Repr
    {
      && this in Repr
      && (left != null ==> left in Repr && left.Repr <= Repr && this !in left.Repr && left.Valid())
      && (right != null ==> right in Repr && right.Repr <= Repr && this !in right.Repr && right.Valid())
      && (left != null && right != null ==> left.Repr !! right.Repr)
      && Model == Avl.Node(height, ModelOf(left), data, ModelOf(right))
    }
  }

  ghost function ReprOf(n: Node?): set<Node>
    reads n
  {
    if n == null then {} else n.Repr
  }

  /** A null pointer is the empty subtree. */
  ghost predicate ValidOf(n: Node?)
    reads n, if n == null then {} else n.Repr
  {
    n != null ==> n.Valid()
  }

  ghost function ModelOf(n: Node?): Avl.Tree
    reads n
  {
    if n == null then Avl.Nil else n.Model
  }

  /** What `Valid` asks of `p` apart from its own height and model: the
      state of a node whose child pointers were just reassigned. */
  ghost predicate ChildrenValid(p: Node)
    reads p, p.left, p.right, ReprOf(p.left), ReprOf(p.right)
  {
    && ValidOf(p.left) && ValidOf(p.right)
    && p !in ReprOf(p.left) && p !in ReprOf(p.right) && ReprOf(p.left) !! ReprOf(p.right)
    && p in p.Repr && ReprOf(p.left) <= p.Repr && ReprOf(p.right) <= p.Repr
  }

  // ---------------------------------------------------------------------------
  // Height bookkeeping (Tree.h:387-406)
  // ---------------------------------------------------------------------------

  /** `Height`: the cached height, 0 for a null pointer. */
  function Height(p: Node?): (h: nat)
    reads p, if p == null then {} else p.Repr
    requires ValidOf(p)
    ensures h == Avl.Height(ModelOf(p))
  {
    if p == null then 0 else p.height
  }

  /** `BalanceFactor`: right height minus left height of a present node. */
  function BalanceFactor(p: Node): (b: int)
    reads p.Repr
    requires p.Valid()
    ensures b == Avl.BalanceFactor(p.Model)
  {
    Height(p.right) - Height(p.left)
  }

  /** `FixHeight`: overwrites the height field of `p` from its children's
      heights.  The children may have been relinked since `p`'s height was
      last written, so only they need be well formed. */
  method FixHeight(p: Node)
    requires ChildrenValid(p)
    modifies p`height, p`Model
    ensures p.Valid()
    ensures p.Model == Avl.FixHeight(Avl.Node(old(p.height), ModelOf(p.left), p.data, ModelOf(p.right)))
  {
    var hl := Height(p.left);
    var hr := Height(p.right);
    p.height := (if hl > hr then hl else hr) + 1;
    p.Model := Avl.Node(p.height, ModelOf(p.left), p.data, ModelOf(p.right));
  }

  // ---------------------------------------------------------------------------
  // Rotations (Tree.h:360-383)
  // ---------------------------------------------------------------------------

  /** `RotateRight`: relinks `p` and its left child `y` and returns `y`, the
      new root of the same set of nodes. */
  method RotateRight(p: Node) returns (y: Node)
    requires p.Valid() && p.left != null
    modifies p, p.left
    ensures y.Valid() && y.Repr == old(p.Repr)
    ensures old(p.Model).left.Node? && y.Model == Avl.RotateRight(old(p.Model))
  {
    y := p.left;
    assert y.Valid();
    ghost var all, t := p.Repr, p.Model;
    ghost var a := y.left;
    ghost var ra := ReprOf(a);
    p.left := y.right;
    y.right := p;
    p.Repr := {p} + ReprOf(p.left) + ReprOf(p.right);
    y.Repr := all;
    FixHeight(p);
    assert p.Model == Avl.FixHeight(Avl.Node(t.height, t.left.right, t.data, t.right));
    assert ReprOf(a) == ra && ValidOf(a) && y !in ra && ra !! p.Repr;
    FixHeight(y);
    assert y.Model == Avl.FixHeight(Avl.Node(t.left.height, t.left.left, t.left.data, p.Model));
  }

  /** `RotateLeft`: relinks `p` and its right child `x` and returns `x`, the
      new root of the same set of nodes. */
  method RotateLeft(p: Node) returns (x: Node)
    requires p.Valid() && p.right != null
    modifies p, p.right
    ensures x.Valid() && x.Repr == old(p.Repr)
    ensures old(p.Model).right.Node? && x.Model == Avl.RotateLeft(old(p.Model))
  {
    x := p.right;
    assert x.Valid();
    ghost var all, t := p.Repr, p.Model;
    ghost var c := x.right;
    ghost var rc := ReprOf(c);
    p.right := x.left;
    x.left := p;
    p.Repr := {p} + ReprOf(p.left) + ReprOf(p.right);
    x.Repr := all;
    FixHeight(p);
    assert p.Model == Avl.FixHeight(Avl.Node(t.height, t.left, t.data, t.right.left));
    assert ReprOf(c) == rc && ValidOf(c) && x !in rc && rc !! p.Repr;
    FixHeight(x);
    assert x.Model == Avl.FixHeight(Avl.Node(t.right.height, p.Model, t.right.data, t.right.right));
  }

  // ---------------------------------------------------------------------------
  // Rebalancing and insertion (Tree.h:313-357)
  // ---------------------------------------------------------------------------

  /** `Balance`: called on a node one of whose subtrees has just changed, so
      its own height is stale; fixes the height, then repairs a balance
      factor of +2 or -2.  Returns the root of the same set of nodes. */
  method Balance(p: Node) returns (r: Node)
    requires ChildrenValid(p)
    modifies p.Repr
    ensures r.Valid() && r.Repr == old(p.Repr)
    ensures r.Model == old(Avl.Balance(Avl.Node(p.height, ModelOf(p.left), p.data, ModelOf(p.right))))
  {
    ghost var t := Avl.Node(p.height, ModelOf(p.left), p.data, ModelOf(p.right));
    FixHeight(p);
    assert p.Model == Avl.FixHeight(t);
    if BalanceFactor(p) == 2 {
      r := RepairRightHeavy(p);
      return;
    }
    if BalanceFactor(p) == -2 {
      r := RepairLeftHeavy(p);
      return;
    }
    r := p;
  }

  /** The `+2` branch of `Balance` (Tree.h:342-347). */
  method RepairRightHeavy(p: Node) returns (r: Node)
    requires p.Valid() && p.right != null
    modifies p.Repr
    ensures r.Valid() && r.Repr == old(p.Repr)
    ensures old(p.Model).right.Node? && r.Model == Avl.RepairRightHeavy(old(p.Model))
  {
    assert p.right.Valid();
    if BalanceFactor(p.right) < 0 {
      p.right := RotateRight(p.right);
      p.Model := Avl.Node(p.height, ModelOf(p.left), p.data, ModelOf(p.right));
    }
    r := RotateLeft(p);
  }

  /** The `-2` branch of `Balance` (Tree.h:349-354). */
  method RepairLeftHeavy(p: Node) returns (r: Node)
    requires p.Valid() && p.left != null
    modifies p.Repr
    ensures r.Valid() && r.Repr == old(p.Repr)
    ensures old(p.Model).left.Node? && r.Model == Avl.RepairLeftHeavy(old(p.Model))
  {
    assert p.left.Valid();
    if BalanceFactor(p.left) > 0 {
      p.left := RotateLeft(p.left);
      p.Model := Avl.Node(p.height, ModelOf(p.left), p.data, ModelOf(p.right));
    }
    r := RotateRight(p);
  }

  /** `Insert(T, node*)`: inserts `x` into the subtree at `p` (ties go
      right), rebalancing every node on the way back up, and returns the new
      root of the subtree.  The only new node is the leaf holding `x`. */
  method InsertAt(x: int, p: Node?) returns (r: Node)
    requires ValidOf(p)
    modifies if p == null then {} else p.Repr
    ensures r.Valid() && old(ReprOf(p)) <= r.Repr && fresh(r.Repr - old(ReprOf(p)))
    ensures r.Model == Avl.Insert(old(ModelOf(p)), x)
    decreases ReprOf(p), 1
  {
    if p == null {
      r := new Node(x);
    } else if x < p.data {
      r := InsertLeft(x, p);
    } else {
      r := InsertRight(x, p);
    }
  }

  /** The `x < p->data` branch of `Insert(T, node*)`: insert into the left
      subtree, relink it, and rebalance `p`. */
  method InsertLeft(x: int, p: Node) returns (r: Node)
    requires p.Valid() && x < p.data
    modifies p.Repr
    ensures r.Valid() && old(p.Repr) <= r.Repr && fresh(r.Repr - old(p.Repr))
    ensures r.Model == Avl.Insert(old(p.Model), x)
    decreases p.Repr, 0
  {
    ghost var rt := p.right;
    ghost var rr := ReprOf(rt);
    assert ValidOf(p.left) && ValidOf(rt);
    p.left := InsertAt(x, p.left);
    assert ReprOf(rt) == rr && ValidOf(rt);
    p.Repr := p.Repr + p.left.Repr;
    r := Balance(p);
  }

  /** The `else` branch of `Insert(T, node*)`: insert into the right subtree
      (equal elements go right), relink it, and rebalance `p`. */
  method InsertRight(x: int, p: Node) returns (r: Node)
    requires p.Valid() && !(x < p.data)
    modifies p.Repr
    ensures r.Valid() && old(p.Repr) <= r.Repr && fresh(r.Repr - old(p.Repr))
    ensures r.Model == Avl.Insert(old(p.Model), x)
    decreases p.Repr, 0
  {
    ghost var l := p.left;
    ghost var rl := ReprOf(l);
    assert ValidOf(l) && ValidOf(p.right);
    p.right := InsertAt(x, p.right);
    assert ReprOf(l) == rl && ValidOf(l);
    p.Repr := p.Repr + p.right.Repr;
    r := Balance(p);
  }

  // ---------------------------------------------------------------------------
  // Traversals (Tree.h:411-468).  The callback `travFunc` is modelled by the
  // sequence of elements it would receive, in the order of the calls.
  // ---------------------------------------------------------------------------

  /** `InOrderHelper`: left subtree, then the node, then the right subtree. */
  method InOrderHelper(p: Node?) returns (visited: seq<int>)
    requires ValidOf(p)
    ensures visited == Avl.InOrder(ModelOf(p))
    decreases ReprOf(p)
  {
    visited := [];
    if p != null {
      assert ValidOf(p.left) && ValidOf(p.right);
      var l := InOrderHelper(p.left);
      visited := l + [p.data];
      var r := InOrderHelper(p.right);
      visited := visited + r;
    }
  }

  /** `PreOrderHelper`: the node, then its left and right subtrees. */
  method PreOrderHelper(p: Node?) returns (visited: seq<int>)
    requires ValidOf(p)
    ensures visited == Avl.PreOrder(ModelOf(p))
    decreases ReprOf(p)
  {
    visited := [];
    if p != null {
      assert ValidOf(p.left) && ValidOf(p.right);
      visited := [p.data];
      var l := PreOrderHelper(p.left);
      visited := visited + l;
      var r := PreOrderHelper(p.right);
      visited := visited + r;
    }
  }

  /** `PostOrderHelper`: the left and right subtrees, then the node. */
  method PostOrderHelper(p: Node?) returns (visited: seq<int>)
    requires ValidOf(p)
    ensures visited == Avl.PostOrder(ModelOf(p))
    decreases ReprOf(p)
  {
    visited := [];
    if p != null {
      assert ValidOf(p.left) && ValidOf(p.right);
      var l := PostOrderHelper(p.left);
      var r := PostOrderHelper(p.right);
      visited := l + r + [p.data];
    }
  }

  // ---------------------------------------------------------------------------
  // Search (Tree.h:474-505).  `searchFunc` is modelled by the sequence of
  // elements it receives: one element on a hit, none on a miss.
  // ---------------------------------------------------------------------------

  /** `SearchHelper`: walks the `<`-directed path from `p`; on meeting an
      element equal to `key` hands it to the callback and reports true. */
  method SearchHelper(key: int, p: Node?) returns (found: bool, reported: seq<int>)
    requires ValidOf(p)
    ensures found == Avl.SearchHelper(key, ModelOf(p)).Some?
    ensures reported == if found then [key] else []
    decreases ReprOf(p)
  {
    if p == null {
      return false, [];
    }
    assert ValidOf(p.left) && ValidOf(p.right);
    if key == p.data {
      return true, [p.data];
    }
    if key < p.data {
      found, reported := SearchHelper(key, p.left);
    } else {
      found, reported := SearchHelper(key, p.right);
    }
  }

  // ---------------------------------------------------------------------------
  // Copy and release (Tree.h:255-300)
  // ---------------------------------------------------------------------------

  /** `Copy`: allocates a fresh node per node of the subtree at `p`.  As
      written, the copy of `p`'s LEFT subtree is linked as the new node's
      RIGHT child and vice versa, and the new node keeps the height a freshly
      constructed node has (see `Avl.Copy`).  Nothing that exists before the
      call is modified. */
  method Copy(p: Node?) returns (r: Node?)
    requires ValidOf(p)
    ensures ValidOf(r) && fresh(ReprOf(r))
    ensures ModelOf(r) == Avl.Copy(ModelOf(p))
    decreases ReprOf(p)
  {
    if p == null {
      return null;
    }
    var left, right := p.left, p.right;
    assert ValidOf(left) && ValidOf(right);
    ghost var m := Avl.Copy(p.Model);
    assert m == Avl.Node(1, Avl.Copy(ModelOf(right)), p.data, Avl.Copy(ModelOf(left)));
    var newNode := new Node(p.data);
    newNode.right := Copy(left);
    newNode.left := Copy(right);
    Seal(newNode);
    r := newNode;
  }

  /** Ghost bookkeeping for a node whose two children were just linked:
      its `Repr` and `Model` are recomputed from theirs. */
  ghost method Seal(n: Node)
    requires ValidOf(n.left) && ValidOf(n.right)
    requires n !in ReprOf(n.left) && n !in ReprOf(n.right) && ReprOf(n.left) !! ReprOf(n.right)
    modifies n`Repr, n`Model
    ensures n.Valid() && n.Repr == {n} + ReprOf(n.left) + ReprOf(n.right)
    ensures n.Model == Avl.Node(n.height, ModelOf(n.left), n.data, ModelOf(n.right))
  {
    n.Repr := {n} + ReprOf(n.left) + ReprOf(n.right);
    n.Model := Avl.Node(n.height, ModelOf(n.left), n.data, ModelOf(n.right));
  }

  /** The nodes of the subtree at `p` in post-order: left subtree, right
      subtree, then `p`. */
  ghost function PostOrderNodes(p: Node?): seq<Node>
    reads if p == null then {} else p.Repr
    requires ValidOf(p)
    decreases ReprOf(p)
  {
    if p == null then [] else PostOrderNodes(p.left) + PostOrderNodes(p.right) + [p]
  }

  /** Releasing in post-order releases one node of the subtree per element,
      and the released elements are the post-order walk. */
  lemma {:induction false} PostOrderNodesFollowWalk(p: Node?)
    requires ValidOf(p)
    ensures |PostOrderNodes(p)| == |Avl.PostOrder(ModelOf(p))| == Avl.Size(ModelOf(p))
    ensures forall i | 0 <= i < |PostOrderNodes(p)| ::
      PostOrderNodes(p)[i] in ReprOf(p) && PostOrderNodes(p)[i].data == Avl.PostOrder(ModelOf(p))[i]
    decreases ReprOf(p)
  {
    if p != null {
      assert ValidOf(p.left) && ValidOf(p.right);
      PostOrderNodesFollowWalk(p.left);
      PostOrderNodesFollowWalk(p.right);
      var l, r := PostOrderNodes(p.left), PostOrderNodes(p.right);
      var released := PostOrderNodes(p);
      assert released == l + r + [p];
      var post := Avl.PostOrder(p.Model);
      assert post == Avl.PostOrder(ModelOf(p.left)) + Avl.PostOrder(ModelOf(p.right)) + [p.data];
      forall i | 0 <= i < |released|
        ensures released[i] in p.Repr && released[i].data == post[i]
      {
        if i < |l| {
          assert released[i] == l[i];
        } else if i < |l| + |r| {
          assert released[i] == r[i - |l|];
        }
      }
    }
  }

  /** No node is released twice. */
  lemma {:induction false} PostOrderNodesDistinct(p: Node?)
    requires ValidOf(p)
    ensures forall i, j | 0 <= i < j < |PostOrderNodes(p)| :: PostOrderNodes(p)[i] != PostOrderNodes(p)[j]
    decreases ReprOf(p)
  {
    if p != null {
      assert ValidOf(p.left) && ValidOf(p.right);
      PostOrderNodesDistinct(p.left);
      PostOrderNodesDistinct(p.right);
      PostOrderNodesFollowWalk(p.left);
      PostOrderNodesFollowWalk(p.right);
      var l, r := PostOrderNodes(p.left), PostOrderNodes(p.right);
      var released := PostOrderNodes(p);
      assert released == l + r + [p];
      forall i, j | 0 <= i < j < |released|
        ensures released[i] != released[j]
      {
        if j < |l| {
          assert released[i] == l[i] && released[j] == l[j];
        } else if i < |l| {
          assert released[i] == l[i] && l[i] in ReprOf(p.left);
        } else if j < |l| + |r| {
          assert released[i] == r[i - |l|] && released[j] == r[j - |l|];
        } else {
          assert released[i] in ReprOf(p.left) + ReprOf(p.right);
        }
      }
    }
  }

  /** `Clear`: releases the left subtree, then the right subtree, then the
      node itself.  `delete` is modelled by the sequence of released nodes:
      one node of the subtree per element, none twice, carrying the
      post-order walk.  Assigning null to the parameter afterwards changes
      only the callee's copy of the pointer. */
  method Clear(p: Node?) returns (released: seq<Node>)
    requires ValidOf(p)
    ensures released == PostOrderNodes(p)
    ensures |released| == |Avl.PostOrder(ModelOf(p))| == Avl.Size(ModelOf(p))
    ensures forall i | 0 <= i < |released| ::
      released[i] in ReprOf(p) && released[i].data == Avl.PostOrder(ModelOf(p))[i]
    ensures forall i, j | 0 <= i < j < |released| :: released[i] != released[j]
    decreases ReprOf(p)
  {
    released := [];
    if p != null {
      assert ValidOf(p.left) && ValidOf(p.right);
      var l := Clear(p.left);
      var r := Clear(p.right);
      released := l + r + [p];
    }
    PostOrderNodesFollowWalk(p);
    PostOrderNodesDistinct(p);
  }

  // ---------------------------------------------------------------------------
  // The tree object (Tree.h:24-243 and the public members defined after it)
  // ---------------------------------------------------------------------------

  /** `class Tree`: owns the pointer to the root node.  `Repr` holds the
      object itself and every node it reaches. */
  class Tree {
    var root: Node?
    ghost var Repr: set<object>

    ghost predicate Valid()
      reads this, Repr
    {
      this in Repr && (root != null ==> root in Repr) && ReprOf(root) <= Repr && ValidOf(root)
    }

    /** The value of the whole tree. */
    ghost function Model(): Avl.Tree
      reads this, Repr
      requires Valid()
    {
      ModelOf(root)
    }

    /** `Tree()`: the empty tree. */
    constructor ()
      ensures Valid() && fresh(Repr)
      ensures Model() == Avl.Nil
    {
      root := null;
      new;
      Repr := {this};
    }

    /** The copy constructor `Tree(const Tree &)`: the root of a node-by-node
        copy of `rhs` (see `Copy`), which `rhs` shares no node with. */
    constructor CopyOf(rhs: Tree)
      requires rhs.Valid()
      ensures Valid() && fresh(Repr)
      ensures Model() == Avl.Copy(rhs.Model())
    {
      var copied := Copy(rhs.root);
      root := copied;
      new;
      Repr := {this} + ReprOf(root);
    }

    /** The destructor `~Tree()`: releases every node through `Clear`, each
        exactly once and in post-order. */
    method Destroy() returns (released: seq<Node>)
      requires Valid()
      ensures released == PostOrderNodes(root)
      ensures |released| == Avl.Size(Model())
      ensures forall i, j | 0 <= i < j < |released| :: released[i] != released[j]
    {
      released := Clear(root);
    }

    /** `operator=`: builds a copy of `rhs` and returns it; the object the
        operator is called on is left as it was. */
    method Assign(rhs: Tree) returns (r: Tree)
      requires Valid() && rhs.Valid()
      ensures Valid() && Model() == old(Model())
      ensures r.Valid() && fresh(r.Repr)
      ensures r.Model() == Avl.Copy(rhs.Model())
    {
      r := new Tree.CopyOf(rhs);
    }

    /** `Insert(T)`: inserts `x` below the root and stores the new root.  An
        AVL tree stays an AVL tree, and an ordered tree's in-order walk gains
        `x` after every element not greater than it. */
    method Insert(x: int)
      requires Valid()
      modifies Repr
      ensures Valid() && fresh(Repr - old(Repr))
      ensures Model() == Avl.Insert(old(Model()), x)
      ensures Avl.IsAvl(old(Model())) ==> Avl.IsAvl(Model())
      ensures Avl.Bst(old(Model())) ==>
        Avl.InOrder(Model()) == AvlProperties.InsertSorted(Avl.InOrder(old(Model())), x)
    {
      ghost var t := ModelOf(root);
      root := InsertAt(x, root);
      Repr := Repr + root.Repr;
      if Avl.IsAvl(t) {
        AvlProperties.InsertKeepsAvl(t, x);
      }
      if Avl.Bst(t) {
        AvlProperties.InsertPlacesAfterEqual(t, x);
      }
    }

    /** `InOrder`: hands every element to the callback in ascending order
        when the tree is ordered. */
    method InOrder() returns (visited: seq<int>)
      requires Valid()
      ensures visited == Avl.InOrder(Model())
      ensures multiset(visited) == Avl.Elems(Model())
      ensures Avl.Bst(Model()) ==> AvlProperties.Sorted(visited)
    {
      visited := InOrderHelper(root);
      AvlProperties.InOrderVisitsEachOnce(Model());
      if Avl.Bst(Model()) {
        AvlProperties.InOrderOfBstIsSorted(Model());
      }
    }

    /** `PreOrder`: hands every element to the callback, each node before
        its subtrees. */
    method PreOrder() returns (visited: seq<int>)
      requires Valid()
      ensures visited == Avl.PreOrder(Model())
      ensures multiset(visited) == Avl.Elems(Model())
    {
      visited := PreOrderHelper(root);
      AvlProperties.PreOrderVisitsEachOnce(Model());
    }

    /** `PostOrder`: hands every element to the callback, each node after
        its subtrees. */
    method PostOrder() returns (visited: seq<int>)
      requires Valid()
      ensures visited == Avl.PostOrder(Model())
      ensures multiset(visited) == Avl.Elems(Model())
    {
      visited := PostOrderHelper(root);
      AvlProperties.PostOrderVisitsEachOnce(Model());
    }

    /** `Search`: reports whether an element equal to `key` lies on the
        search path; in an ordered tree, exactly when the tree holds `key`. */
    method Search(key: int) returns (found: bool, reported: seq<int>)
      requires Valid()
      ensures found == Avl.SearchHelper(key, Model()).Some?
      ensures reported == if found then [key] else []
      ensures Avl.Bst(Model()) ==> (found <==> key in Avl.Elems(Model()))
    {
      found, reported := SearchHelper(key, root);
      if Avl.Bst(Model()) {
        AvlProperties.SearchFindsExactlyTheElements(Model(), key);
      }
    }
  }
}
