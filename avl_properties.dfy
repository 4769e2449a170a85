/** What the operations of `Avl` guarantee: the three AVL invariants survive
    every insertion, insertion adds exactly one occurrence and puts it after
    every equal element, traversals visit each element once, search finds
    exactly the stored keys, the copy is a mirror image, and the height of an
    AVL tree is logarithmic in its size. */
module AvlProperties {
  import opened Avl

  // ---------------------------------------------------------------------------
  // Reference definitions on sequences
  // ---------------------------------------------------------------------------

  /** Non-decreasing according to `<`. */
  predicate Sorted(s: seq<int>)
  {
    forall i, j | 0 <= i < j < |s| :: !(s[j] < s[i])
  }

  /** `s` with `x` placed before the first element greater than `x`, that is
      after every element that is not greater. */
  function InsertSorted(s: seq<int>, x: int): seq<int>
  {
    if s == [] then [x]
    else if x < s[0] then [x] + s
    else [s[0]] + InsertSorted(s[1..], x)
  }

  function Reverse(s: seq<int>): seq<int>
  {
    if s == [] then [] else Reverse(s[1..]) + [s[0]]
  }

  // ---------------------------------------------------------------------------
  // Traversals visit every element exactly once
  // ---------------------------------------------------------------------------

  lemma {:induction false} InOrderVisitsEachOnce(t: Tree)
    ensures multiset(InOrder(t)) == Elems(t) && |InOrder(t)| == Size(t)
  {
    match t
    case Nil =>
    case Node(_, l, d, r) =>
      InOrderVisitsEachOnce(l);
      InOrderVisitsEachOnce(r);
  }

  lemma {:induction false} PreOrderVisitsEachOnce(t: Tree)
    ensures multiset(PreOrder(t)) == Elems(t) && |PreOrder(t)| == Size(t)
  {
    match t
    case Nil =>
    case Node(_, l, d, r) =>
      PreOrderVisitsEachOnce(l);
      PreOrderVisitsEachOnce(r);
  }

  lemma {:induction false} PostOrderVisitsEachOnce(t: Tree)
    ensures multiset(PostOrder(t)) == Elems(t) && |PostOrder(t)| == Size(t)
  {
    match t
    case Nil =>
    case Node(_, l, d, r) =>
      PostOrderVisitsEachOnce(l);
      PostOrderVisitsEachOnce(r);
  }

  // ---------------------------------------------------------------------------
  // Cached heights
  // ---------------------------------------------------------------------------

  /** With correct cached heights, the cached height is the real height. */
  lemma {:induction false} CachedHeightIsDepth(t: Tree)
    requires HeightsOk(t)
    ensures Height(t) == Depth(t)
  {
    match t
    case Nil =>
    case Node(_, l, _, r) =>
      CachedHeightIsDepth(l);
      CachedHeightIsDepth(r);
  }

  /** `FixHeight` restores a correct cached height once the children have
      correct ones, whatever the node held before. */
  lemma FixHeightRestoresHeights(t: Tree)
    requires t.Node? && HeightsOk(t.left) && HeightsOk(t.right)
    ensures HeightsOk(FixHeight(t)) && Height(FixHeight(t)) == Depth(t)
  {
    CachedHeightIsDepth(t.left);
    CachedHeightIsDepth(t.right);
  }

  // ---------------------------------------------------------------------------
  // Elements and ordering under rotations, rebalancing and insertion
  // ---------------------------------------------------------------------------

  lemma BalanceKeepsElems(t: Tree)
    requires t.Node?
    ensures Elems(Balance(t)) == Elems(t)
  {
    InOrderVisitsEachOnce(t);
    InOrderVisitsEachOnce(Balance(t));
  }

  /** Insert adds exactly one occurrence of the new element and loses none:
      duplicates are kept. */
  lemma {:induction false} InsertAddsOneOccurrence(t: Tree, x: int)
    ensures Elems(Insert(t, x)) == Elems(t) + multiset{x}
  {
    match t
    case Nil =>
    case Node(h, l, d, r) =>
      if x < d {
        InsertAddsOneOccurrence(l, x);
        InsertGoesLeft(t, x);
        BalanceKeepsElems(Node(h, Insert(l, x), d, r));
      } else {
        InsertAddsOneOccurrence(r, x);
        InsertGoesRight(t, x);
        BalanceKeepsElems(Node(h, l, d, Insert(r, x)));
      }
  }

  lemma RotateRightKeepsBst(t: Tree)
    requires t.Node? && t.left.Node? && Bst(t)
    ensures Bst(RotateRight(t))
  {
    var Node(h, y, pd, c) := t;
    var Node(yh, a, yd, b) := y;
    var demoted := FixHeight(Node(h, b, pd, c));
    assert RotateRight(t) == FixHeight(Node(yh, a, yd, demoted));
    assert yd in Elems(y) && !(pd < yd);
    forall e | e in Elems(b) ensures !(pd < e) {
      assert e in Elems(y);
    }
    assert Bst(demoted) && Bst(y);
    assert Elems(demoted) == Elems(b) + multiset{pd} + Elems(c);
    forall e | e in Elems(demoted) ensures !(e < yd) {
      if e in Elems(c) {
        assert !(e < pd);
      } else if e in Elems(b) {
        assert !(e < yd);
      }
    }
  }

  lemma RotateLeftKeepsBst(t: Tree)
    requires t.Node? && t.right.Node? && Bst(t)
    ensures Bst(RotateLeft(t))
  {
    var Node(h, a, pd, x) := t;
    var Node(xh, b, xd, c) := x;
    var demoted := FixHeight(Node(h, a, pd, b));
    assert RotateLeft(t) == FixHeight(Node(xh, demoted, xd, c));
    assert xd in Elems(x) && !(xd < pd);
    forall e | e in Elems(b) ensures !(e < pd) {
      assert e in Elems(x);
    }
    assert Bst(demoted) && Bst(x);
    assert Elems(demoted) == Elems(a) + multiset{pd} + Elems(b);
    forall e | e in Elems(demoted) ensures !(xd < e) {
      if e in Elems(a) {
        assert !(pd < e);
      } else if e in Elems(b) {
        assert !(xd < e);
      }
    }
  }

  lemma BalanceKeepsBst(t: Tree)
    requires t.Node? && Bst(t)
    ensures Bst(Balance(t))
  {
    var p := FixHeight(t);
    assert Bst(p);
    if BalanceFactor(p) == 2 {
      var q := p;
      if BalanceFactor(p.right) < 0 {
        RotateRightKeepsBst(p.right);
        q := p.(right := RotateRight(p.right));
        InOrderVisitsEachOnce(p.right);
        InOrderVisitsEachOnce(q.right);
        assert Elems(q.right) == Elems(p.right);
      }
      assert Bst(q);
      RotateLeftKeepsBst(q);
    } else if BalanceFactor(p) == -2 {
      var q := p;
      if BalanceFactor(p.left) > 0 {
        RotateLeftKeepsBst(p.left);
        q := p.(left := RotateLeft(p.left));
        InOrderVisitsEachOnce(p.left);
        InOrderVisitsEachOnce(q.left);
        assert Elems(q.left) == Elems(p.left);
      }
      assert Bst(q);
      RotateRightKeepsBst(q);
    }
  }

  /** Insert keeps the search-tree ordering. */
  lemma {:induction false} InsertKeepsBst(t: Tree, x: int)
    requires Bst(t)
    ensures Bst(Insert(t, x))
  {
    match t
    case Nil =>
    case Node(h, l, d, r) =>
      if x < d {
        var l' := Insert(l, x);
        InsertKeepsBst(l, x);
        InsertAddsOneOccurrence(l, x);
        forall e | e in Elems(l') ensures !(d < e) {
          assert e in Elems(l) || e == x;
        }
        assert Bst(Node(h, l', d, r));
        BalanceKeepsBst(Node(h, l', d, r));
        assert Insert(t, x) == Balance(Node(h, l', d, r));
      } else {
        var r' := Insert(r, x);
        InsertKeepsBst(r, x);
        InsertAddsOneOccurrence(r, x);
        forall e | e in Elems(r') ensures !(e < d) {
          assert e in Elems(r) || e == x;
        }
        assert Bst(Node(h, l, d, r'));
        BalanceKeepsBst(Node(h, l, d, r'));
        assert Insert(t, x) == Balance(Node(h, l, d, r'));
      }
  }

  // ---------------------------------------------------------------------------
  // Balance and heights under rebalancing and insertion
  // ---------------------------------------------------------------------------

  /** `Balance` on a node whose children are AVL-shaped and differ in height
      by at most 2 yields an AVL-shaped subtree; its height is at least the
      taller child's, at most one more, and exactly one more when no rotation
      was needed. */
  lemma BalanceRestoresShape(t: Tree)
    requires t.Node?
    requires HeightsOk(t.left) && Balanced(t.left) && HeightsOk(t.right) && Balanced(t.right)
    requires -2 <= BalanceFactor(t) <= 2
    ensures HeightsOk(Balance(t)) && Balanced(Balance(t))
    ensures Max(Height(t.left), Height(t.right)) <= Height(Balance(t)) <= Max(Height(t.left), Height(t.right)) + 1
    ensures -1 <= BalanceFactor(t) <= 1 ==> Height(Balance(t)) == Max(Height(t.left), Height(t.right)) + 1
  {
    var p := FixHeight(t);
    if BalanceFactor(p) == 2 {
      RightHeavyRepaired(p);
    } else if BalanceFactor(p) == -2 {
      LeftHeavyRepaired(p);
    }
  }

  lemma RightHeavyRepaired(p: Tree)
    requires p.Node? && HeightsOk(p)
    requires Balanced(p.left) && Balanced(p.right)
    requires BalanceFactor(p) == 2
    ensures HeightsOk(RepairRightHeavy(p)) && Balanced(RepairRightHeavy(p))
    ensures Height(p.right) <= Height(RepairRightHeavy(p)) <= Height(p.right) + 1
  {
    var l, r := p.left, p.right;
    var hl := Height(l);
    assert FixHeight(p) == p;
    assert r.Node? && Height(r) == hl + 2;
    if BalanceFactor(r) < 0 {
      // right-left case: rotate the right child rightward, then p leftward
      var rl, rr := r.left, r.right;
      assert Height(rl) == hl + 1 && Height(rr) == hl;
      assert HeightsOk(rl) && Balanced(rl) && rl.Node?;
      var a, b := rl.left, rl.right;
      assert Height(a) <= hl && Height(b) <= hl && hl <= Height(a) + 1 && hl <= Height(b) + 1;
      var inner := FixHeight(Node(r.height, b, r.data, rr));
      var up := FixHeight(Node(rl.height, a, rl.data, inner));
      assert up == RotateRight(r);
      var q := p.(right := up);
      var outer := FixHeight(Node(q.height, l, p.data, a));
      var res := FixHeight(Node(up.height, outer, up.data, inner));
      assert res == RotateLeft(q);
      assert res == RepairRightHeavy(p);
      assert Height(inner) == hl + 1 && Height(outer) == hl + 1;
      assert HeightsOk(inner) && Balanced(inner);
      assert HeightsOk(outer) && Balanced(outer);
    } else {
      // right-right case: one left rotation
      var rl, rr := r.left, r.right;
      assert Height(rr) == hl + 1 && hl <= Height(rl) <= hl + 1;
      var outer := FixHeight(Node(p.height, l, p.data, rl));
      var res := FixHeight(Node(r.height, outer, r.data, rr));
      assert res == RotateLeft(p);
      assert res == RepairRightHeavy(p);
      assert Height(outer) == Height(rl) + 1;
      assert HeightsOk(outer) && Balanced(outer);
    }
  }

  lemma LeftHeavyRepaired(p: Tree)
    requires p.Node? && HeightsOk(p)
    requires Balanced(p.left) && Balanced(p.right)
    requires BalanceFactor(p) == -2
    ensures HeightsOk(RepairLeftHeavy(p)) && Balanced(RepairLeftHeavy(p))
    ensures Height(p.left) <= Height(RepairLeftHeavy(p)) <= Height(p.left) + 1
  {
    var l, r := p.left, p.right;
    var hr := Height(r);
    assert FixHeight(p) == p;
    assert l.Node? && Height(l) == hr + 2;
    if BalanceFactor(l) > 0 {
      // left-right case: rotate the left child leftward, then p rightward
      var ll, lr := l.left, l.right;
      assert Height(lr) == hr + 1 && Height(ll) == hr;
      assert HeightsOk(lr) && Balanced(lr) && lr.Node?;
      var a, b := lr.left, lr.right;
      assert Height(a) <= hr && Height(b) <= hr && hr <= Height(a) + 1 && hr <= Height(b) + 1;
      var inner := FixHeight(Node(l.height, ll, l.data, a));
      var up := FixHeight(Node(lr.height, inner, lr.data, b));
      assert up == RotateLeft(l);
      var q := p.(left := up);
      var outer := FixHeight(Node(q.height, b, p.data, r));
      var res := FixHeight(Node(up.height, inner, up.data, outer));
      assert res == RotateRight(q);
      assert res == RepairLeftHeavy(p);
      assert Height(inner) == hr + 1 && Height(outer) == hr + 1;
      assert HeightsOk(inner) && Balanced(inner);
      assert HeightsOk(outer) && Balanced(outer);
    } else {
      // left-left case: one right rotation
      var ll, lr := l.left, l.right;
      assert Height(ll) == hr + 1 && hr <= Height(lr) <= hr + 1;
      var outer := FixHeight(Node(p.height, lr, p.data, r));
      var res := FixHeight(Node(l.height, ll, l.data, outer));
      assert res == RotateRight(p);
      assert res == RepairLeftHeavy(p);
      assert Height(outer) == Height(lr) + 1;
      assert HeightsOk(outer) && Balanced(outer);
    }
  }

  /** The main invariant: inserting into an AVL tree yields an AVL tree whose
      height grew by at most one. */
  lemma {:induction false} InsertKeepsAvl(t: Tree, x: int)
    requires IsAvl(t)
    ensures IsAvl(Insert(t, x))
    ensures Height(t) <= Height(Insert(t, x)) <= Height(t) + 1
  {
    InsertKeepsBst(t, x);
    match t
    case Nil =>
    case Node(h, l, d, r) =>
      if x < d {
        InsertKeepsAvl(l, x);
        BalanceRestoresShape(Node(h, Insert(l, x), d, r));
      } else {
        InsertKeepsAvl(r, x);
        BalanceRestoresShape(Node(h, l, d, Insert(r, x)));
      }
  }

  // ---------------------------------------------------------------------------
  // Where Insert puts the new element, and sortedness of the in-order walk
  // ---------------------------------------------------------------------------

  lemma {:induction false} InsertSortedConcat(a: seq<int>, c: seq<int>, x: int)
    ensures (forall e | e in a :: !(x < e)) ==> InsertSorted(a + c, x) == a + InsertSorted(c, x)
    ensures (exists e | e in a :: x < e) ==> InsertSorted(a + c, x) == InsertSorted(a, x) + c
  {
    if a == [] {
      assert a + c == c;
    } else {
      assert (a + c)[0] == a[0] && (a + c)[1..] == a[1..] + c;
      assert a[0] in a;
      if !(x < a[0]) {
        InsertSortedConcat(a[1..], c, x);
        assert a == [a[0]] + a[1..];
        assert forall e | e in a :: e == a[0] || e in a[1..];
        assert forall e | e in a[1..] :: e in a;
      }
    }
  }

  /** On an ordered tree, the in-order walk after `Insert(t, x)` is the old
      walk with `x` placed after every element that is not greater than it:
      an equal element is kept, and the new one goes after it. */
  lemma {:induction false} InsertPlacesAfterEqual(t: Tree, x: int)
    requires Bst(t)
    ensures InOrder(Insert(t, x)) == InsertSorted(InOrder(t), x)
  {
    match t
    case Nil =>
    case Node(h, l, d, r) =>
      if x < d {
        InsertPlacesAfterEqual(l, x);
        InsertLeftStep(t, x);
      } else {
        InsertPlacesAfterEqual(r, x);
        LeftWalkNotAbove(t, x);
        InsertAfterLargerPrefix(InOrder(t.left), InOrder(t.right), t.data, x);
        InsertRightStep(t, x);
      }
  }

  lemma InsertLeftStep(t: Tree, x: int)
    requires t.Node? && x < t.data
    requires InOrder(Insert(t.left, x)) == InsertSorted(InOrder(t.left), x)
    ensures InOrder(Insert(t, x)) == InsertSorted(InOrder(t), x)
  {
    var Node(h, l, d, r) := t;
    var a, b := InOrder(l), InOrder(r);
    var n := Node(h, Insert(l, x), d, r);
    calc {
      InOrder(Insert(t, x));
      { InsertGoesLeft(t, x); }
      InOrder(Balance(n));
      InOrder(n);
      InsertSorted(a, x) + ([d] + b);
      { InsertAfterSmallerPrefix(a, b, d, x); }
      InsertSorted(a + ([d] + b), x);
      { assert InOrder(t) == a + ([d] + b); }
      InsertSorted(InOrder(t), x);
    }
  }

  lemma InsertRightStep(t: Tree, x: int)
    requires t.Node? && !(x < t.data)
    requires InsertSorted(InOrder(t.left) + ([t.data] + InOrder(t.right)), x)
          == InOrder(t.left) + ([t.data] + InsertSorted(InOrder(t.right), x))
    requires InOrder(Insert(t.right, x)) == InsertSorted(InOrder(t.right), x)
    ensures InOrder(Insert(t, x)) == InsertSorted(InOrder(t), x)
  {
    var Node(h, l, d, r) := t;
    var a, b := InOrder(l), InOrder(r);
    var n := Node(h, l, d, Insert(r, x));
    calc {
      InOrder(Insert(t, x));
      { InsertGoesRight(t, x); }
      InOrder(Balance(n));
      InOrder(n);
      a + ([d] + InsertSorted(b, x));
      InsertSorted(a + ([d] + b), x);
      { assert InOrder(t) == a + ([d] + b); }
      InsertSorted(InOrder(t), x);
    }
  }

  lemma InsertGoesLeft(t: Tree, x: int)
    requires t.Node? && x < t.data
    ensures Insert(t, x) == Balance(Node(t.height, Insert(t.left, x), t.data, t.right))
  {
  }

  lemma InsertGoesRight(t: Tree, x: int)
    requires t.Node? && !(x < t.data)
    ensures Insert(t, x) == Balance(Node(t.height, t.left, t.data, Insert(t.right, x)))
  {
  }

  lemma InsertAfterLargerPrefix(a: seq<int>, b: seq<int>, d: int, x: int)
    requires !(x < d) && forall e | e in a :: !(x < e)
    ensures InsertSorted(a + ([d] + b), x) == a + ([d] + InsertSorted(b, x))
  {
    InsertSortedConcat(a, [d] + b, x);
    assert ([d] + b)[0] == d && ([d] + b)[1..] == b;
  }

  lemma LeftWalkNotAbove(t: Tree, x: int)
    requires t.Node? && Bst(t) && !(x < t.data)
    ensures forall e | e in InOrder(t.left) :: !(x < e)
  {
    InOrderVisitsEachOnce(t.left);
    forall e | e in InOrder(t.left) ensures !(x < e) {
      assert e in multiset(InOrder(t.left));
      assert !(t.data < e);
    }
  }

  lemma InsertAfterSmallerPrefix(a: seq<int>, b: seq<int>, d: int, x: int)
    requires x < d
    ensures InsertSorted(a + ([d] + b), x) == InsertSorted(a, x) + ([d] + b)
  {
    InsertSortedConcat(a, [d] + b, x);
    if forall e | e in a :: !(x < e) {
      InsertSortedConcat(a, [], x);
      assert a + [] == a;
    }
  }

  /** The in-order walk of an ordered tree is non-decreasing. */
  lemma {:induction false} InOrderOfBstIsSorted(t: Tree)
    requires Bst(t)
    ensures Sorted(InOrder(t))
  {
    match t
    case Nil =>
    case Node(_, l, d, r) =>
      InOrderOfBstIsSorted(l);
      InOrderOfBstIsSorted(r);
      InOrderVisitsEachOnce(l);
      InOrderVisitsEachOnce(r);
      var a, b := InOrder(l), InOrder(r);
      forall e | e in a ensures !(d < e) {
        assert e in multiset(a);
      }
      forall e | e in b ensures !(e < d) {
        assert e in multiset(b);
      }
      SortedAroundPivot(a, d, b);
  }

  /** Two sorted runs joined by a pivot that is not below the first run and
      not above the second form a sorted sequence. */
  lemma SortedAroundPivot(a: seq<int>, d: int, b: seq<int>)
    requires Sorted(a) && Sorted(b)
    requires forall e | e in a :: !(d < e)
    requires forall e | e in b :: !(e < d)
    ensures Sorted(a + [d] + b)
  {
    var s := a + [d] + b;
    forall i, j | 0 <= i < j < |s| ensures !(s[j] < s[i]) {
      if j < |a| {
        assert s[i] == a[i] && s[j] == a[j];
      } else if i > |a| {
        assert s[i] == b[i - |a| - 1] && s[j] == b[j - |a| - 1];
      } else {
        if i < |a| {
          assert s[i] == a[i] && a[i] in a;
        }
        if j > |a| {
          assert s[j] == b[j - |a| - 1] && b[j - |a| - 1] in b;
        }
      }
    }
  }

  /** Any tree built by insertions from an empty tree is an AVL tree holding
      exactly the inserted elements, and its in-order walk is sorted. */
  lemma {:induction false} BuiltTreeIsSortedAvl(xs: seq<int>)
    ensures IsAvl(Build(xs)) && Elems(Build(xs)) == multiset(xs)
    ensures Sorted(InOrder(Build(xs)))
  {
    if xs != [] {
      var init, last := xs[..|xs| - 1], xs[|xs| - 1];
      assert xs == init + [last];
      BuiltTreeIsSortedAvl(init);
      InsertKeepsAvl(Build(init), last);
      InsertAddsOneOccurrence(Build(init), last);
    }
    InOrderOfBstIsSorted(Build(xs));
  }

  // ---------------------------------------------------------------------------
  // Search
  // ---------------------------------------------------------------------------

  /** On an ordered tree the `<`-directed walk finds a key exactly when the
      key is stored; on an empty tree it finds nothing. */
  lemma {:induction false} SearchFindsExactlyTheElements(t: Tree, key: int)
    requires Bst(t)
    ensures SearchHelper(key, t).Some? <==> key in Elems(t)
  {
    match t
    case Nil =>
    case Node(_, l, d, r) =>
      if key != d {
        if key < d {
          SearchFindsExactlyTheElements(l, key);
          assert key !in Elems(r);
        } else {
          SearchFindsExactlyTheElements(r, key);
          assert key !in Elems(l);
        }
      }
  }

  // ---------------------------------------------------------------------------
  // Copy produces the mirror image
  // ---------------------------------------------------------------------------

  lemma {:induction false} ReverseConcat(a: seq<int>, b: seq<int>)
    ensures Reverse(a + b) == Reverse(b) + Reverse(a)
  {
    if a == [] {
      assert a + b == b;
    } else {
      assert (a + b)[1..] == a[1..] + b;
      ReverseConcat(a[1..], b);
    }
  }

  lemma {:induction false} ReverseAt(s: seq<int>, k: int)
    requires 0 <= k < |s|
    ensures |Reverse(s)| == |s| && Reverse(s)[k] == s[|s| - 1 - k]
  {
    if k < |s| - 1 {
      ReverseAt(s[1..], k);
    } else {
      ReverseLength(s[1..]);
    }
  }

  lemma {:induction false} ReverseLength(s: seq<int>)
    ensures |Reverse(s)| == |s|
  {
    if s != [] {
      ReverseLength(s[1..]);
    }
  }

  /** The copy holds the same elements as the source, as many nodes, and
      its longest path has the same length. */
  lemma {:induction false} CopyKeepsContents(t: Tree)
    ensures Elems(Copy(t)) == Elems(t) && Size(Copy(t)) == Size(t) && Depth(Copy(t)) == Depth(t)
  {
    match t
    case Nil =>
    case Node(_, l, d, r) =>
      CopyKeepsContents(l);
      CopyKeepsContents(r);
  }

  /** The copy visits the source's elements in reverse in-order. */
  lemma {:induction false} CopyReversesInOrder(t: Tree)
    ensures InOrder(Copy(t)) == Reverse(InOrder(t))
  {
    match t
    case Nil =>
    case Node(_, l, d, r) =>
      CopyReversesInOrder(l);
      CopyReversesInOrder(r);
      assert Reverse([d]) == [d];
      ReverseConcat(InOrder(l) + [d], InOrder(r));
      ReverseConcat(InOrder(l), [d]);
  }

  /** The copy's pre-order walk is the source's post-order walk reversed. */
  lemma {:induction false} CopyPreOrderIsReversedPostOrder(t: Tree)
    ensures PreOrder(Copy(t)) == Reverse(PostOrder(t))
  {
    match t
    case Nil =>
    case Node(_, l, d, r) =>
      CopyPreOrderIsReversedPostOrder(l);
      CopyPreOrderIsReversedPostOrder(r);
      assert Reverse([d]) == [d];
      ReverseConcat(PostOrder(l) + PostOrder(r), [d]);
      ReverseConcat(PostOrder(l), PostOrder(r));
  }

  /** The copy's post-order walk is the source's pre-order walk reversed. */
  lemma {:induction false} CopyPostOrderIsReversedPreOrder(t: Tree)
    ensures PostOrder(Copy(t)) == Reverse(PreOrder(t))
  {
    match t
    case Nil =>
    case Node(_, l, d, r) =>
      CopyPostOrderIsReversedPreOrder(l);
      CopyPostOrderIsReversedPreOrder(r);
      assert Reverse([d]) == [d];
      ReverseConcat([d] + PreOrder(l), PreOrder(r));
      ReverseConcat([d], PreOrder(l));
  }

  /** A sorted sequence holding two different elements is not sorted once
      reversed. */
  lemma ReversedSortedIsUnsorted(s: seq<int>, i: int, j: int)
    requires Sorted(s) && 0 <= i < |s| && 0 <= j < |s| && s[i] < s[j]
    ensures !Sorted(Reverse(s))
  {
    assert i < j;
    ReverseAt(s, |s| - 1 - i);
    ReverseAt(s, |s| - 1 - j);
    assert Reverse(s)[|s| - 1 - j] == s[j] && Reverse(s)[|s| - 1 - i] == s[i];
  }

  /** As soon as an ordered tree holds two different elements, its copy is
      not ordered: the copy constructor does not produce a usable search
      tree. */
  lemma CopyOfOrderedTreeIsUnordered(t: Tree, a: int, b: int)
    requires Bst(t) && a in Elems(t) && b in Elems(t) && a < b
    ensures !Bst(Copy(t))
  {
    var s := InOrder(t);
    InOrderVisitsEachOnce(t);
    InOrderOfBstIsSorted(t);
    CopyReversesInOrder(t);
    assert a in multiset(s) && b in multiset(s);
    var i :| 0 <= i < |s| && s[i] == a;
    var j :| 0 <= j < |s| && s[j] == b;
    ReversedSortedIsUnsorted(s, i, j);
    if Bst(Copy(t)) {
      InOrderOfBstIsSorted(Copy(t));
    }
  }

  // ---------------------------------------------------------------------------
  // The strict ordering "left is smaller" holds only without duplicates
  // ---------------------------------------------------------------------------

  /** Everything on the left is `<` the node's element, nothing on the right
      is. */
  predicate StrictBst(t: Tree)
  {
    match t
    case Nil => true
    case Node(_, l, d, r) =>
      && StrictBst(l) && StrictBst(r)
      && (forall e | e in Elems(l) :: e < d)
      && (forall e | e in Elems(r) :: !(e < d))
  }

  /** Without duplicates the ordering the tree keeps is the strict one. */
  lemma {:induction false} DistinctOrderedTreeIsStrict(t: Tree)
    requires Bst(t) && forall e | e in Elems(t) :: Elems(t)[e] == 1
    ensures StrictBst(t)
  {
    match t
    case Nil =>
    case Node(_, l, d, r) =>
      forall e | e in Elems(l) ensures Elems(l)[e] == 1 {
        assert Elems(t)[e] == Elems(l)[e] + multiset{d}[e] + Elems(r)[e];
      }
      forall e | e in Elems(r) ensures Elems(r)[e] == 1 {
        assert Elems(t)[e] == Elems(l)[e] + multiset{d}[e] + Elems(r)[e];
      }
      DistinctOrderedTreeIsStrict(l);
      DistinctOrderedTreeIsStrict(r);
      assert Elems(t)[d] == Elems(l)[d] + 1 + Elems(r)[d];
      assert d !in Elems(l);
  }

  /** Inserting 5 three times: the third insertion makes the root
      right-heavy, the left rotation lifts the second 5 above the first, and
      the first 5 now sits in the left subtree of an equal element. */
  lemma DuplicatesBreakStrictOrder()
    ensures StrictBst(Build([5, 5])) && !StrictBst(Build([5, 5, 5]))
  {
    var leaf := Node(1, Nil, 5, Nil);
    var two := Node(2, Nil, 5, leaf);
    assert [5, 5][..1] == [5] && [5][..0] == [];
    assert Build([5]) == leaf;
    assert Build([5, 5]) == two;
    assert [5, 5, 5][..2] == [5, 5];
    assert Insert(leaf, 5) == two;
    var three := Node(3, Nil, 5, two);
    assert FixHeight(Node(2, Nil, 5, two)) == three;
    assert Build([5, 5, 5]) == Node(2, leaf, 5, leaf);
  }

  // ---------------------------------------------------------------------------
  // The height of an AVL tree is logarithmic in its size
  // ---------------------------------------------------------------------------

  /** The fewest nodes a tree of height `h` with correct heights and balance
      factors in {-1, 0, 1} can have. */
  function MinSize(h: nat): nat
  {
    if h == 0 then 0 else if h == 1 then 1 else 1 + MinSize(h - 1) + MinSize(h - 2)
  }

  function Pow2(n: nat): nat
  {
    if n == 0 then 1 else 2 * Pow2(n - 1)
  }

  lemma {:induction false} MinSizeMonotone(a: nat, b: nat)
    requires a <= b
    ensures MinSize(a) <= MinSize(b)
  {
    if a < b {
      MinSizeMonotone(a, b - 1);
    }
  }

  lemma {:induction false} AvlHasAtLeastMinSize(t: Tree)
    requires HeightsOk(t) && Balanced(t)
    ensures Size(t) >= MinSize(Height(t))
  {
    match t
    case Nil =>
    case Node(h, l, _, r) =>
      AvlHasAtLeastMinSize(l);
      AvlHasAtLeastMinSize(r);
      if h >= 2 {
        MinSizeMonotone(h - 2, Height(l));
        MinSizeMonotone(h - 2, Height(r));
      }
  }

  lemma {:induction false} MinSizeIsExponential(h: nat)
    ensures MinSize(h) + 1 >= Pow2(h / 2)
  {
    if h >= 2 {
      MinSizeIsExponential(h - 2);
      MinSizeMonotone(h - 2, h - 1);
      assert (h - 2) / 2 + 1 == h / 2;
    }
  }

  /** An AVL tree of height `h` holds at least 2^(h/2) - 1 elements, so its
      height is at most about twice the logarithm of its size. */
  lemma AvlHeightIsLogarithmic(t: Tree)
    requires HeightsOk(t) && Balanced(t)
    ensures Pow2(Height(t) / 2) <= Size(t) + 1
  {
    AvlHasAtLeastMinSize(t);
    MinSizeIsExponential(Height(t));
  }

  /** Eleven elements never make an AVL tree taller than 4: a tree of height
      5 needs at least 12 nodes. */
  lemma ElevenElementsFitInHeightFour(t: Tree)
    requires HeightsOk(t) && Balanced(t) && Size(t) <= 11
    ensures Height(t) <= 4
  {
    AvlHasAtLeastMinSize(t);
    assert MinSize(2) == 2 && MinSize(3) == 4 && MinSize(4) == 7 && MinSize(5) == 12;
    if Height(t) >= 5 {
      MinSizeMonotone(5, Height(t));
    }
  }
}
