/**
 * The node record of the visualizer (`function Node` in js/binaryTree.js) and
 * the tree-completion pass `createData`. Nodes live in an arena: an index
 * stands for a reference to the node object at that position, so `left`,
 * `right` and `parent` are optional indices.
 */
module Nodes {
  import opened Wrappers
  import opened Lists

  datatype Side = Left | Right

  /**
   * An entry of a node's `children` list: another node of the arena, or one
   * of the hidden `"Empty"` placeholders that `createData` creates. A
   * placeholder's parent is the node whose list holds it, and its side is the
   * flag (`isLeft` or `isRight`) set on it.
   */
  datatype Child = Real(index: nat) | Empty(side: Side)

  /** `isLeft`/`isRight` are `null` or `true` in the source; `false` stands for `null`. */
  datatype Node = Node(
    value: string,
    left: Option<nat>,
    right: Option<nat>,
    parent: Option<nat>,
    children: seq<Child>,
    isLeft: bool,
    isRight: bool)

  /** `new Node(value, null, null)`: no links, no parent, no children, no side flag. */
  function NewNode(value: string): Node {
    Node(value, None, None, None, [], false, false)
  }

  /** The `value` of every node, in arena order. */
  function Values(s: seq<Node>): seq<string> {
    seq(|s|, j requires 0 <= j < |s| => s[j].value)
  }

  /** Every node is as `new Node(value, null, null)` made it. */
  predicate Fresh(s: seq<Node>) {
    forall j | 0 <= j < |s| :: s[j] == NewNode(s[j].value)
  }

  function Slot(n: Node, side: Side): Option<nat> {
    if side == Left then n.left else n.right
  }

  /** `c` is the left or right child of `n`. */
  predicate IsChildLink(n: Node, c: nat) {
    n.left == Some(c) || n.right == Some(c)
  }

  predicate PointsForward(s: seq<Node>, j: nat)
    requires j < |s|
  {
    (s[j].left.Some? ==> j < s[j].left.value < |s|) && (s[j].right.Some? ==> j < s[j].right.value < |s|)
  }

  /** Every link points to a later node of the arena, so following links always ends. */
  predicate Forward(s: seq<Node>) {
    forall j | 0 <= j < |s| :: PointsForward(s, j)
  }

  function Targets(n: Node): set<nat> {
    (if n.left.Some? then {n.left.value} else {}) + (if n.right.Some? then {n.right.value} else {})
  }

  /** No node is the target of two links. */
  predicate SingleParent(s: seq<Node>) {
    && (forall j | 0 <= j < |s| :: s[j].left.Some? && s[j].right.Some? ==> s[j].left != s[j].right)
    && (forall j, k | 0 <= j < |s| && 0 <= k < |s| && j != k :: Targets(s[j]) !! Targets(s[k]))
  }

  /** The links form a forest: forward-pointing, one parent at most per node. */
  predicate IsTree(s: seq<Node>) {
    Forward(s) && SingleParent(s)
  }

  /** The two arenas have the same links (and length). */
  predicate SameLinks(s: seq<Node>, t: seq<Node>) {
    |s| == |t| && forall j | 0 <= j < |s| :: s[j].left == t[j].left && s[j].right == t[j].right
  }

  /** The indices of the subtree rooted at `j`, in in-order (left, node, right). */
  function InOrder(s: seq<Node>, j: nat): seq<nat>
    requires Forward(s) && j < |s|
    decreases |s| - j
  {
    assert PointsForward(s, j);
    (if s[j].left.Some? then InOrder(s, s[j].left.value) else [])
    + [j]
    + (if s[j].right.Some? then InOrder(s, s[j].right.value) else [])
  }

  /** `m` lies in the subtree rooted at `root` (none when `root` is null). */
  predicate Reaches(s: seq<Node>, root: Option<nat>, m: nat)
    requires Forward(s)
  {
    root.Some? && root.value < |s| && m in InOrder(s, root.value)
  }

  /** A subtree holds its root. */
  lemma RootReached(s: seq<Node>, j: nat)
    requires Forward(s) && j < |s|
    ensures Reaches(s, Some(j), j)
  {
    assert PointsForward(s, j);
    assert InOrder(s, j)[|(if s[j].left.Some? then InOrder(s, s[j].left.value) else [])|] == j;
  }

  /** A subtree holds only its root and later nodes. */
  lemma {:induction false} InOrderBounds(s: seq<Node>, j: nat)
    requires Forward(s) && j < |s|
    ensures forall x | x in InOrder(s, j) :: j <= x < |s|
    decreases |s| - j
  {
    assert PointsForward(s, j);
    if s[j].left.Some? { InOrderBounds(s, s[j].left.value); }
    if s[j].right.Some? { InOrderBounds(s, s[j].right.value); }
  }

  /** The subtrees depend on the links only. */
  lemma {:induction false} InOrderSameLinks(s: seq<Node>, t: seq<Node>, j: nat)
    requires Forward(s) && SameLinks(s, t) && j < |s|
    ensures Forward(t) && InOrder(s, j) == InOrder(t, j)
    decreases |s| - j
  {
    assert forall k | 0 <= k < |s| :: PointsForward(s, k) == PointsForward(t, k);
    assert PointsForward(s, j);
    if s[j].left.Some? { InOrderSameLinks(s, t, s[j].left.value); }
    if s[j].right.Some? { InOrderSameLinks(s, t, s[j].right.value); }
  }

  /** The subtree of a node inside the subtree of `x` lies inside it too. */
  lemma {:induction false} SubtreeWithin(s: seq<Node>, x: nat, m: nat, y: nat)
    requires Forward(s) && x < |s| && m < |s| && m in InOrder(s, x) && y in InOrder(s, m)
    ensures y in InOrder(s, x)
    decreases |s| - m
  {
    assert PointsForward(s, m);
    if y != m {
      if s[m].left.Some? && y in InOrder(s, s[m].left.value) {
        ChildInSubtree(s, x, m, s[m].left.value);
        SubtreeWithin(s, x, s[m].left.value, y);
      } else {
        ChildInSubtree(s, x, m, s[m].right.value);
        SubtreeWithin(s, x, s[m].right.value, y);
      }
    }
  }

  /** In a forest the in-order listing of a subtree names each of its nodes once. */
  lemma {:induction false} InOrderDistinct(s: seq<Node>, j: nat)
    requires IsTree(s) && j < |s|
    ensures Distinct(InOrder(s, j))
    decreases |s| - j
  {
    assert PointsForward(s, j);
    var l := if s[j].left.Some? then InOrder(s, s[j].left.value) else [];
    var r := if s[j].right.Some? then InOrder(s, s[j].right.value) else [];
    if s[j].left.Some? {
      InOrderDistinct(s, s[j].left.value);
      InOrderBounds(s, s[j].left.value);
    }
    if s[j].right.Some? {
      InOrderDistinct(s, s[j].right.value);
      InOrderBounds(s, s[j].right.value);
    }
    if s[j].left.Some? && s[j].right.Some? {
      forall m ensures !(m in l && m in r) {
        SiblingsDisjoint(s, j, m);
      }
    }
    DistinctConcat(l, [j], r);
  }

  /** A node inside a subtree, other than its root, is linked from a node of that subtree. */
  lemma {:induction false} ParentWithin(s: seq<Node>, x: nat, m: nat) returns (q: nat)
    requires Forward(s) && x < |s| && m in InOrder(s, x) && m != x
    ensures q < |s| && q in InOrder(s, x) && IsChildLink(s[q], m)
    decreases |s| - x
  {
    assert PointsForward(s, x);
    var n := s[x];
    if n.left.Some? && m in InOrder(s, n.left.value) {
      var l := n.left.value;
      if m == l { q := x; } else {
        q := ParentWithin(s, l, m);
        InOrderBounds(s, l);
      }
    } else {
      var r := n.right.value;
      if m == r { q := x; } else {
        q := ParentWithin(s, r, m);
        InOrderBounds(s, r);
      }
    }
  }

  /** In a forest the two subtrees below a node share no node. */
  lemma {:induction false} SiblingsDisjoint(s: seq<Node>, j: nat, m: nat)
    requires IsTree(s) && j < |s| && PointsForward(s, j) && s[j].left.Some? && s[j].right.Some?
    ensures !(m in InOrder(s, s[j].left.value) && m in InOrder(s, s[j].right.value))
    decreases m
  {
    assert PointsForward(s, j);
    var l, r := s[j].left.value, s[j].right.value;
    if m in InOrder(s, l) && m in InOrder(s, r) {
      InOrderBounds(s, l);
      InOrderBounds(s, r);
      assert l != r;
      if m == l {
        var q := ParentWithin(s, r, l);
        assert false;
      } else if m == r {
        var q := ParentWithin(s, l, r);
        assert false;
      } else {
        var q1 := ParentWithin(s, l, m);
        var q2 := ParentWithin(s, r, m);
        assert m in Targets(s[q1]) && m in Targets(s[q2]);
        assert q1 == q2;
        assert PointsForward(s, q1);
        SiblingsDisjoint(s, j, q1);
      }
    }
  }

  /**
   * The `children` list `createData` leaves on a node: the left child is
   * pushed, then an `"Empty"` right placeholder if there is no right child;
   * the right child is pushed, then an `"Empty"` left placeholder is put in
   * front if there is no left child.
   */
  function CompletedChildren(n: Node): seq<Child> {
    var afterLeft :=
      if n.left.Some? then n.children + [Real(n.left.value)] + (if n.right.None? then [Empty(Right)] else [])
      else n.children;
    if n.right.Some? then
      if n.left.None? then [Empty(Left)] + afterLeft + [Real(n.right.value)] else afterLeft + [Real(n.right.value)]
    else afterLeft
  }

  /**
   * The shape a completed node shows when it started without children: both
   * children, left child and right placeholder, left placeholder and right
   * child, or nothing for a leaf.
   */
  predicate InRenderShape(n: Node, children: seq<Child>) {
    match (n.left, n.right)
    case (Some(l), Some(r)) => children == [Real(l), Real(r)]
    case (Some(l), None) => children == [Real(l), Empty(Right)]
    case (None, Some(r)) => children == [Empty(Left), Real(r)]
    case (None, None) => children == []
  }

  /** A node that started with no children shows one of the four render shapes once completed. */
  lemma CompletedFromEmpty(n: Node)
    requires n.children == []
    ensures InRenderShape(n, CompletedChildren(n))
  {
  }

  /** Nothing but `children` and `parent` differs between the two arenas. */
  predicate SameSkeleton(s: seq<Node>, t: seq<Node>) {
    |s| == |t| &&
    forall j | 0 <= j < |s| ::
      s[j].value == t[j].value && s[j].left == t[j].left && s[j].right == t[j].right
      && s[j].isLeft == t[j].isLeft && s[j].isRight == t[j].isRight
  }

  /** `createData` has completed `children` exactly on the nodes of the subtree of `root`. */
  ghost predicate ChildrenDone(s: seq<Node>, t: seq<Node>, root: Option<nat>)
    requires Forward(s) && |s| == |t|
  {
    forall m | 0 <= m < |s| :: t[m].children == if Reaches(s, root, m) then CompletedChildren(s[m]) else s[m].children
  }

  /** Every child of a node of the subtree of `root` has that node as its parent. */
  ghost predicate ParentsSet(s: seq<Node>, t: seq<Node>, root: Option<nat>)
    requires Forward(s) && |s| == |t|
  {
    forall m, c: nat {:trigger IsChildLink(s[m], c)} | 0 <= m < |s| && Reaches(s, root, m) && IsChildLink(s[m], c) :: c < |t| && t[c].parent == Some(m)
  }

  /** One instance of `ParentsSet`, for callers whose `root` is a literal. */
  lemma ParentSetAt(s: seq<Node>, t: seq<Node>, root: Option<nat>, m: nat, c: nat)
    requires Forward(s) && |s| == |t| && ParentsSet(s, t, root)
    requires m < |s| && Reaches(s, root, m) && IsChildLink(s[m], c)
    ensures c < |t| && t[c].parent == Some(m)
  {
  }

  /** Only the parents of the non-root nodes of the subtree of `root` may differ. */
  ghost predicate OtherParentsKept(s: seq<Node>, t: seq<Node>, root: Option<nat>)
    requires Forward(s) && |s| == |t|
  {
    forall c | 0 <= c < |s| && !(Reaches(s, root, c) && root != Some(c)) :: t[c].parent == s[c].parent
  }

  /**
   * `createData(node)`: a pre-order pass over the subtree of `node` that
   * completes each node's `children` and sets `parent` on each real child. It
   * stops at a null subtree and never descends into a placeholder.
   */
  method CreateData(a: array<Node>, node: Option<nat>)
    requires IsTree(a[..])
    requires node.Some? ==> node.value < a.Length
    modifies a
    decreases if node.Some? then a.Length - node.value else 0
    ensures SameSkeleton(old(a[..]), a[..])
    ensures ChildrenDone(old(a[..]), a[..], node)
    ensures ParentsSet(old(a[..]), a[..], node)
    ensures OtherParentsKept(old(a[..]), a[..], node)
  {
    if node.None? {
      return;
    }
    var j := node.value;
    ghost var s0 := a[..];
    VisitNode(a, j);
    ghost var s1 := a[..];
    VisitOne(s0, j);
    SubtreesOf(s0, s1, j);
    var left, right := a[j].left, a[j].right;
    CreateData(a, left);
    ghost var s2 := a[..];
    SubtreesOf(s0, s2, j);
    CreateData(a, right);
    ghost var s3 := a[..];
    CombineVisit(s0, s1, s2, s3, j);
  }

  lemma ForwardSameLinks(s: seq<Node>, t: seq<Node>)
    requires Forward(s) && SameLinks(s, t)
    ensures Forward(t)
  {
    assert forall k | 0 <= k < |s| :: PointsForward(s, k) == PointsForward(t, k);
  }

  /** Sets the parent of the left child of `j` to `j`. */
  function AdoptLeft(s: seq<Node>, j: nat): (t: seq<Node>)
    requires Forward(s) && j < |s|
    ensures SameLinks(s, t) && Forward(t) && t[j] == s[j]
  {
    assert PointsForward(s, j);
    var t := if s[j].left.Some? then s[s[j].left.value := s[s[j].left.value].(parent := Some(j))] else s;
    ForwardSameLinks(s, t);
    t
  }

  /** Sets the parent of the right child of `j` to `j`. */
  function AdoptRight(s: seq<Node>, j: nat): (t: seq<Node>)
    requires Forward(s) && j < |s|
    ensures SameLinks(s, t) && Forward(t) && t[j] == s[j]
  {
    assert PointsForward(s, j);
    var t := if s[j].right.Some? then s[s[j].right.value := s[s[j].right.value].(parent := Some(j))] else s;
    ForwardSameLinks(s, t);
    t
  }

  /** The arena after the visit of node `j` alone. */
  function Visited(s: seq<Node>, j: nat): (t: seq<Node>)
    requires Forward(s) && j < |s|
  {
    var t := AdoptRight(AdoptLeft(s, j), j);
    t[j := t[j].(children := CompletedChildren(s[j]))]
  }

  /**
   * The body of `createData` for one node: push the left child and set its
   * parent, push an `"Empty"` right placeholder when there is no right child,
   * push the right child and set its parent, put an `"Empty"` left
   * placeholder in front when there is no left child.
   */
  method VisitNode(a: array<Node>, j: nat)
    requires Forward(a[..]) && j < a.Length
    modifies a
    ensures a[..] == Visited(old(a[..]), j)
  {
    ghost var s0 := a[..];
    assert PointsForward(s0, j);
    var n := a[j];
    var children := n.children;
    if n.left.Some? {
      var l := n.left.value;
      children := children + [Real(l)];
      a[l] := a[l].(parent := Some(j));
      if n.right.None? {
        children := children + [Empty(Right)];
      }
    }
    assert a[..] == AdoptLeft(s0, j);
    if n.right.Some? {
      var r := n.right.value;
      children := children + [Real(r)];
      a[r] := a[r].(parent := Some(j));
      if n.left.None? {
        children := [Empty(Left)] + children;
      }
    }
    assert a[..] == AdoptRight(AdoptLeft(s0, j), j);
    assert children == CompletedChildren(s0[j]);
    a[j] := a[j].(children := children);
  }

  lemma VisitOne(s: seq<Node>, j: nat)
    requires Forward(s) && j < |s|
    ensures VisitedNode(s, Visited(s, j), j)
  {
    assert PointsForward(s, j);
    var t1 := AdoptLeft(s, j);
    assert forall k | 0 <= k < |s| :: PointsForward(s, k) == PointsForward(t1, k);
  }

  /** The effect of the visit of node `j` itself: its children completed, its children's parent set. */
  ghost predicate VisitedNode(s: seq<Node>, t: seq<Node>, j: nat)
    requires j < |s|
  {
    && SameSkeleton(s, t)
    && t[j].children == CompletedChildren(s[j])
    && (forall m | 0 <= m < |s| && m != j :: t[m].children == s[m].children)
    && (forall m | 0 <= m < |s| && !IsChildLink(s[j], m) :: t[m].parent == s[m].parent)
    && (forall c: nat | IsChildLink(s[j], c) :: c < |t| && t[c].parent == Some(j))
  }

  /**
   * The subtree of `j` is `j` plus its two child subtrees, which are disjoint
   * and do not contain `j`; an arena with the same links has the same subtrees.
   */
  lemma SubtreesOf(s: seq<Node>, t: seq<Node>, j: nat)
    requires IsTree(s) && j < |s| && SameSkeleton(s, t)
    ensures IsTree(t) && PointsForward(s, j) && t[j].left == s[j].left && t[j].right == s[j].right
    ensures forall m :: Reaches(s, Some(j), m) == Reaches(t, Some(j), m)
    ensures forall m :: Reaches(s, s[j].left, m) == Reaches(t, t[j].left, m)
    ensures forall m :: Reaches(s, s[j].right, m) == Reaches(t, t[j].right, m)
    ensures forall m :: Reaches(s, Some(j), m) <==> m == j || Reaches(s, s[j].left, m) || Reaches(s, s[j].right, m)
    ensures forall m :: !(Reaches(s, s[j].left, m) && Reaches(s, s[j].right, m))
    ensures !Reaches(s, s[j].left, j) && !Reaches(s, s[j].right, j)
  {
    assert SameLinks(s, t);
    assert forall k | 0 <= k < |s| :: Targets(s[k]) == Targets(t[k]);
    InOrderSameLinks(s, t, j);
    assert PointsForward(s, j);
    if s[j].left.Some? {
      InOrderSameLinks(s, t, s[j].left.value);
      InOrderBounds(s, s[j].left.value);
    }
    if s[j].right.Some? {
      InOrderSameLinks(s, t, s[j].right.value);
      InOrderBounds(s, s[j].right.value);
    }
    if s[j].left.Some? && s[j].right.Some? {
      forall m ensures !(Reaches(s, s[j].left, m) && Reaches(s, s[j].right, m)) {
        SiblingsDisjoint(s, j, m);
      }
    }
  }

  /** The visit of `j` followed by the passes over its two subtrees is the pass over the subtree of `j`. */
  lemma CombineVisit(s0: seq<Node>, s1: seq<Node>, s2: seq<Node>, s3: seq<Node>, j: nat)
    requires IsTree(s0) && j < |s0| && VisitedNode(s0, s1, j)
    requires SameSkeleton(s1, s2) && SameSkeleton(s2, s3) && IsTree(s1) && IsTree(s2)
    requires ChildrenDone(s1, s2, s1[j].left) && ChildrenDone(s2, s3, s2[j].right)
    requires ParentsSet(s1, s2, s1[j].left) && OtherParentsKept(s1, s2, s1[j].left)
    requires ParentsSet(s2, s3, s2[j].right) && OtherParentsKept(s2, s3, s2[j].right)
    ensures SameSkeleton(s0, s3)
    ensures ChildrenDone(s0, s3, Some(j))
    ensures ParentsSet(s0, s3, Some(j))
    ensures OtherParentsKept(s0, s3, Some(j))
  {
    CombineChildren(s0, s1, s2, s3, j);
    CombineParentsSet(s0, s1, s2, s3, j);
    CombineParentsKept(s0, s1, s2, s3, j);
  }

  lemma CombineChildren(s0: seq<Node>, s1: seq<Node>, s2: seq<Node>, s3: seq<Node>, j: nat)
    requires IsTree(s0) && j < |s0| && VisitedNode(s0, s1, j)
    requires SameSkeleton(s1, s2) && SameSkeleton(s2, s3) && IsTree(s1) && IsTree(s2)
    requires ChildrenDone(s1, s2, s1[j].left) && ChildrenDone(s2, s3, s2[j].right)
    ensures ChildrenDone(s0, s3, Some(j))
  {
    SubtreesOf(s0, s1, j);
    SubtreesOf(s0, s2, j);
    forall m | 0 <= m < |s0|
      ensures s3[m].children == if Reaches(s0, Some(j), m) then CompletedChildren(s0[m]) else s0[m].children
    {
      if m != j {
        assert CompletedChildren(s1[m]) == CompletedChildren(s0[m]);
        if Reaches(s0, s0[j].left, m) {
          assert s2[m].children == CompletedChildren(s1[m]);
        }
      }
    }
  }

  lemma CombineParentsSet(s0: seq<Node>, s1: seq<Node>, s2: seq<Node>, s3: seq<Node>, j: nat)
    requires IsTree(s0) && j < |s0| && VisitedNode(s0, s1, j)
    requires SameSkeleton(s1, s2) && SameSkeleton(s2, s3) && IsTree(s1) && IsTree(s2)
    requires ParentsSet(s1, s2, s1[j].left) && OtherParentsKept(s1, s2, s1[j].left)
    requires ParentsSet(s2, s3, s2[j].right) && OtherParentsKept(s2, s3, s2[j].right)
    ensures ParentsSet(s0, s3, Some(j))
  {
    SubtreesOf(s0, s1, j);
    SubtreesOf(s0, s2, j);
    var left, right := s0[j].left, s0[j].right;
    forall m, c: nat | 0 <= m < |s0| && Reaches(s0, Some(j), m) && IsChildLink(s0[m], c)
      ensures c < |s3| && s3[c].parent == Some(m)
    {
      assert PointsForward(s0, m);
      if m == j {
        ChildInSameSubtree(s0, Some(j), j, c);
        assert s1[c].parent == Some(j);
        if left == Some(c) {
          InOrderBounds(s0, c);
          assert Reaches(s0, left, c);
          assert !Reaches(s0, right, c);
        } else {
          InOrderBounds(s0, c);
          assert Reaches(s0, right, c);
          assert !Reaches(s0, left, c);
        }
        assert s2[c].parent == s1[c].parent;
      } else if Reaches(s0, left, m) {
        ChildInSameSubtree(s0, left, m, c);
        assert IsChildLink(s1[m], c);
        assert s2[c].parent == Some(m);
        assert !Reaches(s0, right, c);
      } else {
        ChildInSameSubtree(s0, right, m, c);
        assert IsChildLink(s2[m], c);
      }
    }
  }

  lemma CombineParentsKept(s0: seq<Node>, s1: seq<Node>, s2: seq<Node>, s3: seq<Node>, j: nat)
    requires IsTree(s0) && j < |s0| && VisitedNode(s0, s1, j)
    requires SameSkeleton(s1, s2) && SameSkeleton(s2, s3) && IsTree(s1) && IsTree(s2)
    requires OtherParentsKept(s1, s2, s1[j].left) && OtherParentsKept(s2, s3, s2[j].right)
    ensures OtherParentsKept(s0, s3, Some(j))
  {
    SubtreesOf(s0, s1, j);
    SubtreesOf(s0, s2, j);
    forall c: nat | IsChildLink(s0[j], c) ensures Reaches(s0, Some(j), c) && c != j {
      ChildInSameSubtree(s0, Some(j), j, c);
    }
  }

  /** A child of a node of a subtree is in that subtree too, and is not its root. */
  lemma ChildInSameSubtree(s: seq<Node>, root: Option<nat>, m: nat, c: nat)
    requires Forward(s) && m < |s| && Reaches(s, root, m) && IsChildLink(s[m], c)
    ensures Reaches(s, root, c) && root != Some(c)
  {
    ChildInSubtree(s, root.value, m, c);
    InOrderBounds(s, root.value);
    assert PointsForward(s, m);
  }

  lemma {:induction false} ChildInSubtree(s: seq<Node>, x: nat, m: nat, c: nat)
    requires Forward(s) && x < |s| && m < |s| && m in InOrder(s, x) && IsChildLink(s[m], c)
    ensures c in InOrder(s, x)
    decreases |s| - x
  {
    assert PointsForward(s, x);
    if m != x {
      if s[x].left.Some? && m in InOrder(s, s[x].left.value) {
        ChildInSubtree(s, s[x].left.value, m, c);
      } else {
        ChildInSubtree(s, s[x].right.value, m, c);
      }
    }
  }
}
