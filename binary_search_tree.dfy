/**
 * `createBST` and `nodeDirectionBST` of js/binaryTree.js. Without `"null"`
 * entries the first node is the root and every later node is inserted by
 * walking down from the root: at each node the entry goes left when its key
 * is below the node's key and right otherwise (equal keys go right). With a
 * `"null"` entry the list is built in level order instead; repeated values
 * (other than `"null"`) are refused.
 *
 * Keys follow the source: a numeric value is its number, a non-numeric value
 * inserted is the text comparison (`-1`, `0` or `1`) with the node's value,
 * and a node whose value is not numeric has key `0`. Such keys need not be
 * transitive, so the search property is stated node by node: everything below
 * a node's left (right) link went left (right) when it passed that node.
 */
module BinarySearchTree {
  import opened Wrappers
  import opened Lists
  import opened JsText
  import opened Nodes
  import LevelOrder

  /** `b` of `nodeDirectionBST`: the number of the node's value, `0` when it is not numeric. */
  function RootKey(w: string): real {
    if IsNumeric(w) then NumVal(w) else 0.0
  }

  /** `a` of `nodeDirectionBST` for an entry other than `"null"`: its number, or else its text comparison with the node's value. */
  function Key(v: string, w: string): real {
    if IsNumeric(v) then NumVal(v) else CompareText(v, w) as real
  }

  /** Where an entry other than `"null"` goes at a node holding `w`. */
  function SideFor(v: string, w: string): Side {
    if Key(v, w) < RootKey(w) then Left else Right
  }

  /**
   * Where entry `v` goes at a node holding `w` whose left link is free
   * (`leftFree`): a `"null"` entry has key `-1` there, or `1` when the left
   * link is taken.
   */
  function Direction(v: string, w: string, leftFree: bool): Side {
    if v == "null" then (if (if leftFree then -1.0 else 1.0) < RootKey(w) then Left else Right)
    else SideFor(v, w)
  }

  /**
   * The node and side where `nodeDirectionBST(root, node)` attaches `node`:
   * it follows the entry's direction until the link on that side is free.
   */
  function AttachPoint(s: seq<Node>, r: nat, node: nat): (p: (nat, Side))
    requires Forward(s) && r < |s| && node < |s|
    ensures p.0 < |s| && p.0 in InOrder(s, r) && Slot(s[p.0], p.1).None?
    decreases |s| - r
  {
    assert PointsForward(s, r);
    var side := Direction(s[node].value, s[r].value, s[r].left.None?);
    match Slot(s[r], side)
    case None => (r, side)
    case Some(c) => AttachPoint(s, c, node)
  }

  /** `p.left = node; node.isLeft = true` (or the right-hand pair). */
  function Link(s: seq<Node>, p: nat, node: nat, side: Side): seq<Node>
    requires p < |s| && node < |s|
  {
    var s' := s[p := if side == Left then s[p].(left := Some(node)) else s[p].(right := Some(node))];
    s'[node := if side == Left then s'[node].(isLeft := true) else s'[node].(isRight := true)]
  }

  /** The arena after `nodeDirectionBST(root, node)`. */
  function Inserted(s: seq<Node>, r: nat, node: nat): seq<Node>
    requires Forward(s) && r < |s| && node < |s|
  {
    var (p, side) := AttachPoint(s, r, node);
    Link(s, p, node, side)
  }

  /**
   * `nodeDirectionBST(root, node)`: compares the keys at `root` and either
   * attaches `node` on the free side or recurses into the child on that side.
   */
  method NodeDirectionBST(a: array<Node>, root: nat, node: nat)
    requires Forward(a[..]) && root < a.Length && node < a.Length
    modifies a
    ensures a[..] == Inserted(old(a[..]), root, node)
    decreases a.Length - root
  {
    assert PointsForward(a[..], root);
    var key: real;
    if a[node].value == "null" {
      key := if a[root].left.None? then -1.0 else 1.0;
    } else {
      var n := ToNumber(a[node].value);
      key := if n.Some? then n.value else CompareText(a[node].value, a[root].value) as real;
    }
    var b := ToNumber(a[root].value);
    var rootKey := if b.Some? then b.value else 0.0;
    if key < rootKey {
      if a[root].left.None? {
        a[root] := a[root].(left := Some(node));
        a[node] := a[node].(isLeft := true);
      } else {
        NodeDirectionBST(a, a[root].left.value, node);
      }
    } else if key > rootKey {
      if a[root].right.None? {
        a[root] := a[root].(right := Some(node));
        a[node] := a[node].(isRight := true);
      } else {
        NodeDirectionBST(a, a[root].right.value, node);
      }
    } else {
      if a[root].right.None? {
        a[root] := a[root].(right := Some(node));
        a[node] := a[node].(isRight := true);
      } else {
        NodeDirectionBST(a, a[root].right.value, node);
      }
    }
  }

  /** `Link` changes the two nodes it names: one link of `p`, one side flag of `node`. */
  lemma LinkFrame(s: seq<Node>, p: nat, node: nat, side: Side)
    requires Forward(s) && p < node < |s| && s[node].left.None? && s[node].right.None?
    ensures var t := Link(s, p, node, side);
      && |t| == |s| && Forward(t)
      && (forall j | 0 <= j < |s| :: t[j].value == s[j].value && t[j].parent == s[j].parent && t[j].children == s[j].children)
      && (forall j | 0 <= j < |s| && j != p :: t[j].left == s[j].left && t[j].right == s[j].right)
      && Slot(t[p], side) == Some(node) && Slot(t[p], Other(side)) == Slot(s[p], Other(side))
  {
    var t := Link(s, p, node, side);
    forall j | 0 <= j < |t| ensures PointsForward(t, j) {
      assert PointsForward(s, j);
    }
  }

  function Other(side: Side): Side {
    if side == Left then Right else Left
  }

  /**
   * After linking `node` below `p`, the subtree of `z` gains `node` exactly
   * when it held `p`.
   */
  lemma {:induction false} LinkReach(s: seq<Node>, p: nat, node: nat, side: Side, z: nat)
    requires Forward(s) && p < node < |s| && s[node].left.None? && s[node].right.None?
    requires Slot(s[p], side).None? && z < |s|
    ensures Forward(Link(s, p, node, side))
    ensures forall y :: y in InOrder(Link(s, p, node, side), z) <==> y in InOrder(s, z) || (y == node && p in InOrder(s, z))
    decreases |s| - z
  {
    var t := Link(s, p, node, side);
    LinkFrame(s, p, node, side);
    assert PointsForward(s, z);
    assert InOrder(t, node) == [node];
    if z == p {
      var c := Slot(s[p], Other(side));
      if c.Some? {
        LinkReach(s, p, node, side, c.value);
        InOrderBounds(s, c.value);
      }
      if side == Left {
        assert InOrder(t, p) == [node] + [p] + (if c.Some? then InOrder(t, c.value) else []);
        assert InOrder(s, p) == [p] + (if c.Some? then InOrder(s, c.value) else []);
      } else {
        assert InOrder(t, p) == (if c.Some? then InOrder(t, c.value) else []) + [p] + [node];
        assert InOrder(s, p) == (if c.Some? then InOrder(s, c.value) else []) + [p];
      }
    } else if z != node {
      if s[z].left.Some? {
        LinkReach(s, p, node, side, s[z].left.value);
      }
      if s[z].right.Some? {
        LinkReach(s, p, node, side, s[z].right.value);
      }
    }
  }

  /** Linking a node nobody links to, on a free side, keeps the arena a forest. */
  lemma LinkTree(s: seq<Node>, p: nat, node: nat, side: Side)
    requires IsTree(s) && p < node < |s| && s[node].left.None? && s[node].right.None?
    requires Slot(s[p], side).None? && forall j | 0 <= j < |s| :: node !in Targets(s[j])
    ensures IsTree(Link(s, p, node, side))
  {
    var t := Link(s, p, node, side);
    LinkFrame(s, p, node, side);
    assert Targets(t[p]) == Targets(s[p]) + {node};
    assert forall j | 0 <= j < |s| && j != p :: Targets(t[j]) == Targets(s[j]);
  }

  /**
   * Every node on the way from `r` to the attachment point sent the entry
   * towards it: if the attachment point is on side `d` of `x` (or is `x`,
   * with `node` attached on side `d`), the entry goes to side `d` at `x`.
   */
  lemma {:induction false} PathAt(s: seq<Node>, r: nat, node: nat, x: nat)
    requires IsTree(s) && r < |s| && node < |s| && s[node].value != "null" && x < |s| && x in InOrder(s, r)
    ensures var (p, side) := AttachPoint(s, r, node);
      forall d: Side :: (x == p && side == d) || Reaches(s, Slot(s[x], d), p) ==> SideFor(s[node].value, s[x].value) == d
    decreases |s| - r
  {
    assert PointsForward(s, r);
    InOrderBounds(s, r);
    var (p, side) := AttachPoint(s, r, node);
    var side0 := Direction(s[node].value, s[r].value, s[r].left.None?);
    assert PointsForward(s, x);
    if Slot(s[x], Left).Some? { InOrderBounds(s, Slot(s[x], Left).value); }
    if Slot(s[x], Right).Some? { InOrderBounds(s, Slot(s[x], Right).value); }
    match Slot(s[r], side0)
    case None =>
      assert (p, side) == (r, side0);
    case Some(c) =>
      assert (p, side) == AttachPoint(s, c, node);
      InOrderBounds(s, c);
      var o := Slot(s[r], Other(side0));
      assert !(o.Some? && p in InOrder(s, o.value)) by {
        if o.Some? {
          SiblingsDisjoint(s, r, p);
        }
      }
      if x in InOrder(s, c) {
        PathAt(s, c, node, x);
      } else if x != r {
        assert o.Some? && x in InOrder(s, o.value);
        OffPath(s, o.value, x, p);
      }
  }

  /** A node of a subtree that does not hold `p` is not `p` and has nothing below it that is. */
  lemma OffPath(s: seq<Node>, o: nat, x: nat, p: nat)
    requires Forward(s) && o < |s| && x < |s| && x in InOrder(s, o) && p !in InOrder(s, o)
    ensures x != p && forall d: Side :: !Reaches(s, Slot(s[x], d), p)
  {
    forall d: Side | Reaches(s, Slot(s[x], d), p) ensures false {
      ChildInSubtree(s, o, x, Slot(s[x], d).value);
      SubtreeWithin(s, o, Slot(s[x], d).value, p);
    }
  }

  /**
   * The search property: whatever lies below side `d` of a node went to side
   * `d` when it was compared with that node.
   */
  ghost predicate SearchTree(s: seq<Node>)
    requires Forward(s)
  {
    forall x, y, d: Side | 0 <= x < |s| && 0 <= y < |s| && Reaches(s, Slot(s[x], d), y) :: SideFor(s[y].value, s[x].value) == d
  }

  /**
   * The arena after `createBST` has handled the first `k` entries of `s0`:
   * a forest whose tree at the root holds the root and the non-`"null"`
   * entries among them, with the unattached nodes untouched.
   */
  ghost predicate Grown(s0: seq<Node>, t: seq<Node>, k: nat) {
    && |t| == |s0| && 1 <= k <= |t|
    && IsTree(t)
    && (forall j | 0 <= j < |t| :: t[j].value == s0[j].value && t[j].parent == s0[j].parent && t[j].children == s0[j].children)
    && (forall j | k <= j < |t| :: t[j] == s0[j])
    && (forall y | 0 <= y < |t| :: Reaches(t, Some(0), y) <==> y == 0 || (y < k && s0[y].value != "null"))
    && (forall x | 0 <= x < |t| && !Reaches(t, Some(0), x) :: t[x].left.None? && t[x].right.None?)
  }

  lemma GrownInitially(s0: seq<Node>)
    requires Fresh(s0) && 1 <= |s0|
    ensures Grown(s0, s0, 1)
  {
    assert forall j | 0 <= j < |s0| :: s0[j] == NewNode(s0[j].value);
    assert InOrder(s0, 0) == [0];
  }

  /** Inserting entry `k` (not `"null"`) attaches it to the tree at the root and keeps a forest. */
  lemma InsertStep(s0: seq<Node>, t: seq<Node>, k: nat)
    requires Fresh(s0) && Grown(s0, t, k) && k < |t| && s0[k].value != "null"
    ensures Grown(s0, Inserted(t, 0, k), k + 1)
  {
    var (p, side) := AttachPoint(t, 0, k);
    assert t[k] == NewNode(s0[k].value);
    NotYetLinked(s0, t, k);
    LinkTree(t, p, k, side);
    StepFrame(s0, t, k, p, side);
    StepReach(s0, t, k, p, side);
    StepUnattached(s0, t, k, p, side);
  }

  /** The state an attachment of entry `k` below `p` starts from. */
  ghost predicate CanLink(s0: seq<Node>, t: seq<Node>, k: nat, p: nat, side: Side) {
    && Fresh(s0) && Grown(s0, t, k) && k < |t| && s0[k].value != "null"
    && p < |t| && p in InOrder(t, 0) && Slot(t[p], side).None?
  }

  lemma StepFrame(s0: seq<Node>, t: seq<Node>, k: nat, p: nat, side: Side)
    requires CanLink(s0, t, k, p, side)
    ensures var t' := Link(t, p, k, side);
      && Forward(t') && |t'| == |s0|
      && (forall j | 0 <= j < |t'| :: t'[j].value == s0[j].value && t'[j].parent == s0[j].parent && t'[j].children == s0[j].children)
      && (forall j | k + 1 <= j < |t'| :: t'[j] == s0[j])
  {
    assert p < k;
    assert t[k] == NewNode(s0[k].value);
    LinkFrame(t, p, k, side);
  }

  lemma StepReach(s0: seq<Node>, t: seq<Node>, k: nat, p: nat, side: Side)
    requires CanLink(s0, t, k, p, side)
    ensures Forward(Link(t, p, k, side))
    ensures forall y | 0 <= y < |t| :: Reaches(Link(t, p, k, side), Some(0), y) <==> y == 0 || (y < k + 1 && s0[y].value != "null")
  {
    assert p < k;
    assert t[k] == NewNode(s0[k].value);
    LinkReach(t, p, k, side, 0);
    var t' := Link(t, p, k, side);
    forall y | 0 <= y < |t| ensures Reaches(t', Some(0), y) <==> y == 0 || (y < k + 1 && s0[y].value != "null") {
      assert y in InOrder(t', 0) <==> y in InOrder(t, 0) || y == k;
      assert y in InOrder(t, 0) <==> Reaches(t, Some(0), y);
    }
  }

  lemma StepUnattached(s0: seq<Node>, t: seq<Node>, k: nat, p: nat, side: Side)
    requires CanLink(s0, t, k, p, side)
    ensures Forward(Link(t, p, k, side))
    ensures var t' := Link(t, p, k, side);
      forall x | 0 <= x < |t'| && !Reaches(t', Some(0), x) :: t'[x].left.None? && t'[x].right.None?
  {
    assert p < k;
    assert t[k] == NewNode(s0[k].value);
    LinkReach(t, p, k, side, 0);
    LinkFrame(t, p, k, side);
  }

  /** An entry not yet inserted is the child of no node. */
  lemma NotYetLinked(s0: seq<Node>, t: seq<Node>, k: nat)
    requires Grown(s0, t, k) && k < |t|
    ensures forall j | 0 <= j < |t| :: k !in Targets(t[j])
  {
    forall j | 0 <= j < |t| ensures k !in Targets(t[j]) {
      if Reaches(t, Some(0), j) {
        forall c | c in Targets(t[j]) ensures c != k {
          ChildInSubtree(t, 0, j, c);
          assert Reaches(t, Some(0), c);
        }
      } else {
        assert Targets(t[j]) == {};
      }
    }
  }

  /** A `"null"` entry is skipped. */
  lemma GrownSkip(s0: seq<Node>, t: seq<Node>, k: nat)
    requires Grown(s0, t, k) && k < |t| && s0[k].value == "null"
    ensures Grown(s0, t, k + 1)
  {
    assert !Reaches(t, Some(0), k);
  }

  /**
   * The side flags match the links: the target of a left link has `isLeft`
   * set and `isRight` clear, and the other way round for a right link.
   */
  ghost predicate SidesFlagged(t: seq<Node>) {
    forall m: nat, c: nat {:trigger IsChildLink(t[m], c)} | m < |t| && IsChildLink(t[m], c) ::
      c < |t| && t[c].isLeft == (t[m].left == Some(c)) && t[c].isRight == (t[m].right == Some(c))
  }

  /**
   * The flags while `createBST` inserts: set exactly on the nodes attached
   * below another node, with the root and the unattached nodes unflagged.
   */
  ghost predicate Flagged(t: seq<Node>)
    requires Forward(t)
  {
    && 0 < |t| && SidesFlagged(t) && !t[0].isLeft && !t[0].isRight
    && (forall x | 0 <= x < |t| && !Reaches(t, Some(0), x) :: !t[x].isLeft && !t[x].isRight)
  }

  lemma FlaggedInitially(s0: seq<Node>)
    requires Fresh(s0) && 1 <= |s0|
    ensures Forward(s0) && Flagged(s0)
  {
    GrownInitially(s0);
    assert forall j | 0 <= j < |s0| :: s0[j] == NewNode(s0[j].value);
  }

  /** Attaching entry `k` flags it on the side of its new link and changes no other flag. */
  lemma InsertFlags(s0: seq<Node>, t: seq<Node>, k: nat)
    requires Fresh(s0) && Grown(s0, t, k) && k < |t| && s0[k].value != "null" && Flagged(t)
    ensures Grown(s0, Inserted(t, 0, k), k + 1) && Flagged(Inserted(t, 0, k))
  {
    InsertStep(s0, t, k);
    var (p, side) := AttachPoint(t, 0, k);
    var t' := Link(t, p, k, side);
    assert t[k] == NewNode(s0[k].value);
    NotYetLinked(s0, t, k);
    assert Reaches(t, Some(0), p);
    LinkFlags(t, p, k, side);
    forall x | 0 <= x < |t'| && !Reaches(t', Some(0), x) ensures !t'[x].isLeft && !t'[x].isRight {
      assert !Reaches(t, Some(0), x);
    }
  }

  /** Linking a node no link targets yet, with no flag set, flags it on its side and keeps the flags matching. */
  lemma LinkFlags(t: seq<Node>, p: nat, k: nat, side: Side)
    requires p < |t| && k < |t| && p != k && SidesFlagged(t) && Slot(t[p], side).None?
    requires !t[k].isLeft && !t[k].isRight && forall j | 0 <= j < |t| :: k !in Targets(t[j])
    ensures SidesFlagged(Link(t, p, k, side))
  {
    var t' := Link(t, p, k, side);
    forall m: nat, c: nat | m < |t'| && IsChildLink(t'[m], c)
      ensures c < |t'| && t'[c].isLeft == (t'[m].left == Some(c)) && t'[c].isRight == (t'[m].right == Some(c))
    {
      if m != p || c != k {
        assert IsChildLink(t[m], c);
        assert c in Targets(t[m]);
      }
    }
  }

  /** One pair of the search property after an insertion. */
  lemma SearchPair(s0: seq<Node>, t: seq<Node>, k: nat, x: nat, y: nat, d: Side)
    requires Fresh(s0) && Grown(s0, t, k) && SearchTree(t) && k < |t| && s0[k].value != "null"
    requires Grown(s0, Inserted(t, 0, k), k + 1) && x < |t| && y < |t|
    requires Reaches(Inserted(t, 0, k), Slot(Inserted(t, 0, k)[x], d), y)
    ensures SideFor(Inserted(t, 0, k)[y].value, Inserted(t, 0, k)[x].value) == d
  {
    var (p, side) := AttachPoint(t, 0, k);
    var t' := Link(t, p, k, side);
    assert t[k] == NewNode(s0[k].value);
    LinkFrame(t, p, k, side);
    assert p < k;
    if x == p && d == side {
      LinkReach(t, p, k, side, k);
      assert InOrder(t, k) == [k];
      PathAt(t, 0, k, p);
    } else {
      SearchPairOld(s0, t, k, x, y, d);
    }
  }

  /** A pair through a link the insertion did not add. */
  lemma SearchPairOld(s0: seq<Node>, t: seq<Node>, k: nat, x: nat, y: nat, d: Side)
    requires Fresh(s0) && Grown(s0, t, k) && SearchTree(t) && k < |t| && s0[k].value != "null"
    requires Grown(s0, Inserted(t, 0, k), k + 1) && x < |t| && y < |t|
    requires Reaches(Inserted(t, 0, k), Slot(Inserted(t, 0, k)[x], d), y)
    requires (x, d) != AttachPoint(t, 0, k)
    ensures SideFor(Inserted(t, 0, k)[y].value, Inserted(t, 0, k)[x].value) == d
  {
    var (p, side) := AttachPoint(t, 0, k);
    var t' := Link(t, p, k, side);
    assert t[k] == NewNode(s0[k].value);
    LinkFrame(t, p, k, side);
    var z := Slot(t'[x], d).value;
    assert Slot(t'[x], d) == Slot(t[x], d);
    LinkReach(t, p, k, side, z);
    if y !in InOrder(t, z) {
      assert y == k && p in InOrder(t, z);
      assert Reaches(t, Some(0), x);
      PathAt(t, 0, k, x);
    }
  }

  /** Inserting an entry other than `"null"` keeps the search property. */
  lemma InsertKeepsSearch(s0: seq<Node>, t: seq<Node>, k: nat)
    requires Fresh(s0) && Grown(s0, t, k) && SearchTree(t) && k < |t| && s0[k].value != "null"
    ensures Forward(Inserted(t, 0, k)) && SearchTree(Inserted(t, 0, k))
  {
    InsertStep(s0, t, k);
    var t' := Inserted(t, 0, k);
    forall x, y, d: Side | 0 <= x < |t'| && 0 <= y < |t'| && Reaches(t', Slot(t'[x], d), y)
      ensures SideFor(t'[y].value, t'[x].value) == d
    {
      SearchPair(s0, t, k, x, y, d);
    }
  }

  /** A fresh arena has no links, so the search property holds vacuously. */
  lemma FreshSearch(s0: seq<Node>)
    requires Fresh(s0)
    ensures Forward(s0) && SearchTree(s0)
  {
    assert forall x | 0 <= x < |s0| :: s0[x] == NewNode(s0[x].value);
  }

  /** Every value is a number. */
  ghost predicate AllNumeric(s: seq<Node>) {
    forall j | 0 <= j < |s| :: IsNumeric(s[j].value)
  }

  /** Every listed node is in the arena. */
  predicate InArena(s: seq<Node>, q: seq<nat>) {
    forall u | 0 <= u < |q| :: q[u] < |s|
  }

  /** The keys of the listed nodes, in list order. */
  function Keys(s: seq<Node>, q: seq<nat>): (ks: seq<real>)
    requires InArena(s, q)
    ensures |ks| == |q|
  {
    if |q| == 0 then [] else Keys(s, q[..|q| - 1]) + [RootKey(s[q[|q| - 1]].value)]
  }

  lemma {:induction false} KeyAt(s: seq<Node>, q: seq<nat>, u: nat)
    requires InArena(s, q) && u < |q|
    ensures Keys(s, q)[u] == RootKey(s[q[u]].value)
  {
    if u < |q| - 1 {
      KeyAt(s, q[..|q| - 1], u);
    }
  }

  lemma {:induction false} KeysConcat(s: seq<Node>, a: seq<nat>, b: seq<nat>)
    requires InArena(s, a) && InArena(s, b)
    ensures InArena(s, a + b) && Keys(s, a + b) == Keys(s, a) + Keys(s, b)
  {
    assert InArena(s, a + b) by {
      forall u | 0 <= u < |a + b| ensures (a + b)[u] < |s| {
        if u >= |a| { assert (a + b)[u] == b[u - |a|]; }
      }
    }
    if |b| > 0 {
      var b' := b[..|b| - 1];
      assert InArena(s, b');
      KeysConcat(s, a, b');
      assert (a + b)[..|a + b| - 1] == a + b';
    } else {
      assert a + b == a;
    }
  }

  predicate NonDecreasing(xs: seq<real>) {
    forall u, v | 0 <= u < v < |xs| :: xs[u] <= xs[v]
  }

  /** A key with smaller keys before it and no smaller keys after it joins two non-decreasing lists. */
  lemma NonDecreasingJoin(a: seq<real>, m: real, b: seq<real>)
    requires NonDecreasing(a) && NonDecreasing(b)
    requires forall u | 0 <= u < |a| :: a[u] < m
    requires forall u | 0 <= u < |b| :: m <= b[u]
    ensures NonDecreasing(a + [m] + b)
  {
    var xs := a + [m] + b;
    forall u, v | 0 <= u < v < |xs| ensures xs[u] <= xs[v] {
      if v < |a| {
        assert xs[u] == a[u] && xs[v] == a[v];
      } else if u > |a| {
        assert xs[u] == b[u - |a| - 1] && xs[v] == b[v - |a| - 1];
      } else if u < |a| && v > |a| {
        assert xs[u] == a[u] && xs[v] == b[v - |a| - 1];
      }
    }
  }

  /** The key of a numeric entry is its number wherever it is compared. */
  lemma NumericKey(v: string, w: string)
    requires IsNumeric(v)
    ensures Key(v, w) == RootKey(v)
  {
  }

  /**
   * With numeric values only, the search property is the usual ordering:
   * the numbers along the in-order walk never decrease (equal numbers, which
   * went right, come later).
   */
  lemma {:induction false} SearchTreeAscending(s: seq<Node>, j: nat)
    requires Forward(s) && SearchTree(s) && AllNumeric(s) && j < |s|
    ensures InArena(s, InOrder(s, j)) && NonDecreasing(Keys(s, InOrder(s, j)))
    decreases |s| - j
  {
    assert PointsForward(s, j);
    var l := if s[j].left.Some? then InOrder(s, s[j].left.value) else [];
    var r := if s[j].right.Some? then InOrder(s, s[j].right.value) else [];
    if s[j].left.Some? {
      SearchTreeAscending(s, s[j].left.value);
    }
    if s[j].right.Some? {
      SearchTreeAscending(s, s[j].right.value);
    }
    assert InOrder(s, j) == l + [j] + r;
    AscendingStep(s, j, l, r);
  }

  /** A node joins the ascending walks of its two subtrees into one. */
  lemma AscendingStep(s: seq<Node>, j: nat, l: seq<nat>, r: seq<nat>)
    requires Forward(s) && SearchTree(s) && AllNumeric(s) && j < |s| && PointsForward(s, j)
    requires l == if s[j].left.Some? then InOrder(s, s[j].left.value) else []
    requires r == if s[j].right.Some? then InOrder(s, s[j].right.value) else []
    requires InArena(s, l) && NonDecreasing(Keys(s, l))
    requires InArena(s, r) && NonDecreasing(Keys(s, r))
    ensures InArena(s, l + [j] + r) && NonDecreasing(Keys(s, l + [j] + r))
  {
    LeftSmaller(s, j, l);
    RightNotSmaller(s, j, r);
    KeysJoin(s, l, j, r);
    NonDecreasingJoin(Keys(s, l), RootKey(s[j].value), Keys(s, r));
  }

  /** The keys of a node's in-order walk: those of its left walk, its own, those of its right walk. */
  lemma KeysJoin(s: seq<Node>, l: seq<nat>, j: nat, r: seq<nat>)
    requires j < |s| && InArena(s, l) && InArena(s, r)
    ensures InArena(s, l + [j] + r)
    ensures Keys(s, l + [j] + r) == Keys(s, l) + [RootKey(s[j].value)] + Keys(s, r)
  {
    assert InArena(s, [j]);
    KeysConcat(s, l, [j]);
    KeysConcat(s, l + [j], r);
    assert Keys(s, [j]) == [RootKey(s[j].value)];
  }

  /** The keys below a node's left link are smaller than the node's. */
  lemma LeftSmaller(s: seq<Node>, j: nat, l: seq<nat>)
    requires Forward(s) && SearchTree(s) && AllNumeric(s) && j < |s| && PointsForward(s, j)
    requires l == if s[j].left.Some? then InOrder(s, s[j].left.value) else []
    ensures InArena(s, l)
    ensures forall u | 0 <= u < |l| :: Keys(s, l)[u] < RootKey(s[j].value)
  {
    if s[j].left.Some? {
      InOrderBounds(s, s[j].left.value);
    }
    forall y | y in l ensures y < |s| && RootKey(s[y].value) < RootKey(s[j].value) {
      assert Reaches(s, Slot(s[j], Left), y);
      assert SideFor(s[y].value, s[j].value) == Left;
      NumericKey(s[y].value, s[j].value);
    }
    KeysBelow(s, l, RootKey(s[j].value));
  }

  /** The keys below a node's right link are not smaller than the node's. */
  lemma RightNotSmaller(s: seq<Node>, j: nat, r: seq<nat>)
    requires Forward(s) && SearchTree(s) && AllNumeric(s) && j < |s| && PointsForward(s, j)
    requires r == if s[j].right.Some? then InOrder(s, s[j].right.value) else []
    ensures InArena(s, r)
    ensures forall u | 0 <= u < |r| :: RootKey(s[j].value) <= Keys(s, r)[u]
  {
    if s[j].right.Some? {
      InOrderBounds(s, s[j].right.value);
    }
    forall y | y in r ensures y < |s| && RootKey(s[j].value) <= RootKey(s[y].value) {
      assert Reaches(s, Slot(s[j], Right), y);
      assert SideFor(s[y].value, s[j].value) == Right;
      NumericKey(s[y].value, s[j].value);
    }
    KeysAbove(s, r, RootKey(s[j].value));
  }

  lemma KeysBelow(s: seq<Node>, q: seq<nat>, m: real)
    requires forall y | y in q :: y < |s| && RootKey(s[y].value) < m
    ensures InArena(s, q) && forall u | 0 <= u < |q| :: Keys(s, q)[u] < m
  {
    assert InArena(s, q) by {
      forall u | 0 <= u < |q| ensures q[u] < |s| { assert q[u] in q; }
    }
    forall u | 0 <= u < |q| ensures Keys(s, q)[u] < m {
      assert q[u] in q;
      KeyAt(s, q, u);
    }
  }

  lemma KeysAbove(s: seq<Node>, q: seq<nat>, m: real)
    requires forall y | y in q :: y < |s| && m <= RootKey(s[y].value)
    ensures InArena(s, q) && forall u | 0 <= u < |q| :: m <= Keys(s, q)[u]
  {
    assert InArena(s, q) by {
      forall u | 0 <= u < |q| ensures q[u] < |s| { assert q[u] in q; }
    }
    forall u | 0 <= u < |q| ensures m <= Keys(s, q)[u] {
      assert q[u] in q;
      KeyAt(s, q, u);
    }
  }

  /** The values of a list other than `"null"`: `values.filter(val => val !== "null")`. */
  function NonNull(vs: seq<string>): (r: seq<string>)
    ensures |r| <= |vs|
    ensures forall v :: v in r <==> v in vs && v != "null"
  {
    if |vs| == 0 then []
    else NonNull(vs[..|vs| - 1]) + (if vs[|vs| - 1] != "null" then [vs[|vs| - 1]] else [])
  }

  /** How `createBST` ended: which of its branches ran. */
  datatype BstOutcome =
    | NoNodes
    | DuplicateValues(duplicates: seq<string>)
    | LevelOrderBuilt
    | SearchTreeBuilt

  /**
   * The tree `createBST` leaves without `"null"` entries: a forest whose tree
   * at the root lists every node exactly once, with the search property, the
   * values unchanged, every node completed by `createData`, the side flags
   * matching the links and the root without parent or flag.
   */
  ghost predicate BuiltSearchTree(s0: seq<Node>, t: seq<Node>) {
    && |t| == |s0| && 1 <= |t| && IsTree(t)
    && SearchTree(t)
    && Distinct(InOrder(t, 0))
    && (forall y | 0 <= y < |t| :: y in InOrder(t, 0))
    && (forall j | 0 <= j < |t| :: t[j].value == s0[j].value && InRenderShape(t[j], t[j].children))
    && (forall m: nat, c: nat {:trigger IsChildLink(t[m], c)} | m < |t| && IsChildLink(t[m], c) :: c < |t| && t[c].parent == Some(m))
    && SidesFlagged(t) && !t[0].isLeft && !t[0].isRight && t[0].parent == None
  }

  /** Arenas with the same links and values have the same search property. */
  lemma SearchTreeSameSkeleton(s: seq<Node>, t: seq<Node>)
    requires Forward(s) && SameSkeleton(s, t) && SearchTree(s)
    ensures Forward(t) && SearchTree(t)
  {
    assert SameLinks(s, t);
    ForwardSameLinks(s, t);
    forall x, y, d: Side | 0 <= x < |t| && 0 <= y < |t| && Reaches(t, Slot(t[x], d), y)
      ensures SideFor(t[y].value, t[x].value) == d
    {
      InOrderSameLinks(s, t, Slot(t[x], d).value);
      assert Reaches(s, Slot(s[x], d), y);
    }
  }

  /** Without `"null"` entries the insertion loop reaches every node from the root. */
  lemma GrownCovers(s0: seq<Node>, s1: seq<Node>)
    requires Grown(s0, s1, |s0|) && "null" !in Values(s0)
    ensures forall y | 0 <= y < |s1| :: y in InOrder(s1, 0)
  {
    forall y | 0 <= y < |s1| ensures y in InOrder(s1, 0) {
      assert Values(s0)[y] == s0[y].value;
      assert Reaches(s1, Some(0), y);
    }
  }

  /** `createData` on a tree reaching every node gives every node its render shape. */
  lemma FinishedShapes(s0: seq<Node>, s1: seq<Node>, t: seq<Node>)
    requires Fresh(s0) && Grown(s0, s1, |s0|) && forall y | 0 <= y < |s1| :: y in InOrder(s1, 0)
    requires SameSkeleton(s1, t) && ChildrenDone(s1, t, Some(0))
    ensures forall j | 0 <= j < |t| :: t[j].value == s0[j].value && InRenderShape(t[j], t[j].children)
  {
    forall j | 0 <= j < |t| ensures t[j].value == s0[j].value && InRenderShape(t[j], t[j].children) {
      assert j in InOrder(s1, 0);
      assert s0[j] == NewNode(s0[j].value);
      CompletedFromEmpty(s1[j]);
    }
  }

  /** `createData` on a tree reaching every node sets the parent of every child. */
  lemma FinishedParents(s1: seq<Node>, t: seq<Node>)
    requires Forward(s1) && (forall y | 0 <= y < |s1| :: y in InOrder(s1, 0))
    requires SameSkeleton(s1, t) && ParentsSet(s1, t, Some(0))
    ensures forall m: nat, c: nat {:trigger IsChildLink(t[m], c)} | m < |t| && IsChildLink(t[m], c) :: c < |t| && t[c].parent == Some(m)
  {
    forall m: nat, c: nat {:trigger IsChildLink(t[m], c)} | m < |t| && IsChildLink(t[m], c) ensures c < |t| && t[c].parent == Some(m) {
      assert m in InOrder(s1, 0);
      assert IsChildLink(s1[m], c);
      ParentSetAt(s1, t, Some(0), m, c);
    }
  }

  /** After the insertion loop and `createData` the arena is the finished search tree. */
  lemma FinishedSearchTree(s0: seq<Node>, s1: seq<Node>, t: seq<Node>)
    requires Fresh(s0) && Grown(s0, s1, |s0|) && SearchTree(s1) && "null" !in Values(s0)
    requires Flagged(s1)
    requires SameSkeleton(s1, t) && ChildrenDone(s1, t, Some(0)) && ParentsSet(s1, t, Some(0)) && OtherParentsKept(s1, t, Some(0))
    ensures BuiltSearchTree(s0, t)
  {
    assert s0[0] == NewNode(s0[0].value);
    forall m: nat, c: nat | m < |t| && IsChildLink(t[m], c)
      ensures c < |t| && t[c].isLeft == (t[m].left == Some(c)) && t[c].isRight == (t[m].right == Some(c))
    {
      assert IsChildLink(s1[m], c);
    }
    GrownCovers(s0, s1);
    FinishedCovers(s0, s1, t);
    SearchTreeSameSkeleton(s1, t);
    InOrderDistinct(t, 0);
    FinishedShapes(s0, s1, t);
    FinishedParents(s1, t);
  }

  /** `createData` keeps the links, so the walk from the root still lists every node. */
  lemma FinishedCovers(s0: seq<Node>, s1: seq<Node>, t: seq<Node>)
    requires Grown(s0, s1, |s0|) && "null" !in Values(s0) && SameSkeleton(s1, t)
    ensures IsTree(t) && 0 < |t| && forall y | 0 <= y < |t| :: y in InOrder(t, 0)
  {
    GrownCovers(s0, s1);
    SubtreesOf(s1, t, 0);
    forall y | 0 <= y < |t| ensures y in InOrder(t, 0) {
      assert Reaches(s1, Some(0), y);
    }
  }

  /** One round of the insertion loop for an entry other than `"null"`. */
  method InsertEntry(a: array<Node>, ghost s0: seq<Node>, i: nat)
    requires Fresh(s0) && Grown(s0, a[..], i) && SearchTree(a[..]) && Flagged(a[..]) && i < a.Length && s0[i].value != "null"
    modifies a
    ensures a[..] == Inserted(old(a[..]), 0, i)
    ensures Grown(s0, a[..], i + 1) && SearchTree(a[..]) && Flagged(a[..])
  {
    InsertFlags(s0, a[..], i);
    InsertKeepsSearch(s0, a[..], i);
    NodeDirectionBST(a, 0, i);
  }

  /**
   * `createBST(arr)`: nothing on an empty list; an error report listing the
   * repeated values, with the nodes untouched, when a value other than
   * `"null"` occurs twice; level-order construction when some value is
   * `"null"`; and otherwise insertion of every later node from the first,
   * followed by `createData(rootNode)`.
   */
  method CreateBST(a: array<Node>) returns (outcome: BstOutcome)
    requires Fresh(a[..])
    modifies a
    ensures a.Length == 0 ==> outcome == NoNodes && a[..] == old(a[..])
    ensures 0 < a.Length && !Distinct(NonNull(Values(old(a[..])))) ==>
      outcome == DuplicateValues(LaterOccurrences(NonNull(Values(old(a[..]))))) && a[..] == old(a[..])
    ensures 0 < a.Length && Distinct(NonNull(Values(old(a[..])))) && "null" in Values(old(a[..])) ==>
      outcome == LevelOrderBuilt && IsTree(a[..]) && LevelOrder.LevelOrderTree(Values(old(a[..])), a[..])
    ensures 0 < a.Length && Distinct(NonNull(Values(old(a[..])))) && "null" !in Values(old(a[..])) ==>
      outcome == SearchTreeBuilt && BuiltSearchTree(old(a[..]), a[..])
  {
    if a.Length == 0 {
      return NoNodes;
    }
    var values := NonNull(Values(a[..]));
    DistinctIffSetSize(values);
    if |values| != |Elements(values)| {
      return DuplicateValues(LaterOccurrences(values));
    }
    if "null" in Values(a[..]) {
      LevelOrder.CreateBinaryTree(a);
      return LevelOrderBuilt;
    }
    ghost var s0 := a[..];
    GrownInitially(s0);
    FreshSearch(s0);
    FlaggedInitially(s0);
    var i := 1;
    while i < a.Length
      invariant 1 <= i <= a.Length
      invariant Grown(s0, a[..], i) && SearchTree(a[..]) && Flagged(a[..])
    {
      if a[i].value != "null" {
        InsertEntry(a, s0, i);
      } else {
        GrownSkip(s0, a[..], i);
      }
      i := i + 1;
    }
    ghost var s1 := a[..];
    CreateData(a, Some(0));
    FinishedSearchTree(s0, s1, a[..]);
    outcome := SearchTreeBuilt;
  }
}
