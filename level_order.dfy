/**
 * `createBinaryTree` of js/treeTypes.js: level-order insertion. The first
 * node is the root; a queue of attached nodes hands each dequeued node the
 * next two entries of the input as its left and right child, skipping
 * `"null"` entries, which stay unattached.
 *
 * The reference for the loop is `Live(vs, m)`: the nodes among the first `m`
 * that end up attached, in the order they enter the queue. The `u`-th of them
 * owns the slots `2u + 1` and `2u + 2`.
 */
module LevelOrder {
  import opened Wrappers
  import opened Lists
  import opened Nodes

  /**
   * The attached nodes among the first `m` entries of `vs`, in queue order.
   * Entry `k >= 1` is offered to the node of rank `(k - 1) / 2`; it is
   * attached when that node exists (the queue did not run dry first) and the
   * entry is not `"null"`.
   */
  function Live(vs: seq<string>, m: nat): seq<nat>
    requires m <= |vs|
  {
    if m == 0 then []
    else if m == 1 then [0]
    else
      var prev := Live(vs, m - 1);
      if (m - 2) / 2 < |prev| && vs[m - 1] != "null" then prev + [m - 1] else prev
  }

  /** The link a slot receives: the entry itself when it is attached. */
  function SlotLink(live: seq<nat>, k: nat): Option<nat> {
    if k in live then Some(k) else None
  }

  /** The parent an attached entry receives: the node of rank `(k - 1) / 2`. */
  function ParentSlot(live: seq<nat>, k: nat): Option<nat> {
    if 0 < k && k in live && (k - 1) / 2 < |live| then Some(live[(k - 1) / 2]) else None
  }

  /**
   * The links, parents and side flags level-order insertion gives the nodes
   * when `live` are the attached ones; values are kept.
   */
  ghost predicate Linked(vs: seq<string>, t: seq<Node>, live: seq<nat>) {
    && |t| == |vs|
    && (forall j {:trigger t[j]} | 0 <= j < |t| ::
          && t[j].value == vs[j]
          && t[j].parent == ParentSlot(live, j)
          && t[j].isLeft == (j in live && j % 2 == 1)
          && t[j].isRight == (0 < j && j in live && j % 2 == 0))
    && (forall u | 0 <= u < |live| :: live[u] < |t|)
    && (forall u {:trigger t[live[u]]} | 0 <= u < |live| ::
          t[live[u]].left == SlotLink(live, 2 * u + 1) && t[live[u]].right == SlotLink(live, 2 * u + 2))
    && (forall j {:trigger t[j]} | 0 <= j < |t| && j !in live :: t[j].left.None? && t[j].right.None?)
  }

  /** The arena the insertion loop leaves: `Linked`, and no `children` yet. */
  ghost predicate LinkedFresh(vs: seq<string>, t: seq<Node>, live: seq<nat>) {
    Linked(vs, t, live) && forall j | 0 <= j < |t| :: t[j].children == []
  }

  /**
   * The tree `createBinaryTree` leaves: level-order links, and the
   * `children` lists `createData` gives the attached nodes.
   */
  ghost predicate LevelOrderTree(vs: seq<string>, t: seq<Node>)
    requires |t| == |vs|
  {
    var live := Live(vs, |vs|);
    && Linked(vs, t, live)
    && forall j | 0 <= j < |t| :: if j in live then InRenderShape(t[j], t[j].children) else t[j].children == []
  }

  /**
   * The attached entries are increasing, the root comes first, every other
   * one is a non-`"null"` entry whose owner has a lower rank.
   */
  lemma {:induction false} LiveFacts(vs: seq<string>, m: nat)
    requires m <= |vs|
    ensures |Live(vs, m)| <= m
    ensures forall u | 0 <= u < |Live(vs, m)| :: Live(vs, m)[u] < m
    ensures forall u, v | 0 <= u < v < |Live(vs, m)| :: Live(vs, m)[u] < Live(vs, m)[v]
    ensures 1 <= m ==> 1 <= |Live(vs, m)| && Live(vs, m)[0] == 0
    ensures forall u | 1 <= u < |Live(vs, m)| :: 1 <= Live(vs, m)[u] && (Live(vs, m)[u] - 1) / 2 < u && vs[Live(vs, m)[u]] != "null"
    decreases m
  {
    if m > 1 {
      LiveFacts(vs, m - 1);
    }
  }

  /** An entry is attached at most once: its rank in `Live` is unique. */
  lemma LiveRank(vs: seq<string>, m: nat, u: nat, v: nat)
    requires m <= |vs| && u < |Live(vs, m)| && v < |Live(vs, m)| && Live(vs, m)[u] == Live(vs, m)[v]
    ensures u == v
  {
    LiveFacts(vs, m);
  }

  /** The node of rank `(k - 1) / 2`, the parent of entry `k`, comes before `k`. */
  lemma ParentBefore(vs: seq<string>, m: nat, k: nat)
    requires m <= |vs| && k in Live(vs, m) && 0 < k
    ensures ParentSlot(Live(vs, m), k).Some? && ParentSlot(Live(vs, m), k).value < k
    ensures ParentSlot(Live(vs, m), k).value in Live(vs, m)
  {
    LiveFacts(vs, m);
    var live := Live(vs, m);
    var u :| 0 <= u < |live| && live[u] == k;
    assert 1 <= u;
    var w := (k - 1) / 2;
    assert w < u;
    assert live[w] < live[u];
  }

  /** Looking at more entries only appends to `Live`. */
  lemma {:induction false} LivePrefix(vs: seq<string>, m: nat, n: nat)
    requires m <= n <= |vs|
    ensures Live(vs, m) <= Live(vs, n)
    ensures forall k | k < m :: k in Live(vs, m) <==> k in Live(vs, n)
    decreases n - m
  {
    if m < n {
      LivePrefix(vs, m, n - 1);
      LiveFacts(vs, m);
      LiveFacts(vs, n - 1);
      if n > 1 {
        assert Live(vs, n - 1) <= Live(vs, n);
      }
    }
  }

  /** Entry `i` is attached when the node of rank `(i - 1) / 2` exists and the entry is not `"null"`. */
  lemma NextLive(vs: seq<string>, i: nat)
    requires 1 <= i < |vs|
    ensures Live(vs, i + 1) == if (i - 1) / 2 < |Live(vs, i)| && vs[i] != "null" then Live(vs, i) + [i] else Live(vs, i)
  {
  }

  /** Once the queue has run dry at entry `i`, no later entry is attached. */
  lemma {:induction false} Stalled(vs: seq<string>, i: nat, n: nat)
    requires 1 <= i <= n <= |vs| && |Live(vs, i)| <= (i - 1) / 2
    ensures Live(vs, n) == Live(vs, i)
    decreases n - i
  {
    if i < n {
      Stalled(vs, i, n - 1);
      assert (n - 2) / 2 >= (i - 1) / 2;
    }
  }

  /** Without `"null"` entries every entry is attached: node `j` gets children `2j + 1` and `2j + 2`, as in an array heap. */
  lemma {:induction false} NoNullsIsComplete(vs: seq<string>, m: nat)
    requires m <= |vs| && forall k | 1 <= k < |vs| :: vs[k] != "null"
    ensures Live(vs, m) == Range(m)
    decreases m
  {
    if m > 1 {
      NoNullsIsComplete(vs, m - 1);
      assert Range(m) == Range(m - 1) + [m - 1];
    }
  }

  /** The entries offered to no node or holding `"null"` are never attached. */
  lemma NullsNeverAttached(vs: seq<string>, k: nat)
    requires 1 <= k < |vs| && vs[k] == "null"
    ensures k !in Live(vs, |vs|)
  {
    LiveFacts(vs, |vs|);
  }

  /** An attached entry other than the root sits at the rank `Live` gives it, above its parent's. */
  lemma LiveMember(vs: seq<string>, m: nat, k: nat) returns (u: nat)
    requires m <= |vs| && k in Live(vs, m)
    ensures u < |Live(vs, m)| && Live(vs, m)[u] == k && k <= 2 * u && k < m
    ensures 0 < k ==> (k - 1) / 2 < u
  {
    LiveFacts(vs, m);
    u :| 0 <= u < |Live(vs, m)| && Live(vs, m)[u] == k;
  }

  /** A level-order arena is a tree: links point forward, and each node is linked at most once. */
  lemma LinkedIsTree(vs: seq<string>, t: seq<Node>, live: seq<nat>)
    requires Linked(vs, t, live) && Ranked(live, |t|)
    ensures IsTree(t)
  {
    forall j | 0 <= j < |t| ensures PointsForward(t, j) {
      LinkedForward(vs, t, live, j);
    }
    forall j, k | 0 <= j < |t| && 0 <= k < |t| && j != k ensures Targets(t[j]) !! Targets(t[k]) {
      LinkedDisjoint(vs, t, live, j, k);
    }
  }

  /** Ranks in a queue order: increasing entries, entry of rank `u` at most `2u`. */
  ghost predicate Ranked(live: seq<nat>, n: nat) {
    && (forall u | 0 <= u < |live| :: live[u] < n && live[u] <= 2 * u)
    && (forall u, v | 0 <= u < v < |live| :: live[u] < live[v])
  }

  /** The root comes first. */
  predicate Rooted(live: seq<nat>) {
    |live| > 0 && live[0] == 0
  }

  lemma LiveRanked(vs: seq<string>, m: nat)
    requires m <= |vs|
    ensures Ranked(Live(vs, m), m)
    ensures 1 <= m ==> Rooted(Live(vs, m))
  {
    LiveFacts(vs, m);
  }

  lemma RankOf(live: seq<nat>, n: nat, k: nat) returns (u: nat)
    requires Ranked(live, n) && k in live
    ensures u < |live| && live[u] == k && k <= 2 * u && k < n
  {
    u :| 0 <= u < |live| && live[u] == k;
  }

  lemma LinkedForward(vs: seq<string>, t: seq<Node>, live: seq<nat>, j: nat)
    requires Linked(vs, t, live) && Ranked(live, |t|) && j < |t|
    ensures PointsForward(t, j)
  {
    if j in live {
      var u := RankOf(live, |t|, j);
      assert t[j].left == SlotLink(live, 2 * u + 1);
      assert t[j].right == SlotLink(live, 2 * u + 2);
      if 2 * u + 1 in live {
        var v := RankOf(live, |t|, 2 * u + 1);
      }
      if 2 * u + 2 in live {
        var v := RankOf(live, |t|, 2 * u + 2);
      }
      assert t[j].left.Some? ==> j < t[j].left.value < |t|;
      assert t[j].right.Some? ==> j < t[j].right.value < |t|;
    } else {
      assert t[j].left.None? && t[j].right.None?;
    }
  }

  lemma LinkedDisjoint(vs: seq<string>, t: seq<Node>, live: seq<nat>, j: nat, k: nat)
    requires Linked(vs, t, live) && Ranked(live, |t|) && j < |t| && k < |t| && j != k
    ensures Targets(t[j]) !! Targets(t[k])
  {
    if j in live && k in live {
      var u := RankOf(live, |t|, j);
      var v := RankOf(live, |t|, k);
      assert u != v;
      RankTargets(vs, t, live, u);
      RankTargets(vs, t, live, v);
    } else if j in live {
      assert t[k].left.None? && t[k].right.None?;
      assert Targets(t[k]) == {};
    } else {
      assert t[j].left.None? && t[j].right.None?;
      assert Targets(t[j]) == {};
    }
  }

  lemma RankTargets(vs: seq<string>, t: seq<Node>, live: seq<nat>, u: nat)
    requires Linked(vs, t, live) && u < |live|
    ensures forall x | x in Targets(t[live[u]]) :: x == 2 * u + 1 || x == 2 * u + 2
  {
    assert t[live[u]].left == SlotLink(live, 2 * u + 1);
    assert t[live[u]].right == SlotLink(live, 2 * u + 2);
  }

  /** The nodes reachable from the root are exactly the attached ones. */
  lemma ReachedIffLive(vs: seq<string>, t: seq<Node>, live: seq<nat>)
    requires Linked(vs, t, live) && Ranked(live, |t|) && Rooted(live)
    ensures IsTree(t)
    ensures forall k | 0 <= k < |t| :: Reaches(t, Some(0), k) <==> k in live
  {
    LinkedIsTree(vs, t, live);
    forall k | 0 <= k < |t| ensures Reaches(t, Some(0), k) <==> k in live {
      if k in live {
        LiveReached(vs, t, live, k);
      }
      if Reaches(t, Some(0), k) && k != 0 {
        var q := ParentWithin(t, 0, k);
        if q in live {
          var u := RankOf(live, |t|, q);
          assert t[q].left == SlotLink(live, 2 * u + 1) && t[q].right == SlotLink(live, 2 * u + 2);
        } else {
          assert t[q].left.None? && t[q].right.None?;
        }
      }
    }
  }

  lemma {:induction false} LiveReached(vs: seq<string>, t: seq<Node>, live: seq<nat>, k: nat)
    requires Linked(vs, t, live) && Ranked(live, |t|) && Rooted(live) && IsTree(t) && k in live
    ensures Reaches(t, Some(0), k)
    decreases k
  {
    if k == 0 {
      RootReached(t, 0);
    } else {
      var p := LevelParent(vs, t, live, k);
      LiveReached(vs, t, live, p);
      ChildInSameSubtree(t, Some(0), p, k);
    }
  }

  /** The node of rank `(j - 1) / 2`, which the loop makes the parent of `j`, links to `j`. */
  lemma LevelParent(vs: seq<string>, s: seq<Node>, live: seq<nat>, j: nat) returns (p: nat)
    requires Linked(vs, s, live) && Ranked(live, |s|) && 0 < j && j in live
    ensures ParentSlot(live, j) == Some(p) && p in live && p < j && IsChildLink(s[p], j)
  {
    var u := RankOf(live, |s|, j);
    var w := (j - 1) / 2;
    assert w < u;
    p := live[w];
    assert s[p].left == SlotLink(live, 2 * w + 1) && s[p].right == SlotLink(live, 2 * w + 2);
    assert j == 2 * w + 1 || j == 2 * w + 2;
  }

  /**
   * One attachment of the loop: entry `i` becomes the left (`left`) or right
   * child of `c`, and gets `c` as parent and the matching side flag.
   */
  function AttachAt(s: seq<Node>, c: nat, i: nat, left: bool): seq<Node>
    requires c < |s| && i < |s|
  {
    var s' := s[c := if left then s[c].(left := Some(i)) else s[c].(right := Some(i))];
    s'[i := if left then s'[i].(parent := Some(c), isLeft := true) else s'[i].(parent := Some(c), isRight := true)]
  }

  lemma SlotLinkSnoc(live: seq<nat>, i: nat, k: nat)
    ensures SlotLink(live + [i], k) == if k == i then Some(i) else SlotLink(live, k)
  {
    if k != i {
      assert k in live + [i] <==> k in live;
    }
  }

  /**
   * Giving entry `i` to the node of rank `d` (slot `2d + 1` on the left,
   * `2d + 2` on the right) extends the level-order arena of `live` to the one
   * of `live + [i]`.
   */
  lemma AttachStep(vs: seq<string>, s: seq<Node>, live: seq<nat>, i: nat, d: nat, left: bool)
    requires LinkedFresh(vs, s, live) && Ranked(live, i) && i < |s| && d < |live|
    requires i == if left then 2 * d + 1 else 2 * d + 2
    ensures LinkedFresh(vs, AttachAt(s, live[d], i, left), live + [i])
  {
    var c := live[d];
    var t := AttachAt(s, c, i, left);
    var live' := live + [i];
    assert i !in live;
    assert s[i].left.None? && s[i].right.None?;
    forall j | 0 <= j < |t|
      ensures t[j].value == vs[j] && t[j].children == []
      ensures t[j].parent == ParentSlot(live', j)
      ensures t[j].isLeft == (j in live' && j % 2 == 1)
      ensures t[j].isRight == (0 < j && j in live' && j % 2 == 0)
    {
      AttachFields(vs, s, live, i, d, left, j);
    }
    forall u | 0 <= u < |live'|
      ensures live'[u] < |t|
      ensures t[live'[u]].left == SlotLink(live', 2 * u + 1) && t[live'[u]].right == SlotLink(live', 2 * u + 2)
    {
      AttachLinks(vs, s, live, i, d, left, u);
    }
    forall j | 0 <= j < |t| && j !in live' ensures t[j].left.None? && t[j].right.None? {
      assert j != c && j != i && j !in live;
    }
  }

  lemma AttachFields(vs: seq<string>, s: seq<Node>, live: seq<nat>, i: nat, d: nat, left: bool, j: nat)
    requires LinkedFresh(vs, s, live) && Ranked(live, i) && i < |s| && d < |live| && j < |s|
    requires i == if left then 2 * d + 1 else 2 * d + 2
    ensures var t := AttachAt(s, live[d], i, left);
      && t[j].value == vs[j] && t[j].children == []
      && t[j].parent == ParentSlot(live + [i], j)
      && t[j].isLeft == (j in live + [i] && j % 2 == 1)
      && t[j].isRight == (0 < j && j in live + [i] && j % 2 == 0)
  {
    var live' := live + [i];
    assert i !in live;
    if j == i {
      assert (i - 1) / 2 == d;
      assert live'[d] == live[d];
    } else {
      AttachFieldsOther(vs, s, live, i, d, left, j);
    }
  }

  lemma AttachFieldsOther(vs: seq<string>, s: seq<Node>, live: seq<nat>, i: nat, d: nat, left: bool, j: nat)
    requires LinkedFresh(vs, s, live) && Ranked(live, i) && i < |s| && d < |live| && j < |s| && j != i
    requires i == if left then 2 * d + 1 else 2 * d + 2
    ensures var t := AttachAt(s, live[d], i, left);
      && t[j].value == vs[j] && t[j].children == []
      && t[j].parent == ParentSlot(live + [i], j)
      && t[j].isLeft == (j in live + [i] && j % 2 == 1)
      && t[j].isRight == (0 < j && j in live + [i] && j % 2 == 0)
  {
    var live' := live + [i];
    assert j in live' <==> j in live;
    if 0 < j && j in live {
      var u := RankOf(live, i, j);
      assert (j - 1) / 2 < u;
      assert live'[(j - 1) / 2] == live[(j - 1) / 2];
    }
  }

  lemma AttachLinks(vs: seq<string>, s: seq<Node>, live: seq<nat>, i: nat, d: nat, left: bool, u: nat)
    requires LinkedFresh(vs, s, live) && Ranked(live, i) && i < |s| && d < |live| && u <= |live|
    requires i == if left then 2 * d + 1 else 2 * d + 2
    ensures var t := AttachAt(s, live[d], i, left); var live' := live + [i];
      && live'[u] < |t|
      && t[live'[u]].left == SlotLink(live', 2 * u + 1) && t[live'[u]].right == SlotLink(live', 2 * u + 2)
  {
    var c := live[d];
    var t := AttachAt(s, c, i, left);
    var live' := live + [i];
    SlotLinkSnoc(live, i, 2 * u + 1);
    SlotLinkSnoc(live, i, 2 * u + 2);
    assert i !in live;
    if u == |live| {
      assert live'[u] == i;
      assert s[i].left.None? && s[i].right.None?;
      assert 2 * u + 1 !in live;
      assert 2 * u + 2 !in live;
    } else {
      var x := live[u];
      assert live'[u] == x && x < i;
      assert t[x].left == SlotLink(live', 2 * u + 1) && t[x].right == SlotLink(live', 2 * u + 2) by {
        assert s[x].left == SlotLink(live, 2 * u + 1) && s[x].right == SlotLink(live, 2 * u + 2);
        if u == d {
          assert x == c;
        } else {
          assert x != c;
          assert t[x] == s[x];
        }
      }
    }
  }

  /**
   * `createData(rootNode)` on the arena the loop leaves completes exactly the
   * attached nodes; the parents it sets are the ones the loop already set.
   */
  lemma CompletedLevelOrder(vs: seq<string>, s: seq<Node>, t: seq<Node>)
    requires 1 <= |vs| && IsTree(s) && LinkedFresh(vs, s, Live(vs, |vs|))
    requires SameSkeleton(s, t) && ChildrenDone(s, t, Some(0))
    requires ParentsSet(s, t, Some(0)) && OtherParentsKept(s, t, Some(0))
    ensures IsTree(t) && LevelOrderTree(vs, t)
  {
    var live := Live(vs, |vs|);
    LiveRanked(vs, |vs|);
    CompletedArena(vs, s, t, live);
    LinkedIsTree(vs, t, live);
  }

  lemma CompletedArena(vs: seq<string>, s: seq<Node>, t: seq<Node>, live: seq<nat>)
    requires LinkedFresh(vs, s, live) && Ranked(live, |s|) && Rooted(live)
    requires SameSkeleton(s, t) && ChildrenDone(s, t, Some(0))
    requires ParentsSet(s, t, Some(0)) && OtherParentsKept(s, t, Some(0))
    ensures Linked(vs, t, live)
    ensures forall j | 0 <= j < |t| :: if j in live then InRenderShape(t[j], t[j].children) else t[j].children == []
  {
    ReachedIffLive(vs, s, live);
    forall j | 0 <= j < |t|
      ensures t[j].parent == ParentSlot(live, j)
      ensures if j in live then InRenderShape(t[j], t[j].children) else t[j].children == []
    {
      CompletedNode(vs, s, t, live, j);
    }
  }

  lemma CompletedNode(vs: seq<string>, s: seq<Node>, t: seq<Node>, live: seq<nat>, j: nat)
    requires LinkedFresh(vs, s, live) && Ranked(live, |s|) && IsTree(s)
    requires SameSkeleton(s, t) && ChildrenDone(s, t, Some(0))
    requires ParentsSet(s, t, Some(0)) && OtherParentsKept(s, t, Some(0))
    requires forall k | 0 <= k < |s| :: Reaches(s, Some(0), k) <==> k in live
    requires j < |t|
    ensures t[j].parent == ParentSlot(live, j)
    ensures if j in live then InRenderShape(t[j], t[j].children) else t[j].children == []
  {
    if 0 < j && j in live {
      var p := LevelParent(vs, s, live, j);
      assert Reaches(s, Some(0), p);
    } else {
      assert !(Reaches(s, Some(0), j) && Some(0) != Some(j));
    }
    if j in live {
      CompletedFromEmpty(s[j]);
      assert t[j].children == CompletedChildren(s[j]);
    }
  }

  /** Before the loop only the root is in the queue, and no node is linked. */
  lemma RootArena(s0: seq<Node>)
    requires Fresh(s0) && 1 <= |s0|
    ensures LinkedFresh(Values(s0), s0, Live(Values(s0), 1))
  {
    assert Live(Values(s0), 1) == [0];
    assert forall j | 0 <= j < |s0| :: s0[j] == NewNode(s0[j].value);
  }

  /**
   * The two assignments of a left (right) attachment: `current.left = arr[i]`
   * (`current.right`), then `arr[i].parent = current` and
   * `arr[i].isLeft = true` (`isRight`).
   */
  method Attach(a: array<Node>, c: nat, i: nat, left: bool)
    requires c < a.Length && i < a.Length
    modifies a
    ensures a[..] == AttachAt(old(a[..]), c, i, left)
  {
    if left {
      a[c] := a[c].(left := Some(i));
      a[i] := a[i].(parent := Some(c), isLeft := true);
    } else {
      a[c] := a[c].(right := Some(i));
      a[i] := a[i].(parent := Some(c), isRight := true);
    }
  }

  /** The arena after entry `i` is offered to `current`: attached unless it is `"null"`. */
  function Offered(s: seq<Node>, current: nat, i: nat, left: bool): (t: seq<Node>)
    requires current < |s| && i < |s|
    ensures |t| == |s| && Values(t) == Values(s)
  {
    if s[i].value != "null" then AttachAt(s, current, i, left) else s
  }

  /** The entries among `i` and `i + 1` that one round of the loop pushes on the queue. */
  function Pushes(s: seq<Node>, i: nat): seq<nat>
    requires i < |s|
  {
    (if s[i].value != "null" then [i] else []) + (if i + 1 < |s| && s[i + 1].value != "null" then [i + 1] else [])
  }

  /** The arena after one round: entry `i` offered as the left child of `current`, then entry `i + 1` (if any) as its right child. */
  function Served(s: seq<Node>, current: nat, i: nat): (t: seq<Node>)
    requires current < |s| && i < |s|
    ensures |t| == |s|
  {
    var s1 := Offered(s, current, i, true);
    if i + 1 < |s| then Offered(s1, current, i + 1, false) else s1
  }

  /** Offering entry `i` to the node of rank `d == (i - 1) / 2` appends it to `Live` unless it is `"null"`. */
  lemma OfferLive(vs: seq<string>, i: nat, d: nat)
    requires 1 <= i < |vs| && d == (i - 1) / 2 && d < |Live(vs, i)|
    ensures d < |Live(vs, i + 1)| && Live(vs, i + 1)[d] == Live(vs, i)[d]
    ensures Live(vs, i + 1)[d + 1..] == Live(vs, i)[d + 1..] + (if vs[i] != "null" then [i] else [])
  {
    NextLive(vs, i);
    DropAppend(Live(vs, i), if vs[i] != "null" then [i] else [], d + 1);
  }

  /** Offering entry `i` to the node of rank `d == (i - 1) / 2` keeps the arena level-ordered. */
  lemma OfferArena(vs: seq<string>, s: seq<Node>, i: nat, d: nat, left: bool)
    requires 1 <= i < |s| == |vs| && LinkedFresh(vs, s, Live(vs, i)) && left == (i % 2 == 1)
    requires d == (i - 1) / 2 && d < |Live(vs, i)|
    ensures Live(vs, i)[d] < |s|
    ensures LinkedFresh(vs, Offered(s, Live(vs, i)[d], i, left), Live(vs, i + 1))
  {
    NextLive(vs, i);
    assert s[i].value == vs[i];
    if vs[i] != "null" {
      LiveRanked(vs, i);
      AttachStep(vs, s, Live(vs, i), i, d, left);
    }
  }

  /** After one round the queue holds the attached entries of rank above `d`. */
  lemma RoundQueue(vs: seq<string>, s: seq<Node>, i: nat, d: nat)
    requires 1 <= i < |s| == |vs| && i == 2 * d + 1 && d < |Live(vs, i)|
    requires forall j | 0 <= j < |s| :: s[j].value == vs[j]
    ensures i + 1 == |s| ==> d + 1 <= |Live(vs, i + 1)| && Live(vs, i + 1)[d + 1..] == Live(vs, i)[d + 1..] + Pushes(s, i)
    ensures i + 1 < |s| ==> d + 1 <= |Live(vs, i + 2)| && Live(vs, i + 2)[d + 1..] == Live(vs, i)[d + 1..] + Pushes(s, i)
  {
    OfferLive(vs, i, d);
    assert s[i].value == vs[i];
    if i + 1 < |s| {
      RoundQueueRight(vs, s, i, d);
    }
  }

  /** The second offer of a round, when there is a next entry, queues it unless it is `"null"`. */
  lemma RoundQueueRight(vs: seq<string>, s: seq<Node>, i: nat, d: nat)
    requires 1 <= i && i + 1 < |s| == |vs| && i == 2 * d + 1
    requires s[i].value == vs[i] && s[i + 1].value == vs[i + 1]
    requires d < |Live(vs, i + 1)|
    requires Live(vs, i + 1)[d + 1..] == Live(vs, i)[d + 1..] + (if vs[i] != "null" then [i] else [])
    ensures d + 1 <= |Live(vs, i + 2)| && Live(vs, i + 2)[d + 1..] == Live(vs, i)[d + 1..] + Pushes(s, i)
  {
    OfferLive(vs, i + 1, d);
    var x := if vs[i] != "null" then [i] else [];
    var y := if vs[i + 1] != "null" then [i + 1] else [];
    assert Pushes(s, i) == x + y;
    assert (Live(vs, i)[d + 1..] + x) + y == Live(vs, i)[d + 1..] + (x + y);
  }

  /** One round keeps the arena level-ordered. */
  lemma RoundArena(vs: seq<string>, s: seq<Node>, i: nat, d: nat)
    requires 1 <= i < |s| == |vs| && i == 2 * d + 1
    requires d < |Live(vs, i)| && LinkedFresh(vs, s, Live(vs, i))
    ensures Live(vs, i)[d] < |s|
    ensures i + 1 == |s| ==> LinkedFresh(vs, Served(s, Live(vs, i)[d], i), Live(vs, i + 1))
    ensures i + 1 < |s| ==> LinkedFresh(vs, Served(s, Live(vs, i)[d], i), Live(vs, i + 2))
  {
    OfferArena(vs, s, i, d, true);
    if i + 1 < |s| {
      RoundArenaRight(vs, s, i, d);
    }
  }

  /** The second offer of a round, to the same node, when there is a next entry. */
  lemma RoundArenaRight(vs: seq<string>, s: seq<Node>, i: nat, d: nat)
    requires 1 <= i && i + 1 < |s| == |vs| && i == 2 * d + 1
    requires d < |Live(vs, i)| && Live(vs, i)[d] < |s|
    requires LinkedFresh(vs, Offered(s, Live(vs, i)[d], i, true), Live(vs, i + 1))
    ensures LinkedFresh(vs, Served(s, Live(vs, i)[d], i), Live(vs, i + 2))
  {
    var c := Live(vs, i)[d];
    var s1 := Offered(s, c, i, true);
    OfferLive(vs, i, d);
    OfferArena(vs, s1, i + 1, d, false);
  }

  /** Offers entry `i` to `current` as its left (`left`) or right child, and queues it unless it is `"null"`. */
  method OfferSlot(a: array<Node>, queue: seq<nat>, current: nat, i: nat, left: bool) returns (queue': seq<nat>)
    requires current < a.Length && i < a.Length
    modifies a
    ensures a[..] == Offered(old(a[..]), current, i, left)
    ensures queue' == queue + if old(a[i].value) != "null" then [i] else []
  {
    if a[i].value != "null" {
      Attach(a, current, i, left);
      queue' := queue + [i];
    } else {
      queue' := queue;
    }
  }

  /**
   * One round of the loop with a non-empty queue: the front node is
   * dequeued and offered entry `i` as its left child ("Add left child")
   * and, when there is one, entry `i + 1` as its right child ("Add right
   * child").
   */
  method ServeFront(a: array<Node>, queue: seq<nat>, i: nat) returns (queue': seq<nat>, i': nat)
    requires 1 <= i < a.Length && |queue| > 0 && queue[0] < a.Length
    modifies a
    ensures i' == if i + 1 < a.Length then i + 2 else i + 1
    ensures queue' == queue[1..] + Pushes(old(a[..]), i)
    ensures a[..] == Served(old(a[..]), queue[0], i)
  {
    ghost var s := a[..];
    var current := queue[0];
    queue' := queue[1..];
    queue' := OfferSlot(a, queue', current, i, true);
    i' := i + 1;
    if i' < a.Length {
      ghost var s1 := a[..];
      assert s1[i'].value == Values(s1)[i'] == Values(s)[i'] == s[i'].value;
      queue' := OfferSlot(a, queue', current, i', false);
      i' := i' + 1;
    }
  }

  lemma DropAppend(xs: seq<nat>, ys: seq<nat>, k: nat)
    requires k <= |xs|
    ensures (xs + ys)[k..] == xs[k..] + ys
  {
  }

  /**
   * `createBinaryTree(arr)`: nothing happens on an empty list; otherwise the
   * first node is the root, the loop hands out the entries in level order
   * until the list or the queue runs out, and `createData(rootNode)`
   * completes the tree. A `"null"` entry stays unattached and makes no slot
   * for later entries.
   */
  method CreateBinaryTree(a: array<Node>)
    requires Fresh(a[..])
    modifies a
    ensures a.Length == 0 ==> a[..] == old(a[..])
    ensures 0 < a.Length ==> IsTree(a[..]) && LevelOrderTree(Values(old(a[..])), a[..])
  {
    if a.Length == 0 {
      return;
    }
    ghost var s0 := a[..];
    ghost var vs := Values(s0);
    var queue: seq<nat> := [0];
    var i := 1;
    ghost var d := 0;
    RootArena(s0);
    while i < a.Length
      invariant 1 <= i <= a.Length && (i == 2 * d + 1 || i == a.Length)
      invariant d <= |Live(vs, i)| && queue == Live(vs, i)[d..]
      invariant LinkedFresh(vs, a[..], Live(vs, i))
      decreases a.Length - i
    {
      if |queue| == 0 {
        break;
      }
      RoundQueue(vs, a[..], i, d);
      RoundArena(vs, a[..], i, d);
      queue, i := ServeFront(a, queue, i);
      d := d + 1;
    }
    if i < a.Length {
      Stalled(vs, i, a.Length);
    }
    ghost var s1 := a[..];
    LiveRanked(vs, a.Length);
    LinkedIsTree(vs, s1, Live(vs, a.Length));
    CreateData(a, Some(0));
    CompletedLevelOrder(vs, s1, a[..]);
  }
}
