/**
 * `createTree` and `createNodes` of js/binaryTree.js: the accepted tokens
 * are wrapped in fresh nodes, and the builder of the selected tree type
 * runs on them. The radio buttons that select the tree type, the graph's
 * weight and its direction are parameters here.
 */
module Dispatch {
  import opened Wrappers
  import opened Lists
  import opened JsText
  import opened Nodes
  import LevelOrder
  import BinarySearchTree
  import Graphs

  /** The value of the `tree-type` radio buttons. */
  datatype TreeType = Bst | Bt | Graph

  /** What the builder of the selected tree type did. */
  datatype Built =
    | NothingBuilt
    | SearchTree(outcome: BinarySearchTree.BstOutcome)
    | LevelOrderTree
    | GraphBuilt(graph: Graphs.Graph, components: seq<seq<nat>>)

  /** What `createBST` promises about the nodes `s0` it was given, the nodes `t` it left and its outcome. */
  ghost predicate BstDone(s0: seq<Node>, t: seq<Node>, outcome: BinarySearchTree.BstOutcome) {
    var values := BinarySearchTree.NonNull(Values(s0));
    && |t| == |s0|
    && (|s0| == 0 ==> outcome == BinarySearchTree.NoNodes && t == s0)
    && (0 < |s0| && !Distinct(values) ==> outcome == BinarySearchTree.DuplicateValues(LaterOccurrences(values)) && t == s0)
    && (0 < |s0| && Distinct(values) && "null" in Values(s0) ==>
          outcome == BinarySearchTree.LevelOrderBuilt && IsTree(t) && LevelOrder.LevelOrderTree(Values(s0), t))
    && (0 < |s0| && Distinct(values) && "null" !in Values(s0) ==>
          outcome == BinarySearchTree.SearchTreeBuilt && BinarySearchTree.BuiltSearchTree(s0, t))
  }

  /**
   * `createTree(arr)`: nothing on an empty list; otherwise `createBST`,
   * `createBinaryTree` or `createGraph` according to the tree type. The
   * graph builder makes nodes of its own and leaves the list alone; every
   * builder keeps the nodes' values.
   */
  method CreateTree(a: array<Node>, treeType: TreeType, isWeighted: bool, isDirected: bool) returns (built: Built)
    requires Fresh(a[..])
    modifies a
    ensures Values(a[..]) == Values(old(a[..]))
    ensures a.Length == 0 ==> built == NothingBuilt && a[..] == old(a[..])
    ensures 0 < a.Length && treeType == Bst ==> built.SearchTree? && BstDone(old(a[..]), a[..], built.outcome)
    ensures 0 < a.Length && treeType == Bt ==>
      built == LevelOrderTree && IsTree(a[..]) && LevelOrder.LevelOrderTree(Values(old(a[..])), a[..])
    ensures 0 < a.Length && treeType == Graph ==>
      && a[..] == old(a[..]) && built.GraphBuilt?
      && Graphs.CreatedGraph(Values(a[..]), isWeighted, isDirected, built.graph, built.components)
  {
    if a.Length == 0 {
      return NothingBuilt;
    }
    ghost var s0 := a[..];
    match treeType
    case Bst =>
      var outcome := BinarySearchTree.CreateBST(a);
      built := SearchTree(outcome);
      KeptValues(s0, a[..], outcome);
    case Bt =>
      LevelOrder.CreateBinaryTree(a);
      built := LevelOrderTree;
      LevelOrderValues(Values(s0), a[..]);
    case Graph =>
      var g, components := Graphs.CreateGraph(Values(a[..]), isWeighted, isDirected);
      built := GraphBuilt(g, components);
  }

  /** The level-order tree of `vs` holds the values `vs`. */
  lemma LevelOrderValues(vs: seq<string>, t: seq<Node>)
    requires |t| == |vs| && LevelOrder.LevelOrderTree(vs, t)
    ensures Values(t) == vs
  {
    forall j | 0 <= j < |t| ensures Values(t)[j] == vs[j] {
      assert t[j].value == vs[j];
    }
  }

  /** Each outcome of `createBST` keeps the values. */
  lemma KeptValues(s0: seq<Node>, t: seq<Node>, outcome: BinarySearchTree.BstOutcome)
    requires 0 < |s0| && BstDone(s0, t, outcome)
    ensures Values(t) == Values(s0)
  {
    var values := BinarySearchTree.NonNull(Values(s0));
    if Distinct(values) && "null" in Values(s0) {
      LevelOrderValues(Values(s0), t);
    } else if Distinct(values) {
      assert forall j | 0 <= j < |t| :: Values(t)[j] == Values(s0)[j];
    }
  }

  /**
   * The value a token gets as a node: in tree modes a token that reads
   * `null` in any letter case becomes `"null"`; any other token, and every
   * token in graph mode, is kept verbatim.
   */
  function NodeValue(token: string, treeType: TreeType): (v: string)
    ensures treeType == Graph ==> v == token
    ensures treeType != Graph ==> (v == "null" <==> IsNullWord(token)) && (v != "null" ==> v == token)
  {
    if treeType != Graph && IsNullWord(token) then "null" else token
  }

  /** The tokens other than the empty string, in order. */
  function NonEmpty(list: seq<string>): (r: seq<string>)
    ensures |r| <= |list| && forall v :: v in r <==> v in list && v != ""
  {
    if |list| == 0 then []
    else NonEmpty(list[..|list| - 1]) + (if list[|list| - 1] != "" then [list[|list| - 1]] else [])
  }

  /** The values of the nodes `createNodes(list)` makes. */
  function Wrapped(list: seq<string>, treeType: TreeType): seq<string> {
    if |list| == 0 then []
    else
      var token := list[|list| - 1];
      Wrapped(list[..|list| - 1], treeType) + (if token != "" then [NodeValue(token, treeType)] else [])
  }

  /**
   * `createNodes` skips the empty tokens, keeps the order of the others, and
   * gives each the value `NodeValue` says: one node per non-empty token.
   */
  lemma {:induction false} WrappedSpec(list: seq<string>, treeType: TreeType)
    ensures |Wrapped(list, treeType)| == |NonEmpty(list)|
    ensures forall k | 0 <= k < |NonEmpty(list)| :: Wrapped(list, treeType)[k] == NodeValue(NonEmpty(list)[k], treeType)
  {
    if |list| > 0 {
      WrappedSpec(list[..|list| - 1], treeType);
    }
  }

  /** A list with no empty token and no token that reads `null` other than `"null"` is wrapped verbatim. */
  lemma {:induction false} WrappedVerbatim(list: seq<string>, treeType: TreeType)
    requires forall k | 0 <= k < |list| :: list[k] != "" && (treeType != Graph && IsNullWord(list[k]) ==> list[k] == "null")
    ensures Wrapped(list, treeType) == list
  {
    if |list| > 0 {
      WrappedVerbatim(list[..|list| - 1], treeType);
      assert list == list[..|list| - 1] + [list[|list| - 1]];
    }
  }

  /** `new Node(v, null, null)` for each value, in order. */
  function NewNodes(vs: seq<string>): (r: seq<Node>)
    ensures Fresh(r) && Values(r) == vs
  {
    var r := seq(|vs|, k requires 0 <= k < |vs| => NewNode(vs[k]));
    assert Values(r) == vs;
    r
  }

  /**
   * The loop of `createNodes` that wraps each non-empty token in a new node,
   * in order.
   */
  method WrapTokens(list: seq<string>, treeType: TreeType) returns (newList: seq<Node>)
    ensures newList == NewNodes(Wrapped(list, treeType))
  {
    newList := [];
    var i := 0;
    while i < |list|
      invariant 0 <= i <= |list|
      invariant newList == NewNodes(Wrapped(list[..i], treeType))
    {
      assert list[..i + 1][..i] == list[..i];
      if list[i] != "" {
        if treeType != Graph && IsNullWord(list[i]) {
          newList := newList + [NewNode("null")];
        } else {
          newList := newList + [NewNode(list[i])];
        }
      }
      i := i + 1;
    }
    assert list[..i] == list;
  }

  /**
   * `createNodes(list)`: nothing is built for an empty list; otherwise the
   * tokens are wrapped in new nodes and, when there are any, `createTree`
   * runs on them. The nodes come back with the wrapped values.
   */
  method CreateNodes(list: seq<string>, treeType: TreeType, isWeighted: bool, isDirected: bool)
    returns (a: array<Node>, built: Built)
    ensures fresh(a) && Values(a[..]) == Wrapped(list, treeType)
    ensures |Wrapped(list, treeType)| == 0 ==> built == NothingBuilt
    ensures 0 < a.Length && treeType == Graph ==>
      built.GraphBuilt? && Graphs.CreatedGraph(Wrapped(list, treeType), isWeighted, isDirected, built.graph, built.components)
    ensures 0 < a.Length && treeType == Bt ==> built == LevelOrderTree && IsTree(a[..]) && LevelOrder.LevelOrderTree(Wrapped(list, treeType), a[..])
    ensures 0 < a.Length && treeType == Bst ==> built.SearchTree? && BstDone(NewNodes(Wrapped(list, treeType)), a[..], built.outcome)
  {
    if |list| == 0 {
      a := new Node[0];
      return a, NothingBuilt;
    }
    var newList := WrapTokens(list, treeType);
    a := new Node[|newList|](k requires 0 <= k < |newList| => newList[k]);
    assert a[..] == newList;
    if a.Length > 0 {
      built := CreateTree(a, treeType, isWeighted, isDirected);
    } else {
      built := NothingBuilt;
    }
  }
}
