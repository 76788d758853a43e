/**
 * `getInput` and `getRoot` of js/index.js: the text of the input field is
 * split on single spaces, blank pieces are dropped, and the tokens the
 * selected tree type accepts are handed to `createNodes`. The text and the
 * tree type are parameters here instead of reads of the page.
 */
module Input {
  import opened Wrappers
  import opened JsText
  import opened Nodes
  import Dispatch
  import Graphs
  import Lists
  import LevelOrder

  /** The pieces that are not blank, in order: `.filter(item => item.trim() !== "")`. */
  function NonBlank(pieces: seq<string>): (r: seq<string>)
    ensures |r| <= |pieces|
    ensures forall v :: v in r <==> v in pieces && !IsBlank(v)
  {
    if |pieces| == 0 then []
    else
      var last := pieces[|pieces| - 1];
      NonBlank(pieces[..|pieces| - 1]) + (if Trim(last) != "" then [last] else [])
  }

  /** `value.split(" ").filter(item => item.trim() !== "")`: the tokens of the input text. */
  function Tokens(text: string): (r: seq<string>)
    ensures forall k | 0 <= k < |r| :: !IsBlank(r[k]) && r[k] != "" && r[k] != "\n" && ' ' !in r[k]
  {
    var r := NonBlank(Split(text, ' '));
    forall k | 0 <= k < |r| ensures !IsBlank(r[k]) && r[k] != "" && r[k] != "\n" && ' ' !in r[k] {
      var v := r[k];
      assert v in r && v in Split(text, ' ');
      assert IsBlank("") && IsBlank("\n");
    }
    r
  }

  /**
   * A token's contribution to the output of `getInput`: in graph mode the
   * token itself, unless it is empty or a line feed; in tree modes `"null"`
   * for a token that reads `null` in any letter case, the token itself when
   * `isNaN` does not reject it (and it is not a line feed), nothing
   * otherwise.
   */
  function Pushed(token: string, treeType: Dispatch.TreeType): seq<string> {
    if treeType == Dispatch.Graph then
      if token != "" && token != "\n" then [token] else []
    else if IsNullWord(token) then ["null"]
    else if IsNumeric(token) && token != "\n" then [token]
    else []
  }

  /** What `getInput` returns for the tokens `arr`. */
  function Accepted(arr: seq<string>, treeType: Dispatch.TreeType): seq<string> {
    if |arr| == 0 then [] else Accepted(arr[..|arr| - 1], treeType) + Pushed(arr[|arr| - 1], treeType)
  }

  /** The tokens a tree mode keeps: those that read `null` in any letter case, and numbers. */
  function TreeTokens(arr: seq<string>): (r: seq<string>)
    ensures forall v :: v in r <==> v in arr && (IsNullWord(v) || (IsNumeric(v) && v != "\n"))
  {
    if |arr| == 0 then []
    else
      var last := arr[|arr| - 1];
      TreeTokens(arr[..|arr| - 1]) + (if IsNullWord(last) || (IsNumeric(last) && last != "\n") then [last] else [])
  }

  /**
   * In tree modes `getInput` keeps, in order, exactly the tokens that read
   * `null` (as `"null"`) and the numbers (verbatim), and drops the rest.
   */
  lemma {:induction false} AcceptedTree(arr: seq<string>, treeType: Dispatch.TreeType)
    requires treeType != Dispatch.Graph
    ensures |Accepted(arr, treeType)| == |TreeTokens(arr)| <= |arr|
    ensures forall k | 0 <= k < |TreeTokens(arr)| ::
      Accepted(arr, treeType)[k] == if IsNullWord(TreeTokens(arr)[k]) then "null" else TreeTokens(arr)[k]
  {
    if |arr| > 0 {
      AcceptedTree(arr[..|arr| - 1], treeType);
    }
  }

  /** Every value a tree mode accepts is `"null"` or a number. */
  lemma AcceptedTreeValues(arr: seq<string>, treeType: Dispatch.TreeType)
    requires treeType != Dispatch.Graph
    ensures forall v | v in Accepted(arr, treeType) :: v == "null" || (IsNumeric(v) && v in arr)
  {
    AcceptedTree(arr, treeType);
    forall v | v in Accepted(arr, treeType) ensures v == "null" || (IsNumeric(v) && v in arr) {
      var k :| 0 <= k < |Accepted(arr, treeType)| && Accepted(arr, treeType)[k] == v;
      assert TreeTokens(arr)[k] in TreeTokens(arr);
    }
  }

  /** In graph mode every token is kept verbatim, commas included. */
  lemma {:induction false} AcceptedGraph(arr: seq<string>)
    requires forall k | 0 <= k < |arr| :: arr[k] != "" && arr[k] != "\n"
    ensures Accepted(arr, Dispatch.Graph) == arr
  {
    if |arr| > 0 {
      AcceptedGraph(arr[..|arr| - 1]);
      assert arr == arr[..|arr| - 1] + [arr[|arr| - 1]];
    }
  }

  /**
   * `createNodes` changes nothing in what `getInput` accepted: no token is
   * empty, and a tree-mode token reading `null` already is `"null"`.
   */
  lemma {:induction false} AcceptedWrapsVerbatim(arr: seq<string>, treeType: Dispatch.TreeType)
    requires forall k | 0 <= k < |arr| :: arr[k] != "" && arr[k] != "\n"
    ensures Dispatch.Wrapped(Accepted(arr, treeType), treeType) == Accepted(arr, treeType)
  {
    var acc := Accepted(arr, treeType);
    if treeType == Dispatch.Graph {
      AcceptedGraph(arr);
    } else {
      AcceptedTreeValues(arr, treeType);
      forall k | 0 <= k < |acc| ensures acc[k] != "" && (IsNullWord(acc[k]) ==> acc[k] == "null") {
        var v := acc[k];
        assert v in acc;
        if v != "null" {
          assert v in arr;
          if IsNullWord(v) {
            NullWordNotNumeric(v);
          }
        }
      }
    }
    Dispatch.WrappedVerbatim(acc, treeType);
  }

  /**
   * `getInput()`: the tokens of the text, then the loop of the selected
   * tree type, which pushes what `Pushed` says for each token in turn.
   */
  method GetInput(text: string, treeType: Dispatch.TreeType) returns (num: seq<string>)
    ensures num == Accepted(Tokens(text), treeType)
  {
    var arr := Tokens(text);
    num := AcceptTokens(arr, treeType);
  }

  /** The two loops of `getInput`, one per kind of tree type. */
  method AcceptTokens(arr: seq<string>, treeType: Dispatch.TreeType) returns (num: seq<string>)
    ensures num == Accepted(arr, treeType)
  {
    num := [];
    var i := 0;
    if treeType == Dispatch.Graph {
      while i < |arr|
        invariant 0 <= i <= |arr| && num == Accepted(arr[..i], treeType)
      {
        AcceptedSnoc(arr, i, treeType);
        if arr[i] != "" && arr[i] != "\n" {
          num := num + [arr[i]];
        }
        i := i + 1;
      }
    } else {
      while i < |arr|
        invariant 0 <= i <= |arr| && num == Accepted(arr[..i], treeType)
      {
        AcceptedSnoc(arr, i, treeType);
        num := PushTreeToken(num, arr[i], treeType);
        i := i + 1;
      }
    }
    assert arr[..i] == arr;
  }

  /** One round of the tree-mode loop of `getInput`. */
  method PushTreeToken(num: seq<string>, token: string, treeType: Dispatch.TreeType) returns (num': seq<string>)
    requires treeType != Dispatch.Graph
    ensures num' == num + Pushed(token, treeType)
  {
    num' := num;
    if IsNullWord(token) {
      num' := num' + ["null"];
    } else if IsNumeric(token) && token != "\n" {
      num' := num' + [token];
    }
  }

  lemma AcceptedSnoc(arr: seq<string>, i: nat, treeType: Dispatch.TreeType)
    requires i < |arr|
    ensures Accepted(arr[..i + 1], treeType) == Accepted(arr[..i], treeType) + Pushed(arr[i], treeType)
  {
    assert arr[..i + 1][..i] == arr[..i];
  }

  /**
   * `getRoot()`: `null` without building anything when `getInput` accepts
   * no token; otherwise the nodes `createNodes` made (and built on), whose
   * values are exactly the accepted tokens, in order, together with what
   * the chosen builder made of them: the level-order tree, the search tree
   * and its in-order rendering, or the graph and its components.
   */
  method GetRoot(text: string, treeType: Dispatch.TreeType, isWeighted: bool, isDirected: bool)
    returns (root: Option<array<Node>>, built: Dispatch.Built)
    ensures root.None? <==> Accepted(Tokens(text), treeType) == []
    ensures root.None? ==> built == Dispatch.NothingBuilt
    ensures root.Some? ==> fresh(root.value) && Values(root.value[..]) == Accepted(Tokens(text), treeType)
    ensures root.Some? && treeType == Dispatch.Graph ==>
      && built.GraphBuilt? && built.graph.allNodes != []
      && Graphs.CreatedGraph(Tokens(text), isWeighted, isDirected, built.graph, built.components)
    ensures root.Some? && treeType == Dispatch.Bt ==>
      && built == Dispatch.LevelOrderTree && IsTree(root.value[..])
      && LevelOrder.LevelOrderTree(Accepted(Tokens(text), treeType), root.value[..])
    ensures root.Some? && treeType == Dispatch.Bst ==>
      built.SearchTree? && Dispatch.BstDone(Dispatch.NewNodes(Accepted(Tokens(text), treeType)), root.value[..], built.outcome)
  {
    var result := GetInput(text, treeType);
    if |result| == 0 {
      return None, Dispatch.NothingBuilt;
    }
    AcceptedWrapsVerbatim(Tokens(text), treeType);
    var nodes;
    nodes, built := Dispatch.CreateNodes(result, treeType, isWeighted, isDirected);
    root := Some(nodes);
    if treeType == Dispatch.Graph {
      AcceptedGraph(Tokens(text));
      GraphHasNodes(Tokens(text), isWeighted, isDirected);
    }
  }

  /** Non-blank tokens always make a graph with at least one node. */
  lemma GraphHasNodes(tokens: seq<string>, isWeighted: bool, isDirected: bool)
    requires tokens != [] && forall k | 0 <= k < |tokens| :: !IsBlank(tokens[k])
    ensures Graphs.Build(tokens, isWeighted, isDirected).allNodes != []
  {
    var last := tokens[|tokens| - 1];
    Graphs.BuildNames(tokens, isWeighted, isDirected);
    var e := Graphs.ParseEntry(last, false);
    assert !e.Blank?;
    assert Graphs.Mentions(tokens) == Graphs.Mentions(tokens[..|tokens| - 1]) + Graphs.EntryNames(e);
    assert Graphs.EntryNames(e)[0] in Graphs.Mentions(tokens);
    Lists.FirstOccurrencesSpec(Graphs.Mentions(tokens));
  }
}
