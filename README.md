# Visualizer construction core in Dafny

This project models the part of the JS Visualizer that turns the text of the
input field into a structure: a binary search tree, a binary tree in level
order, or a graph split into connected components. Drawing is not part of it.

- **Input** (`input.dfy`) models `getInput` and `getRoot` of `js/index.js`.
  The text is split on single spaces and blank pieces are dropped. In graph
  mode every token is kept. In the tree modes, a token that reads `null` in
  any letter case becomes `"null"`, a token `isNaN` accepts is kept verbatim,
  and every other token is dropped silently. `getRoot` returns nothing when no
  token is left. Otherwise it returns what `createNodes` made.
- **Dispatch** (`dispatch.dfy`) models `createNodes` and `createTree` of
  `js/binaryTree.js`. Each non-empty token is wrapped in `new Node(v, null, null)`.
  The builder of the selected tree type then runs on the list.
- **BinarySearchTree** (`binary_search_tree.dfy`) models `createBST` and
  `nodeDirectionBST`:
  - repeated values, other than `"null"`, are refused, and the refusal lists the repeats;
  - a list with a `"null"` entry is built in level order;
  - otherwise every entry after the first is inserted from the root.
  The model proves that the result is a tree and that it holds every entry,
  with the `isLeft`/`isRight` flags matching the links and the root left
  without parent.
  It proves the search property node by node. When all values are numbers,
  it also proves that the in-order keys ascend.
- **LevelOrder** (`level_order.dfy`) models `createBinaryTree` of
  `js/treeTypes.js`. The queue loop is proved against a reference
  definition, `Live`: the `u`-th node that gets attached owns input slots
  `2u+1` and `2u+2`.
- **Nodes** (`nodes.dfy`) holds the node record and `createData`. That pass
  fills each attached node's `children` list in the shape the renderer
  expects, with hidden `"Empty"` placeholders, and sets the parent links.
- **Graphs** (`graphs.dfy`) models `createGraph` and `dfsComponent`:
  - the first pass reads entries into `allNodes`, the name registry and `edges`;
  - the second pass collects components by depth-first search.
  The model proves how node names, edges and adjacency follow from the entries. It also proves that
  the components partition the nodes, that each component is exactly the set
  of nodes its first node reaches without entering an earlier component, and
  that in an undirected graph each component is closed under adjacency and is
  exactly the set of nodes connected to its first node.
- **JsText**, **Lists** and **Wrappers** hold the string built-ins the code
  relies on (`trim`, `split`, `toLowerCase() === "null"`, `Number`/`isNaN`, a
  stand-in for `localeCompare`) and sequence helpers.

Object references are modelled as positions in an arena. The tree builders
work in place on an `array<Node>` whose `left`, `right` and `parent` fields
are optional indices. A graph node is identified by its position in
`allNodes`. The radio buttons for the tree type, the weight and the
direction, and the text of the input field, are parameters.

Three behaviours of the code worth noting:
- There is no validation pass for level-order positions. A value whose would-be
  parent was `null` is attached wherever the queue puts it, or left unattached
  once the queue runs dry.
- The depth-first search of a directed graph follows forward `children`
  only, so a component is what one node reaches, not an undirected closure.
- In a binary tree whose first entry is `"null"`, that root still receives
  children.

## Model

| member | source | states |
|---|---|---|
| Input.Tokens | js/index.js:6 | every token is non-empty, not blank, not a line feed, and holds no space |
| Input.NonBlank | js/index.js:6 | keeps exactly the pieces whose trimmed text is not empty, never more than it was given |
| Input.AcceptedTree | js/index.js:18-29 | in tree modes the output keeps, in order, exactly the tokens that read `null` (as `"null"`) and the numeric tokens (verbatim) |
| Input.AcceptedTreeValues | js/index.js:18-29 | every value accepted in a tree mode is `"null"` or a numeric token of the input |
| Input.AcceptedGraph | js/index.js:11-17 | in graph mode every non-empty token that is not a line feed is kept verbatim and in order |
| Input.AcceptTokens | js/index.js:11-29 | the two loops compute the accepted list token by token |
| Input.GetInput | js/index.js:3-33 | the result is the accepted list of the tokens of the text |
| Input.AcceptedWrapsVerbatim | js/binaryTree.js:237-255 | wrapping the accepted tokens in nodes changes no value |
| Input.GetRoot | js/index.js:58-71 | nothing is built exactly when no token is accepted; otherwise the fresh nodes carry the accepted tokens in order, and the selected builder's full outcome holds on them: the level-order tree, the finished search tree or its refusal, or a non-empty graph with its components |
| Input.GraphHasNodes | js/treeTypes.js:80-130 | a non-empty list of non-blank entries always registers at least one node |
| Dispatch.NodeValue | js/binaryTree.js:239-255 | in graph mode the token is kept; in tree modes the value is `"null"` exactly when the token reads `null`, and the token otherwise |
| Dispatch.NonEmpty | js/binaryTree.js:242-248 | keeps exactly the non-empty tokens |
| Dispatch.WrappedSpec | js/binaryTree.js:237-255 | one node per non-empty token, in order, with the value `NodeValue` gives |
| Dispatch.WrappedVerbatim | js/binaryTree.js:247-254 | a list without empty tokens, whose only `null`-reading token is `"null"`, is wrapped unchanged |
| Dispatch.NewNodes | js/binaryTree.js:1-9 | the new nodes have no links, no parent, no children, and carry the given values |
| Dispatch.WrapTokens | js/binaryTree.js:237-255 | the wrapping loop makes exactly the nodes `WrappedSpec` describes |
| Dispatch.CreateNodes | js/binaryTree.js:226-271 | the returned nodes carry the wrapped values; nothing is built for no nodes; otherwise the selected builder's full outcome, including the graph's components and their reachability |
| Dispatch.CreateTree | js/binaryTree.js:44-69 | nothing on an empty list; otherwise the selected builder runs with its full outcome (search tree with side flags, level-order tree, or graph whose components are the reach sets), every builder keeps the values, and the graph builder leaves the list alone |
| Dispatch.LevelOrderValues | js/treeTypes.js:2-58 | the level-order tree holds the input values at their positions |
| Dispatch.KeptValues | js/binaryTree.js:72-146 | every outcome of `createBST` keeps the node values |
| Nodes.CreateData | js/binaryTree.js:194-224 | links and values unchanged; every node under the start gets its render-shaped `children` and its children's `parent`; nodes outside keep their parent |
| Nodes.VisitNode | js/binaryTree.js:196-219 | one visit fills the node's `children` and its children's `parent` and changes no link |
| Nodes.VisitOne | js/binaryTree.js:196-219 | a visit completes node `j`'s `children`, sets its children's `parent`, and changes no link and no other node's list or parent |
| Nodes.CompletedFromEmpty | js/binaryTree.js:198-219 | from an empty list, the pushes and the `unshift` give `[left, right]`, `[left, Empty right]`, `[Empty left, right]` or `[]` |
| Nodes.AdoptLeft | js/binaryTree.js:198-207 | setting the left child's parent changes no link |
| Nodes.AdoptRight | js/binaryTree.js:210-219 | setting the right child's parent changes no link |
| Nodes.InOrderDistinct | js/binaryTree.js:221-222 | the recursion over a tree visits no node twice |
| Nodes.SubtreesOf | js/binaryTree.js:221-222 | a node's subtree is the node and its two disjoint child subtrees, and `createData` keeps it |
| Nodes.InOrderBounds | js/binaryTree.js:221-222 | a subtree lies at or after its root in the arena |
| BinarySearchTree.AttachPoint | js/binaryTree.js:148-192 | the descent ends at a free slot of a node under the root |
| BinarySearchTree.NodeDirectionBST | js/binaryTree.js:148-192 | the arena afterwards is the old arena with the node linked at its attach point |
| BinarySearchTree.LinkReach | js/binaryTree.js:169-191 | linking adds exactly the new node to the subtrees that hold its new parent |
| BinarySearchTree.LinkTree | js/binaryTree.js:169-191 | linking an unattached leaf into a free slot keeps the arena a tree |
| BinarySearchTree.PathAt | js/binaryTree.js:169-191 | at every node on the descent, the inserted value goes to the side the comparison chooses |
| BinarySearchTree.InsertStep | js/binaryTree.js:129-134 | an insertion attaches the next entry under the root and leaves later entries untouched |
| BinarySearchTree.GrownSkip | js/binaryTree.js:130 | a `"null"` entry is skipped |
| BinarySearchTree.InsertKeepsSearch | js/binaryTree.js:169-191 | an insertion keeps the search property |
| BinarySearchTree.InsertFlags | js/binaryTree.js:169-191 | an insertion flags the new node on the side of its new link and changes no other flag |
| BinarySearchTree.LinkFlags | js/binaryTree.js:169-191 | setting a free link and the matching flag on a node no link targets keeps every flag matching its link |
| BinarySearchTree.FlaggedInitially | js/binaryTree.js:1-9 | fresh nodes carry no side flag |
| BinarySearchTree.InsertEntry | js/binaryTree.js:129-134 | one round of the loop is `nodeDirectionBST(rootNode, arr[i])`; it attaches the entry and keeps the search property and the side flags |
| BinarySearchTree.NumericKey | js/binaryTree.js:157-167 | a numeric value is compared by its number |
| BinarySearchTree.SearchTreeAscending | js/binaryTree.js:169-191 | in a search tree of numeric values the in-order keys ascend |
| BinarySearchTree.NonNull | js/binaryTree.js:81 | keeps exactly the values other than `"null"` |
| BinarySearchTree.FinishedSearchTree | js/binaryTree.js:121-137 | after the insertion loop and `createData`, the arena is a search tree holding every entry once, in render shape, with parents set, side flags matching the links and no parent on the root |
| BinarySearchTree.CreateBST | js/binaryTree.js:72-146 | no nodes: nothing; repeats: refused with the repeated values and untouched; a `"null"` entry: the level-order tree; otherwise the completed search tree, with `isLeft`/`isRight` set exactly on left/right children and the root without parent |
| Lists.DistinctIffSetSize | js/binaryTree.js:81-84 | the values are distinct exactly when their set is as large as the list |
| Lists.LaterOccurrencesCount | js/binaryTree.js:86 | the reported duplicates hold each value once less often than the list does |
| Lists.LaterOccurrencesEmptyIffDistinct | js/binaryTree.js:84-86 | nothing is reported exactly when the values are distinct |
| Lists.FirstOccurrencesSpec | js/treeTypes.js:93-100 | registering names on first sight keeps each name once and misses none |
| JsText.Trim | js/index.js:6 | the trimmed text is empty exactly when the text is blank, and otherwise starts and ends with a non-space |
| JsText.TrimWithin | js/index.js:6 | trimming only removes characters |
| JsText.Split | js/index.js:6 | one piece more than there are separators, and no piece holds the separator |
| JsText.JoinSplit | js/index.js:6 | joining the pieces with the separator gives back the text |
| JsText.SplitAtLeastTwo | js/treeTypes.js:83-87 | a text with a comma splits into at least two fields |
| JsText.NullWordNotNumeric | js/index.js:22-27 | a token that reads `null` is never numeric, so the two tree-mode branches do not overlap |
| JsText.CompareText | js/binaryTree.js:166 | the comparison is `-1`, `0` or `1`, and `0` exactly for equal texts |
| LevelOrder.LiveFacts | js/treeTypes.js:13-46 | attached entries ascend, the root comes first, every other one is not `"null"` and is owned by an earlier rank |
| LevelOrder.NextLive | js/treeTypes.js:23-45 | an entry is attached exactly when it is not `"null"` and its owner was attached |
| LevelOrder.Stalled | js/treeTypes.js:17-21 | once the queue is empty nothing more is attached |
| LevelOrder.NoNullsIsComplete | js/treeTypes.js:16-46 | without `"null"` entries every entry is attached: a complete tree |
| LevelOrder.NullsNeverAttached | js/treeTypes.js:26-38 | a `"null"` entry is never attached |
| LevelOrder.LinkedIsTree | js/treeTypes.js:16-46 | the level-order links form a tree |
| LevelOrder.ReachedIffLive | js/treeTypes.js:16-46 | a node is reachable from the root exactly when it was attached |
| LevelOrder.Attach | js/treeTypes.js:27-41 | sets the parent's slot and the child's parent and side flag |
| LevelOrder.AttachStep | js/treeTypes.js:27-41 | attaching the next owned slot keeps the arena in agreement with the reference |
| LevelOrder.OfferSlot | js/treeTypes.js:24-33 | attaches a non-`"null"` entry and queues it; a `"null"` entry changes nothing |
| LevelOrder.OfferArena | js/treeTypes.js:24-33 | one slot keeps the arena in agreement with the reference |
| LevelOrder.ServeFront | js/treeTypes.js:16-45 | one round dequeues the front, offers up to two slots and queues the attached entries |
| LevelOrder.RoundQueue | js/treeTypes.js:16-45 | after a round the queue is the reference's attached entries not yet served |
| LevelOrder.RoundArena | js/treeTypes.js:16-45 | after a round the arena agrees with the reference |
| LevelOrder.CompletedLevelOrder | js/treeTypes.js:48-49 | `createData` on the level-order arena gives the finished level-order tree |
| LevelOrder.CreateBinaryTree | js/treeTypes.js:2-58 | nothing on no nodes; otherwise a tree whose links, parents, side flags and `children` are those of the reference level order |
| Graphs.ParseEntry | js/treeTypes.js:81-128 | an entry is an edge exactly when its trimmed text has a comma, blank exactly when it is blank; the weight is `"1"` when unweighted |
| Graphs.EntryNamesIgnoreWeight | js/treeTypes.js:88 | the weight setting does not change which names an entry mentions |
| Graphs.Build | js/treeTypes.js:80-130 | the first pass leaves a well-formed graph |
| Graphs.RegisterWf | js/treeTypes.js:93-100 | registering a name keeps the graph well formed and extends `allNodes` |
| Graphs.HasChildNamedIff | js/treeTypes.js:113-118 | the test by name is the test by node, since names are one-to-one |
| Graphs.AddChildWf | js/treeTypes.js:113-115 | adding a child adds exactly that link and keeps the graph well formed |
| Graphs.LinkEdgeWf | js/treeTypes.js:102-120 | an edge adds exactly its links (both ways when undirected) and appends itself to `edges` |
| Graphs.StepWf | js/treeTypes.js:80-130 | reading one entry keeps the graph well formed |
| Graphs.ReadEntry | js/treeTypes.js:81-129 | one round of the first pass reads one entry |
| Graphs.ReadEntries | js/treeTypes.js:80-130 | the first pass builds the graph of the entries |
| Graphs.BuildNames | js/treeTypes.js:92-128 | `allNodes` holds every mentioned name once, in order of first mention, and the registry holds exactly those names |
| Graphs.StepNames | js/treeTypes.js:92-128 | reading an entry registers the names it mentions, new ones at the end |
| Graphs.BuildEdges | js/treeTypes.js:102-110 | `edges` holds one record per edge entry, in order, with its ends' positions |
| Graphs.StepEdges | js/treeTypes.js:102-110 | reading an entry appends its edge record, if any, and nothing else |
| Graphs.StepRecords | js/treeTypes.js:92-110 | reading an entry keeps every registered position and appends exactly its edge |
| Graphs.BuildAdjacency | js/treeTypes.js:112-120 | a node is a child of another exactly when an edge joins them in that direction (either direction when undirected) |
| Graphs.StepAdjacency | js/treeTypes.js:112-120 | reading an entry keeps `children` in agreement with `edges` |
| Graphs.UndirectedSymmetric | js/treeTypes.js:117-120 | in an undirected graph the child relation is symmetric |
| Graphs.DfsComponent | js/treeTypes.js:164-176 | a visited node changes nothing; otherwise the node comes first, each node is added once, only unvisited nodes are added, every added node is reachable from the start without passing a previously visited node, and every child of an added node ends up visited |
| Graphs.SearchDone | js/treeTypes.js:171-175 | once every child of the start node is visited the nodes the search added are closed under children |
| Graphs.WalkAvoidsLess | js/treeTypes.js:172 | a path that avoids a set of nodes avoids every smaller set |
| Graphs.ReachThroughChild | js/treeTypes.js:171-175 | what a child reaches avoiding the visited set, the node itself reaches |
| Graphs.ReachedStep | js/treeTypes.js:171-175 | the nodes a child's search adds are reachable from the node that started the search |
| Graphs.GrowsTrans | js/treeTypes.js:171-175 | successive searches compose |
| Graphs.AddComponent | js/treeTypes.js:135-142 | a search from the first unvisited node adds a new component and keeps the components found so far valid |
| Graphs.AddComponentReached | js/treeTypes.js:135-142 | the new component's nodes are reachable from its first node without entering an earlier component |
| Graphs.ScanNode | js/treeTypes.js:136-142 | one round of the scan: a visited node changes nothing; otherwise exactly one component, led by that node, is appended |
| Graphs.CollectComponents | js/treeTypes.js:133-143 | the components are non-empty, disjoint, led by their first node in scan order, closed under children up to earlier components, reachable from their first node avoiding earlier components, and cover every node |
| Graphs.WalkInComponent | js/treeTypes.js:133-143 | a path from a component's first node that avoids earlier components stays inside the component |
| Graphs.ComponentIsReachSet | js/treeTypes.js:133-176 | a component is exactly the set of nodes its first node reaches without entering an earlier component |
| Graphs.WalkStaysIn | js/treeTypes.js:171-175 | a path from inside a set closed under children stays in it |
| Graphs.ClosedComponents | js/treeTypes.js:133-176 | when every component is closed under children, each is exactly the set of nodes its first node reaches |
| Graphs.UndirectedComponents | js/treeTypes.js:117-176 | in an undirected graph each component is exactly the set of nodes connected to its first node |
| Graphs.UndirectedClosed | js/treeTypes.js:132-143 | in an undirected graph each component holds every child of its nodes |
| Graphs.ComponentsPartition | js/treeTypes.js:132-143 | every node lies in exactly one component |
| Graphs.CreateGraph | js/treeTypes.js:61-161 | the graph is that of the entries; the components cover and partition it, each is exactly what its first node reaches without entering an earlier one and, when undirected, is closed under adjacency and is the connected set of its first node |

## Left out

- Drawing (`drawGraph`, `drawGraphWithComponents`, `remove`), the error markup `createBST` writes into the page, the button state `createNodes` sets, and all console output: presentation only.
- `action`, `updatePlaceholder`, the zoom, drag and mouse handlers, and the `DOMContentLoaded` wiring: user interface, not construction.
- `getTreeType`, `getGraphWeightType`, `getGraphDirectionType`: reads of radio buttons. Their values are parameters (`TreeType`, `isWeighted`, `isDirected`). An unknown tree type is not modelled, because `TreeType` is closed.
- The `try`/`catch` blocks of `createTree`, `createBST` and `createGraph`: drawing, which could throw, is left out, and the model has no failure path for the builders.
- Recursion depth: `nodeDirectionBST`, `createData` and `dfsComponent` recurse once per tree level or path step. A deep enough input overflows the JavaScript stack; the `catch` swallows the `RangeError` and leaves a partly built structure. The model has unbounded recursion and does not capture that failure.
- JsText.ToNumber: `Number` is modelled for decimal, signed, exponent and `0x`/`0o`/`0b` literals. `Infinity`, `-Infinity` and the numeric separators `Number` rejects are not. `Infinity` counts as a number in JavaScript but not in the model, and no value is rounded to a double.
- JsText.CompareText: `localeCompare` is modelled as code-unit comparison. No locale collation.
- JsText.IsNullWord: `toLowerCase` is modelled for ASCII letters only. No other character lower-cases to `n`, `u` or `l`, so the comparison with `"null"` is unaffected.
- Graphs.Register: the registry is a map. The source's registry is a plain object, and a name such as `constructor` that is already a property of every object is never registered there. The model does not have that quirk.
- Graphs.DfsComponent: `visited` holds positions, not names, and components hold positions rather than node objects. Names are one-to-one with positions, so this is the same set.
- Graphs.CreateGraph: the stored edge records `sourceNode`/`targetNode` are positions, not object references.
- Aliasing: nodes are arena records, and indices stand for references. Sharing of one node object between two lists is not modelled beyond that.
- Nodes.Node: `isLeft`/`isRight` are `null` or `true` in the source. The model uses `false` for `null`. The `parent` parameter defaults to `""`, and the model uses `None` for that unset parent.
