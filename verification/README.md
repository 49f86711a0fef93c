# OrgChart in Dafny

A model of `ariel::OrgChart`, an organisation chart: an n-ary tree of
string-labelled nodes with a nullable root. Labels are added with
`add_root` and `add_sub`. `add_sub` looks up the parent with `search_for`,
a first match in preorder. The chart is walked with three iterator kinds:
level order, preorder and reverse order. Each iterator computes its whole
visiting order when it is built. After that it is a cursor plus a queue of
the nodes still to come. The chart can also be deep-copied and printed as
indented text.

How the model is laid out:

- `tree.dfy` (`OrgTree`): the node, `Node(value, children)`, as a value.
  - A position in the chart is a path of child indices from the root.
  - A `Ref(path, node)` stands for a `Node*`. Two pointers are the same
    exactly when their paths are the same.
- `traversal.dfy` (`Traversals`): the visiting orders as functions.
  - `Pre` is preorder.
  - `Sweep` is the first-in first-out loop the two queue-based constructors
    run.
  - `LevelOrder` and `ReverseOrder` are defined from `Sweep`.
  - The lemmas prove that each order visits every node of the tree exactly
    once.
- `layers.dfy` (`Layers`): the level structure of the two queue-based orders.
- `search.dfy` (`Search`): `search_for`, proved to return the first preorder
  node carrying the label.
- `render.dfy` (`Render`): the printed text, proved equal to a closed form
  with one line per node in preorder.
- `iterator.dfy` (`Iterators`): the iterator class.
  - The constructors' loops are methods verified against the functions in
    `Traversals`.
  - The operators are members of the class.
- `chart.dfy` (`Chart`): the `OrgChart` class, its mutators and its
  `begin*`/`end*` accessors, and `deep_copy_tree`.
- `examples.dfy` (`Walkthrough`): two things.
  - A worked chart: CEO above CTO and CFO, with Dev1 under CTO.
  - The range loop that callers write over an iterator pair.

Reverse order is modelled as the code computes it. The loop enqueues each
node's children right to left and pushes every dequeued node on a stack;
the stack is then emptied into the queue. The result is:

- the deepest level first;
- each level left to right;
- the root last.

Reverse order is not level order read backwards, node for node.
`Layers.ReverseOrderIsNotBackwardLevelOrder` proves that the two differ
whenever two nodes share a depth. `Walkthrough.CompanyOrders` shows
the difference on the worked chart: reverse order is Dev1, CTO, CFO, CEO,
while level order read backwards is Dev1, CFO, CTO, CEO.

The code signals every failure with `std::invalid_argument`, and the model
uses the single error value `InvalidArgument`. A call that can throw returns
an `Outcome`: either `Returned(value)` or `Threw(error)`.

## Model

| member | source | states |
|---|---|---|
| OrgTree.Leaf | sources/OrgChart.hpp:34-45 | a new node carries exactly the given label and no children, so it is one node |
| Traversals.Pre | sources/OrgChart.cpp:241-247 | the preorder of a list of subtrees is empty exactly when the list is |
| Traversals.PreLength | sources/OrgChart.cpp:241-247 | the preorder of a list of subtrees has one entry per node below them |
| Traversals.Sweep | sources/OrgChart.cpp:125-137 | the queue loop emits one entry per node below the queued pointers |
| Traversals.LevelOrder | sources/OrgChart.cpp:122-146 | level order has one entry per node and starts at the root |
| Traversals.ReverseOrder | sources/OrgChart.cpp:90-120 | reverse order has one entry per node and ends at the root |
| Traversals.PreorderVisitsAll | sources/OrgChart.cpp:241-247 | preorder of a tree starts at the root, has one entry per node, never repeats a position, and contains exactly the nodes of the tree |
| Traversals.PreSingle | sources/OrgChart.cpp:241-247 | the preorder of a node is the node followed by its children's preorders in stored child order |
| Traversals.LevelOrderVisitsAll | sources/OrgChart.cpp:122-146 | level order starts at the root, is a permutation of preorder, and visits every node of the tree exactly once |
| Traversals.ReverseOrderVisitsAll | sources/OrgChart.cpp:90-120 | reverse order ends at the root, is a permutation of preorder, and visits every node of the tree exactly once |
| Layers.LevelOrderLayered | sources/OrgChart.cpp:122-146 | in level order a shallower node always comes before a deeper one, and nodes of equal depth come left to right |
| Layers.ReverseOrderLayered | sources/OrgChart.cpp:90-120 | in reverse order a deeper node always comes before a shallower one, and nodes of equal depth come left to right |
| Layers.ReverseOrderIsNotBackwardLevelOrder | sources/OrgChart.cpp:90-120 | if two distinct nodes share a depth, reverse order differs from level order read backwards |
| Search.SearchFor | sources/OrgChart.cpp:298-303 | a search from a null node finds nothing |
| Search.SearchAt | sources/OrgChart.cpp:298-313 | a hit from a node carries the label and is that node or one below it |
| Search.SearchChildren | sources/OrgChart.cpp:305-312 | a hit among the children from the i-th on carries the label and lies below the node |
| Search.FirstIndex | sources/OrgChart.cpp:298-313 | the reference for "first match": an index at which the label occurs, with no occurrence before it, or the length when there is none |
| Search.SearchAtIsFirstInPreorder | sources/OrgChart.cpp:298-313 | a search from a node returns the first node of that node's preorder carrying the label, or null if none does |
| Search.SearchChildrenIsFirstInPreorder | sources/OrgChart.cpp:305-312 | the loop over the children from the i-th on returns the first match in the preorder of those children's subtrees |
| Search.SearchForFindsFirst | sources/OrgChart.cpp:298-313 | a search from the root is null exactly when no node carries the label; otherwise it returns a node of the chart with that label and no earlier preorder node has it |
| Render.PrintChart | sources/OrgChart.cpp:270-291 | a node's text is at least as long as its prefix, marker, label and newline, and ends with a newline |
| Render.PrintChildren | sources/OrgChart.cpp:287-289 | the children's text is empty exactly when no child is left; otherwise it is longer than the prefix and ends with a newline |
| Render.PrintChartWrap | sources/OrgChart.cpp:293-296 | the text is empty exactly when the root is null, and otherwise ends with a newline |
| Render.PrintChartIsLines | sources/OrgChart.cpp:270-291 | a node at depth d ≥ 1 prints as its subtree's preorder, one line per node, each line depending only on the node's depth and label |
| Render.PrintChildrenIsLines | sources/OrgChart.cpp:287-289 | printing the children from the i-th on gives their subtrees' lines in preorder |
| Render.PrintChartWrapIsPreorderLines | sources/OrgChart.cpp:293-296 | a null root prints nothing; otherwise the text is one newline-terminated line per node in preorder: `└──` and the label for the root, then for depth d ≥ 1 four spaces, d−1 bars and `├──`, even for a last sibling |
| Iterators.SameNodeIffSameProgress | sources/OrgChart.cpp:78-84 | two iterators over one order compare equal exactly when they have advanced equally far, and one equals the null iterator exactly when it has passed every node |
| Iterators.SamePositionSameNode | sources/OrgChart.hpp:52 | two pointers into one chart are equal exactly when their positions are equal |
| Iterators.LevelOrderWalk | sources/OrgChart.cpp:125-137 | the queue loop produces exactly the level order of the tree |
| Iterators.ReverseOrderWalk | sources/OrgChart.cpp:94-113 | the mirrored queue loop followed by popping the stack produces exactly the reverse order of the tree |
| Iterators.PushChildrenBackwards | sources/OrgChart.cpp:105-107 | the inner loop appends the node's children to the queue, last child first |
| Iterators.PopAll | sources/OrgChart.cpp:109-113 | emptying the stack into the queue yields the stacked nodes in reverse |
| Iterators.Iterator.constructor | sources/OrgChart.cpp:46 | the default iterator has a null cursor and nothing queued, which is the end state |
| Iterators.Iterator.Copy | sources/OrgChart.hpp:66 | a copy has the same cursor and queue and is a plain iterator |
| Iterators.Iterator.LevelOrder | sources/OrgChart.cpp:122-146 | from a node, the cursor is that node and cursor plus queue is its level order; from null, the end state |
| Iterators.Iterator.ReverseOrder | sources/OrgChart.cpp:90-120 | from a node, cursor plus queue is its reverse order; from null, the end state |
| Iterators.Iterator.Preorder | sources/OrgChart.cpp:148-158 | from a node, the cursor is that node and cursor plus queue is its preorder; from null, the end state |
| Iterators.Iterator.PushPreorder | sources/OrgChart.cpp:241-247 | appends the preorder of the node's subtree to the queue and leaves the cursor alone |
| Iterators.Iterator.Deref | sources/OrgChart.cpp:50-56 | dereferencing reads the label of the first node still to be visited |
| Iterators.Iterator.Increment | sources/OrgChart.cpp:65-76 | with a non-empty queue, the cursor moves to the queue's front, which is removed; with an empty queue, the cursor becomes null; the nodes still to visit lose their first, and at the end nothing changes |
| Iterators.Iterator.PostIncrement | sources/OrgChart.cpp:58-63 | returns a new plain iterator holding the state before the step, and advances as the prefix operator does |
| Iterators.Iterator.Equals | sources/OrgChart.cpp:82-84 | for two consistent iterators: equal exactly when both are exhausted, or both have nodes left and the next ones sit at the same position |
| Iterators.Iterator.NotEquals | sources/OrgChart.cpp:78-80 | the negation of equality |
| Chart.AppendChild | sources/OrgChart.cpp:29 | the root keeps its label, and the node at the parent's position keeps its label and gets the new node appended after its existing children |
| Chart.AppendChildSize | sources/OrgChart.cpp:29 | appending a new node adds exactly its nodes to the chart |
| Chart.AppendChildAppends | sources/OrgChart.cpp:29 | the appended node becomes the last child of the parent |
| Chart.AppendChildKeeps | sources/OrgChart.cpp:29 | every old node keeps its position, label and number of children, except that the parent gains one child; subtrees not on the parent's path are untouched |
| Chart.AppendChildNew | sources/OrgChart.cpp:29 | every position that is new lies at or below the new last child of the parent |
| Chart.OrgChart.constructor | sources/OrgChart.cpp:7 | a new chart is empty |
| Chart.OrgChart.AddRoot | sources/OrgChart.cpp:9-20 | throws exactly when the label is empty and leaves the chart unchanged; otherwise creates a one-node chart, or relabels the root and keeps its children; returns the chart |
| Chart.OrgChart.AddSub | sources/OrgChart.cpp:22-32 | throws and changes nothing exactly when the chart is empty or no node carries the parent label; otherwise the son's label, never checked, becomes the last child of the first preorder node carrying the parent label, and the chart grows by exactly one node |
| Chart.OrgChart.Text | sources/OrgChart.cpp:39-43 | the chart's text is empty for an empty chart, otherwise one line per node in preorder |
| Chart.OrgChart.DeepCopyTree | sources/OrgChart.cpp:255-268 | the copy of null is null; otherwise the copy has the same labels, shape and child order |
| Chart.OrgChart.Begin | sources/OrgChart.cpp:165-171 | throws on an empty chart; otherwise a level-order iterator whose remaining nodes are the chart's level order |
| Chart.OrgChart.End | sources/OrgChart.cpp:173-176 | throws on an empty chart; otherwise a level-order iterator in the end state |
| Chart.OrgChart.BeginPreorder | sources/OrgChart.cpp:179-185 | throws on an empty chart; otherwise a preorder iterator whose remaining nodes are the chart's preorder |
| Chart.OrgChart.EndPreorder | sources/OrgChart.cpp:187-190 | throws on an empty chart; otherwise a preorder iterator in the end state |
| Chart.OrgChart.BeginLevelOrder | sources/OrgChart.cpp:192-198 | throws on an empty chart; otherwise a level-order iterator whose remaining nodes are the chart's level order |
| Chart.OrgChart.EndLevelOrder | sources/OrgChart.cpp:200-204 | throws on an empty chart; otherwise a level-order iterator in the end state |
| Chart.OrgChart.BeginReverseOrder | sources/OrgChart.cpp:207-213 | throws on an empty chart; otherwise a reverse-order iterator whose remaining nodes are the chart's reverse order |
| Chart.OrgChart.EndReverseOrder | sources/OrgChart.cpp:215-219 | throws on an empty chart; otherwise a reverse-order iterator in the end state |
| Walkthrough.CompanyOrders | sources/OrgChart.cpp:90-158 | on the worked chart: preorder is CEO, CTO, Dev1, CFO; level order is CEO, CTO, CFO, Dev1; reverse order is Dev1, CTO, CFO, CEO, unlike level order read backwards |
| Walkthrough.CompanyText | sources/OrgChart.cpp:270-296 | the worked chart's exact text |
| Walkthrough.BuildCompany | sources/OrgChart.cpp:9-32 | one `add_root` and three `add_sub` calls build the worked chart |
| Walkthrough.OrderOfVisitsAll | sources/OrgChart.cpp:90-158 | each kind's order has one entry per node and no repeated position |
| Walkthrough.Collect | sources/OrgChart.cpp:65-84 | stepping an iterator until it equals an end iterator yields the labels of all remaining nodes, in order, in exactly as many steps as there were nodes |
| Walkthrough.WalkChart | sources/OrgChart.cpp:165-219 | walking a chart with one kind's begin/end pair throws on an empty chart; otherwise it yields the labels in that kind's order and reaches the end after exactly node-count steps |

## Left out

- Memory management is not modelled: `recursive_destructor`, the destructor, `new` and `delete`. Nodes are values here.
- The copy and move constructors and the assignment operators of `OrgChart` are declared without definitions, so they are not modelled.
- `operator<<` writes to a `std::ostream` and flushes with `std::endl`. Here the text is returned as a string.
- The label can be written through the reference that `operator*` returns or the pointer that `operator->` returns. This aliases into the tree and is not modelled. `Deref` models a read of the current label, which covers both operators.
- Iterators hold a snapshot of the nodes. A later rename of the root by `add_root` or a new child added by `add_sub` is not seen through the iterator, although the code's live `Node*` pointers would see it. Use after the chart is destroyed is undefined behaviour and is not modelled.
- Exception messages are not modelled. Every failure is the single error `InvalidArgument`.
- `Iterators.Iterator.Equals`: compares positions, so two iterators over different charts at the same position compare equal in the model but not in the code. The model only relates iterators of one chart.
- `Chart.OrgChart.DeepCopyTree`: states only that the copy equals the original as a value. In the code every node of the copy is newly allocated and no node is shared with the original; a value model cannot express that.
- In `it_preorder`'s constructor, the null branch assigns to a local pointer. The cursor is still null because the base constructor nulls it, and the model goes straight to that end state.
- The polymorphic iterator classes are not modelled as separate types. `Kind` records which class each object was built as, and a copy made by postfix `++` is a plain `Iterator`.
