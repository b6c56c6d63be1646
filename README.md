# IdeaSpark mind map: a Dafny model of its core

IdeaSpark is a mind-mapping web application. A document is a graph of idea nodes joined by
parent-to-child edges. The user adds, relabels, recolours, collapses, expands and deletes
nodes, asks a language model for child ideas, and has the canvas laid out as a tree. A
sidebar lists the saved maps, newest first, and lets the user delete one.

This project models that core in Dafny and proves properties about it:

- `graph.dfy` (module `Graph`): nodes and edges as ordered lists looked up by id.
  - It defines the field updates the canvas applies to nodes.
  - It defines reachability, the `findAllChildren` descendant walk, and the removal filters.
  - It defines the toggle that collapse and expand perform.
- `layout.dfy` (module `Layout`): the tidy-up placement `positionNode` computes, as functions.
  - A placement is a list of moves, the visited set afterwards and a footprint.
  - Lemmas prove what the tidy-up visits, where the moves land, and that each node moves at most once.
- `mind_map.dfy` (module `MindMapStore`): the canvas store as a class `MindMap`.
  - The class holds the node list, the edge list and the selected node.
  - Each canvas operation is a method that rewrites those fields, with a contract tying the new state to the old one.
  - The tidy-up is the recursive `PositionNode` method and its children loop `PositionChildren`, proved against `Layout.Place`.
- `idea_route.dfy` (module `IdeaRoute`): the POST handler of the idea-generation route.
  - The handler guards the node text, assembles the prompt, keeps the numbered reply lines and picks the status and fallback.
- `related_ideas.dfy` (module `RelatedIdeas`): `generateRelatedIdeas` and its three fallback lists.
- `prompt.dfy` (modules `IdeaPrompt`, `ModelCall`): what the two prompts share, and the outcome of a model call.
- `text.dfy` and `lists.dfy` (modules `JsText`, `Lists`): the JavaScript string and array operations the parsers use.
- `sidebar.dfy` (module `MapSidebar`): the sidebar's delete-and-reselect rule and its newest-first sort, in a class `Sidebar`. Its dates are either `Date` objects or the strings `JSON.parse` leaves, because the sort throws on the latter (see Findings).
- `scenarios.dfy` (module `MapScenarios`): small worked cases over symbolic ids.
  - A two-leaf tidy-up.
  - Collapsing and re-expanding a root over a collapsed child.
  - The seeded document.
- `wrappers.dfy` (module `Wrappers`): `Option`.

Model choices:

- `uuidv4()` becomes a fresh-id parameter. The store's methods require it to be absent from the node list.
- Several `addNode` calls in one batch each use the state from before the batch. This matches `generateNodeIdeas`, whose `addNode` is closed over that state. So all ideas of a batch land on one provisional spot. `AddNodeFrom` takes that snapshot explicitly.
- `generateNodeIdeas` awaits its `fetch`, and the map can change meanwhile. It is modelled in two steps: `RequestIdeas` captures the state and builds the request, and `ReceiveIdeas` appends the batch for that captured state to the state as it is when the response arrives. `GenerateNodeIdeas` is the two steps with nothing in between.
- The outcome of `fetch` and of the language-model call is an input: a `Response` or a `Completion`.
- `findAllChildren` (components/mind-map.tsx:358-368) keeps no visited set, so it does not end on a cycle. The model follows the code:
  - `FindAllChildren`, `ToggleNodeExpansion` and `DeleteNode` require acyclic edges.
  - Only the tidy-up, whose `positionNode` does keep a visited set, is proved to end on any edge list.

## Model

| member | source | states |
|---|---|---|
| MindMapStore.MindMap.constructor | components/mind-map.tsx:38-59 | A new document holds exactly one node: id "1", label "Central Idea", colour #3b82f6, expanded, not hidden, at (0, 0). It has no edges and no selection. |
| MapScenarios.InitialWellFormed | components/mind-map.tsx:38-59 | The seeded document has distinct ids, only edges between listed nodes, and no cycle. |
| MindMapStore.MindMap.AddRootNode | components/mind-map.tsx:619-640 | On an empty map the node list becomes the central idea alone. Otherwise nothing changes. Edges and selection are untouched. |
| MindMapStore.MindMap.SelectNode | components/mind-map.tsx:223-225 | The clicked node becomes the selection. Nodes and edges are unchanged. |
| MindMapStore.MindMap.ClearSelection | components/mind-map.tsx:228-230 | The selection is cleared. Nodes and edges are unchanged. |
| MindMapStore.ColorOrDefault | components/mind-map.tsx:260 | The colour is never empty. It is the given colour whenever that is present and non-empty. |
| MindMapStore.ChildCount | components/mind-map.tsx:244-246 | The count is at most the number of nodes. It is zero exactly when no listed node is the target of an edge from the parent. |
| MindMapStore.ChildSpot | components/mind-map.tsx:248-251 | A new child goes right of its parent and not above it. Each existing child puts it strictly lower. |
| MindMapStore.NewChild | components/mind-map.tsx:253-269 | The new node has the fresh id, the given label and a non-empty colour. It is expanded, visible, right of its parent and not above it. |
| MindMapStore.EdgeTo | components/mind-map.tsx:273-279 | The new edge runs from the parent to the new child. |
| MindMapStore.MindMap.AddNodeFrom | components/mind-map.tsx:233-283 | An unknown parent (in the snapshot) changes nothing and yields no id. Otherwise exactly one node is appended to the current list. The node has the fresh id and the given label, the colour or the default, is expanded and not hidden, and sits at (parent.x + 250, parent.y + 100 × the snapshot's child count). Exactly one edge `e<parent>-<id>` is appended. The existing lists stay as a prefix. |
| MindMapStore.MindMap.AddNode | components/mind-map.tsx:233-283 | The same as AddNodeFrom on the current state. It also keeps a well-formed graph well formed, and an acyclic one acyclic. |
| MindMapStore.AddChildKeepsWellFormed | components/mind-map.tsx:272-281 | Appending a child with a new id and an edge from a listed parent keeps ids distinct and every edge between listed nodes. It adds no cycle. |
| Graph.AddLeafKeepsAcyclic | components/mind-map.tsx:273-280 | Appending an edge to a node with no outgoing edges keeps an acyclic graph acyclic. |
| MindMapStore.AddChildCounts | components/mind-map.tsx:244-246 | After one child is added, the parent's child count is exactly one more. So a later `addNode` that sees the new state places one row lower. |
| MindMapStore.MindMap.AddIdeaButton | components/mind-map.tsx:697-708 | On a non-empty map, one "New Idea" child of the first node is appended, as `addNode` does. On an empty map the central idea is put back and edges are untouched. The selection is unchanged. |
| MindMapStore.MindMap.AddChildFromToolbar | components/mind-map.tsx:670-673 | A "New Idea" child of the node is appended, or nothing for an unknown id. The selection is cleared. |
| Graph.Apply | components/mind-map.tsx:288-330 | A field update never changes a node's id. |
| Graph.Patch | components/mind-map.tsx:288-330 | The list keeps its length. Each node is updated exactly when its id is in the set; every other node is unchanged. |
| Graph.PatchKeepsIds | components/mind-map.tsx:288-330 | An update keeps the set of ids. |
| Graph.PatchFind | components/mind-map.tsx:288-330 | After an update, a lookup finds the same node, updated exactly when the update covers its id. |
| Graph.PatchUnknown | components/mind-map.tsx:288-330 | An update of ids no node has changes nothing. |
| MindMapStore.PatchKeepsWellFormed | components/mind-map.tsx:288-330 | Field updates keep the graph well formed. |
| MindMapStore.MindMap.EditNodeLabel | components/mind-map.tsx:288-309 | Every node with that id gets the new label, and only its label changes. Every other node, the edges and the selection are unchanged. A well-formed graph stays well formed. |
| MindMapStore.MindMap.ChangeNodeColor | components/mind-map.tsx:312-330 | Every node with that id gets the new colour, and only its colour changes. Every other node, the edges and the selection are unchanged. A well-formed graph stays well formed. |
| Graph.FindNode | components/mind-map.tsx:235-236 | The lookup fails exactly when no node has the id. Otherwise it returns the first node with that id. |
| Graph.FindUnique | components/mind-map.tsx:235-236 | With distinct ids, the lookup returns the one node with that id. |
| Graph.DirectChildren | components/mind-map.tsx:359 | Every listed child is the target of some edge. |
| Graph.DirectChildrenInOrder | components/mind-map.tsx:359 | The direct children are the targets of the edges whose source is `p`, one per such edge and in edge order, repeats included. |
| Graph.DirectChildrenLinked | components/mind-map.tsx:359 | An id is a direct child of `p` exactly when some edge goes from `p` to it. |
| Graph.FindAllChildren | components/mind-map.tsx:358-368 | On acyclic edges the walk ends. An id is listed exactly when it is reachable from the start by a chain of source-to-target edges. |
| Graph.ReachSetShrinks | components/mind-map.tsx:363-365 | In an acyclic graph a child has strictly fewer descendants than its parent. This is why the walk ends. |
| Graph.ReachFirst | components/mind-map.tsx:358-368 | Every chain starts with an edge out of its first node. |
| Graph.ReachTrans | components/mind-map.tsx:363-365 | A descendant of a descendant is a descendant. |
| Graph.ToggleEffect | components/mind-map.tsx:333-386 | Node by node, a toggle flips the target's `expanded`. It sets `hidden` to the target's old `expanded` (the new value negated) on every descendant, whatever that descendant's own `expanded` is. Every other node is unchanged. An unknown id changes nothing. |
| Graph.ToggleWith | components/mind-map.tsx:336-383 | An unknown id changes nothing. The list keeps its length, and only `expanded` and `hidden` can change. A node that is neither the target nor in the given set is unchanged. |
| Graph.Toggled | components/mind-map.tsx:333-386 | The list keeps its length, and only `expanded` and `hidden` can change. A node that is neither the target nor one of its descendants is unchanged. |
| MindMapStore.MindMap.ToggleNodeExpansion | components/mind-map.tsx:333-386 | The nodes become the toggle of `Graph.Toggled`. An unknown id changes nothing. Edges and selection are unchanged. A well-formed graph stays well formed. Acyclic edges are required only when the node exists. |
| Graph.ToggleTwice | components/mind-map.tsx:340-383 | Toggling twice restores the node. Every descendant ends with `hidden` equal to the node's original `!expanded`, whatever it was before. |
| Graph.ToggleTwiceConsistent | components/mind-map.tsx:340-383 | When every descendant's `hidden` already matches the node's `!expanded`, toggling twice changes nothing. |
| MapScenarios.ChainDescendants | components/mind-map.tsx:358-368 | In a chain root → child → grandchild, the root's descendants are exactly the child and the grandchild, and the chain is acyclic. |
| MapScenarios.ReexpandShowsCollapsedBranch | components/mind-map.tsx:373-383 | Collapsing and re-expanding an expanded root over a collapsed child unhides the grandchild under that child. |
| Graph.Doomed | components/mind-map.tsx:404-405 | The ids removed are exactly the node and every id reachable from it. |
| Graph.WithoutNodes | components/mind-map.tsx:408 | A node survives exactly when it was listed and its id is not removed. The remaining ids are the old ids minus the removed ones. |
| Graph.WithoutNodesConcat | components/mind-map.tsx:408 | Removal works node by node, so survivors keep their order. |
| Graph.WithoutUnknownNodes | components/mind-map.tsx:408 | Removing ids no node has changes nothing. |
| Graph.WithoutNodesUnique | components/mind-map.tsx:408 | Removal keeps the remaining ids distinct. |
| Graph.WithoutEdges | components/mind-map.tsx:411-413 | An edge survives exactly when it was listed and neither end is removed. |
| Graph.AcyclicSubset | components/mind-map.tsx:411-413 | Dropping edges keeps a graph acyclic. |
| Graph.DeleteKeepsWellFormed | components/mind-map.tsx:404-413 | Removing ids with every edge touching them keeps the graph well formed and acyclic. |
| MindMapStore.MindMap.DeleteNode | components/mind-map.tsx:389-421 | The node and exactly its descendants are removed, the survivors in order. So is every edge with an end among them. The selection is cleared exactly when the selected id was removed. Acyclicity and well-formedness are kept. |
| MindMapStore.FindEdgeInto | components/mind-map.tsx:430 | A found edge is the first edge into the id: it points at the id and no earlier edge does. None found means no edge points at it. |
| MindMapStore.RequestFor | components/mind-map.tsx:430-434 | The request carries the node's label. The parent text is the label of the first node whose id is the source of the first edge into the node. It is empty when no edge goes into the node, or when that source is not listed. |
| MindMapStore.IdeasToAdd | components/mind-map.tsx:444-475 | With a 2xx response that has ideas, those ideas are added. In every other case (the fetch throws, an error status, no ideas) the three "Related concept" placeholders are added. The list is never empty. |
| MindMapStore.Batch | components/mind-map.tsx:460-462 | One child per idea, in order. Child k has the k-th fresh id and the k-th idea as label, the default colour, is expanded and visible, and all share the snapshot's provisional spot. |
| MindMapStore.BatchEdges | components/mind-map.tsx:460-462 | One edge per idea, in order. Edge k runs from the parent to the k-th fresh id. |
| MindMapStore.BatchKeepsWellFormed | components/mind-map.tsx:460-462 | A batch of children with fresh ids keeps the graph well formed and acyclic. |
| MindMapStore.BatchUnderKeepsWellFormed | components/mind-map.tsx:460-462 | The same for a batch under a listed node, counted in the current state. |
| MindMapStore.MindMap.AddEach | components/mind-map.tsx:460-462 | The nodes gain exactly the batch for the snapshot, and the edges exactly one edge to each new child, in order. The selection is unchanged. |
| MindMapStore.MindMap.RequestIdeas | components/mind-map.tsx:426-434 | An unknown node gives nothing to wait for. Otherwise the pending call records the node, the current nodes and edges, and the node's request. Nothing changes. |
| MindMapStore.MindMap.ReceiveIdeas | components/mind-map.tsx:440-475 | The current nodes gain the batch of `IdeasToAdd` for the node and child count of the captured state, and the current edges one edge from the node to each new child. If the node is still listed, a well-formed, acyclic graph stays so. If it was removed meanwhile, the new edges start at a node that is not listed. The selection is unchanged. |
| MindMapStore.OrphanedBatch | components/mind-map.tsx:460-462 | A batch added under a parent that is no longer listed leaves edges from a missing node. |
| MindMapStore.MindMap.GenerateNodeIdeas | components/mind-map.tsx:424-487 | With nothing else happening during the fetch: an unknown node changes nothing and sends nothing. Otherwise it sends the node's request and appends the batch of `IdeasToAdd` and its edges. A well-formed, acyclic graph stays so. The selection is unchanged. |
| MindMapStore.RouteFeedsStore | components/mind-map.tsx:440-462 | Whatever the language model does, the route's answer makes the store add only non-empty, trimmed labels. A node with an empty label gets the placeholders. |
| Layout.Place | components/mind-map.tsx:493-543 | The visited set only grows and gains the node. An already-visited node yields no moves and a 0 × 0 footprint. Otherwise the first move puts the node at (x, y). |
| Layout.PlaceChildren | components/mind-map.tsx:529-537 | The children loop only grows the visited set and visits every child. |
| Layout.PendingDrops | components/mind-map.tsx:501-502 | Visiting an unvisited node with children strictly lowers the count of edges out of unvisited nodes. So the visited guard ends the recursion on any edge list, cyclic or not. |
| Layout.PlaceMovesVisited | components/mind-map.tsx:501-515 | The moves of a placement are exactly the newly visited nodes, each moved once. |
| Layout.PlaceChildrenMovesVisited | components/mind-map.tsx:529-537 | The same for the children loop. |
| Layout.PlaceInBand | components/mind-map.tsx:521-541 | Every move lands at or right of x, in the rows the footprint covers. A placed node's footprint is at least 200 × 50. |
| Layout.PlaceChildrenInBand | components/mind-map.tsx:529-537 | Each child's subtree lies below the earlier siblings'. The total and the widest width never decrease. |
| Layout.PlaceWithin | components/mind-map.tsx:518-537 | A placement stays inside any set holding the node and closed under children. Every child of a visited node ends up visited. |
| Layout.PlaceChildrenWithin | components/mind-map.tsx:518-537 | The same for the children loop. |
| Layout.ApplyMoves | components/mind-map.tsx:505-515 | The list keeps its length. Only positions change, and a node no move names is unchanged. |
| Layout.ApplyMovesAt | components/mind-map.tsx:505-515 | After the `setNodes` updates, each node sits where the last move of its id puts it. It keeps every other field. |
| Layout.ApplyMovesConcat | components/mind-map.tsx:505-515 | Applying two lists of updates in turn is applying their concatenation. |
| Layout.ApplyMovesTwice | components/mind-map.tsx:505-515 | Applying the same updates twice gives the same nodes as once. |
| Layout.TidyPlacement | components/mind-map.tsx:547-548 | The tidy-up's first move puts the first node at (50, 50). |
| Layout.Tidy | components/mind-map.tsx:490-555 | The list keeps its length, and only positions change. |
| Layout.TidyVisitsSubtree | components/mind-map.tsx:547-548 | The tidy-up visits exactly the first node and its descendants. |
| Layout.TidyMovesOnlySubtree | components/mind-map.tsx:490-555 | After a tidy-up the first node is at (50, 50). A node changes only in its position. It changes only when it is the first node or one of its descendants. |
| Layout.TidyIdempotent | components/mind-map.tsx:490-555 | Tidying up twice gives the same nodes as tidying up once. |
| MindMapStore.MindMap.PositionNode | components/mind-map.tsx:493-543 | It makes exactly `Place`'s moves, one update at a time, and returns `Place`'s footprint and visited set. Edges and selection are unchanged. |
| MindMapStore.MindMap.PositionChildren | components/mind-map.tsx:525-537 | The loop's total height, widest child and visited set are those `PlaceChildren` computes, and the nodes have its moves applied. Edges and selection are unchanged. |
| MindMapStore.MovesKeepWellFormed | components/mind-map.tsx:505-515 | Moving nodes keeps the graph well formed. |
| MindMapStore.MindMap.TidyUpMap | components/mind-map.tsx:545-549 | The nodes become `Layout.Tidy` of the old nodes; an empty map is left alone. Edges and selection are unchanged. A well-formed graph stays well formed. |
| MapScenarios.PlaceTwoLeaves | components/mind-map.tsx:493-543 | A root with two leaf children a and b is placed at (x, y), with a at (x + 250, y) and b at (x + 250, y + 150). The footprint is 400 × 200. |
| IdeaPrompt.Compose | app/api/generate-ideas/route.ts:18-25 | The prompt starts with the fixed lead quoting the node's label and ends with the instruction. It carries the parent clause, quoting the parent's label, exactly when the parent text is truthy. |
| IdeaRoute.Prompt | app/api/generate-ideas/route.ts:18-25 | The route's prompt starts with the lead and ends with the numbered-list instruction. It is longer than those two exactly when the parent text is truthy. |
| Lists.Filter | app/api/generate-ideas/route.ts:50 | Every kept element passes, and every element that passes is kept. |
| Lists.FilterSingle | app/api/generate-ideas/route.ts:50 | One element is kept exactly when it passes. |
| Lists.FilterConcat | app/api/generate-ideas/route.ts:50 | Filtering a concatenation filters each part. With FilterSingle this fixes the result: the passing elements, each as often as it occurs, in their original order. |
| Lists.Map | app/api/generate-ideas/route.ts:51 | The result has one image per element, in order. |
| JsText.Split | app/api/generate-ideas/route.ts:49 | There is at least one piece, and no piece contains the separator. |
| JsText.JoinSplit | app/api/generate-ideas/route.ts:49 | Joining the pieces with the separator gives back the text. |
| JsText.SplitJoin | app/api/generate-ideas/route.ts:49 | Splitting a join of separator-free pieces gives back the pieces. |
| JsText.Trim | app/api/generate-ideas/route.ts:50 | The result has no whitespace at either end. It is a slice of the input with only whitespace around it. It is empty exactly when the input is all whitespace. |
| JsText.TrimIdempotent | app/api/generate-ideas/route.ts:51 | Trimming twice is trimming once. |
| IdeaRoute.NumberPrefix | app/api/generate-ideas/route.ts:50 | A found length k is a match of `^\d+\.\s+`, and the match takes all the whitespace after the period. |
| IdeaRoute.NumberPrefixComplete | app/api/generate-ideas/route.ts:50 | Whenever the text starts with digits, a period and whitespace, the match is found. |
| IdeaRoute.NumberPrefixOfExtension | app/api/generate-ideas/route.ts:51 | A match followed by more text is found unchanged in any extension of the text. |
| IdeaRoute.IsNumberedLine | app/api/generate-ideas/route.ts:50 | A line is kept exactly when its trimmed form matches `^\d+\.\s+`. |
| IdeaRoute.StripNumbering | app/api/generate-ideas/route.ts:51 | A stripped idea is trimmed. |
| IdeaRoute.StripNumberingNonEmpty | app/api/generate-ideas/route.ts:50-52 | A kept line never strips down to nothing, so the final non-empty filter removes nothing. |
| IdeaRoute.IndentedLineKeepsNumber | app/api/generate-ideas/route.ts:50-51 | A kept line that starts with whitespace yields its trimmed self. The idea still starts with its number. |
| IdeaRoute.ParseIdeas | app/api/generate-ideas/route.ts:48-52 | Every parsed idea is non-empty and trimmed. |
| IdeaRoute.ParseOneLine | app/api/generate-ideas/route.ts:48-52 | One line yields its stripped form exactly when its trimmed form starts with digits, a period and whitespace. Otherwise it yields nothing. |
| IdeaRoute.ParseLineByLine | app/api/generate-ideas/route.ts:48-52 | The parse works line by line, and the ideas keep the order of their lines. |
| IdeaRoute.Post | app/api/generate-ideas/route.ts:9-72 | A missing or empty node text gets 400 "Node text is required" and no model call; otherwise the model gets exactly the route's prompt. An unparseable body or a model call that throws gets 500 with the three "Related concept" ideas. Otherwise the status is 200 with the parsed ideas, or the three "Related concept" ideas when none parse. |
| IdeaRoute.PostAlwaysOffersIdeas | app/api/generate-ideas/route.ts:54-71 | Every answer but the 400 carries at least one idea, each non-empty and trimmed. |
| RelatedIdeas.Prompt | lib/ai.ts:48-56 | The prompt starts with the lead and ends with the one-idea-per-line instruction. It is longer than those two exactly when the parent text is non-empty. |
| JsText.WordCount | lib/ai.ts:93 | There are no more words than pieces. There are no words exactly when the text is all spaces. |
| JsText.OnlyEmptyPieces | lib/ai.ts:93 | Splitting on spaces gives only empty pieces exactly when the text is all spaces. |
| JsText.WordCountPositive | lib/ai.ts:93 | A non-empty text that does not start with a space has at least one word. |
| RelatedIdeas.IsIdeaLine | lib/ai.ts:92-97 | On a trimmed line, the test is: non-empty, at most 7 words, and no trailing ':'. The word-count-positive check adds nothing there. |
| RelatedIdeas.ParseLines | lib/ai.ts:89-97 | Every idea is non-empty and trimmed, has 1 to 7 space-separated words, and does not end with ':'. |
| RelatedIdeas.ParseOneLine | lib/ai.ts:89-97 | One line yields its trimmed form exactly when that qualifies. Otherwise it yields nothing. |
| RelatedIdeas.ParseLineByLine | lib/ai.ts:89-97 | The parse works line by line, and the ideas keep the order of their lines. |
| RelatedIdeas.BlankParsesToNothing | lib/ai.ts:80-97 | A blank reply parses to nothing; the blank check only chooses which fallback is used. |
| RelatedIdeas.GenerateRelatedIdeas | lib/ai.ts:46-118 | The prompt sent is the function's prompt for the node and parent text. A thrown call yields the three "Error: Concept" ideas. A blank reply yields the three "(fallback)" ideas. Otherwise the parsed lines are returned, or the three "Check logs" ideas when none qualify. The result is never empty. |
| MapSidebar.Without | components/sidebar.tsx:107 | A map stays exactly when it was stored and has another id. |
| MapSidebar.WithoutConcat | components/sidebar.tsx:107 | Removal works map by map, so the remaining maps keep their stored order. |
| MapSidebar.WithoutTwice | components/sidebar.tsx:107 | Removing the same id twice is removing it once. |
| MapSidebar.WithoutEmpty | components/sidebar.tsx:107-113 | Nothing remains exactly when every stored map has that id. |
| MapSidebar.FirstRemaining | components/sidebar.tsx:113-114 | The first remaining map is the first stored map with another id. |
| MapSidebar.DeleteReselects | components/sidebar.tsx:112-117 | The map that becomes current is the first stored map with another id. A new map is drawn exactly when every stored map had that id. |
| MapSidebar.Sidebar.CreateNewMap | components/sidebar.tsx:88-97 | The new map's id becomes current. The lists are unchanged. |
| MapSidebar.Revived | components/sidebar.tsx:38-42 | A loaded map keeps its id and title, and both its dates become `Date` objects for the same instants. |
| MapSidebar.AsParsed | components/sidebar.tsx:106 | A parsed map keeps its id and title, and both its dates stay strings. |
| MapSidebar.Sidebar.LoadFromStorage | components/sidebar.tsx:51-67 | With a stored list, the shown list becomes that list with its dates turned into `Date` objects. Otherwise nothing changes. |
| MapSidebar.Sidebar.Reselect | components/sidebar.tsx:112-117 | The current map is kept when another one was deleted. Otherwise it becomes the first remaining map, or a new map when none remain. The lists are unchanged. |
| MapSidebar.Sidebar.DeleteMapAsWritten | components/sidebar.tsx:99-129 | Without confirmation, or without a stored list, nothing changes. Otherwise the stored list becomes the stored list without that id, in stored order. The shown list becomes the same maps with their dates still strings. The current map follows Reselect. |
| MapSidebar.DeleteThenSortThrows | components/sidebar.tsx:106-109 | Once the delete as written leaves two maps or more, the next sort throws. |
| MapSidebar.ThreeMapsOneDeleted | components/sidebar.tsx:99-129 | Deleting one of three stored maps makes the next sort throw. |
| MapSidebar.Sidebar.DeleteMap | components/sidebar.tsx:99-129 | As DeleteMapAsWritten, except that the shown list holds the remaining maps with their dates turned into `Date` objects. |
| MapSidebar.RevivedSorts | components/sidebar.tsx:171-172 | Maps whose dates are `Date` objects sort without throwing. |
| MapSidebar.Insert | components/sidebar.tsx:172 | Inserting a map into a newest-first list gives a newest-first list with exactly one more copy of that map. |
| MapSidebar.Sidebar.SortNewestFirst | components/sidebar.tsx:171-172 | The sort throws exactly when there are two maps or more and some `updatedAt` is a string. Otherwise the shown list becomes a permutation of itself ordered by `updatedAt`, newest first. The stored list and the current map are unchanged. |

## Left out

- Persistence is not modelled. This covers loading a map from local storage, the fallback seed on a missing entry, the debounced save and the title save (components/mind-map.tsx:90-212, 593-616). It also covers the sidebar's polling and storage events (components/sidebar.tsx:69-86). These are I/O and timers; the sidebar's stored list is a field set by the caller. The date conversion of the sidebar's loads is modelled by `LoadFromStorage`.
- The network and the language model are not modelled. `fetch`, the OpenAI and OpenRouter clients, and `generateChatResponse` become the `Response` and `Completion` inputs.
- `onConnect` is not part of this model. It hands the edge to a library's `addEdge`, whose duplicate handling is not visible.
- Rendering, toasts, the loading flag and the empty keyboard handler have no state the model needs. The toolbar appearing only with a selection is left out for the same reason.
- components/chat-interface.tsx, the small UI widgets, the page wiring and the authentication files are not part of this model.
- Whitespace is ASCII only. JavaScript's `trim` and `\s` also treat Unicode spaces as whitespace.
- JSON values that are not strings are not modelled. A `nodeText` that is a number, or `ideas` that is not a list of strings, cannot be expressed; the request body is either unparseable or two optional strings.
- A node's `hidden` field is absent until its first collapse; the model starts it as false, which renders the same.
- The selected node is kept as its id. The source keeps a copy of the node object, and the toolbar reads that copy's label and `expanded` (components/node-toolbar.tsx:32, 47, 67, 96). `editNodeLabel`, `changeNodeColor` and the toggle never refresh the copy. So after a rename the toolbar compares against the old label: renaming X to Y and then back to X is dropped as "unchanged". The stale copy, and what the toolbar shows from it, are not modelled.
- Changes that React Flow makes itself through `onNodesChange` and `onEdgesChange` (components/mind-map.tsx:646-647) are not modelled. These are node drags, selection changes and deletion with the keyboard. Their effect is decided by the library.
- MindMapStore.MindMap.ToggleNodeExpansion: requires every cycle to be absent. The walk only needs no cycle reachable from the node.
- MindMapStore.MindMap.DeleteNode: requires every cycle to be absent. The walk only needs no cycle reachable from the node.
- MindMapStore.MindMap.PositionNode: takes the visited set as a value and returns the new one. The source shares one mutable `Set` across the recursion, with the same contents at every point.
- MapSidebar.Sidebar.SortNewestFirst: does not state that maps with equal `updatedAt` keep their order. `Insert` does keep it, as JavaScript's stable sort does. It decides the throw before sorting, and does not state what the list holds after a throw.
- MindMapStore.MindMap.GenerateNodeIdeas: covers only the case where nothing changes the map during the `fetch`; its well-formedness promise rests on that. Other interleavings are covered by `RequestIdeas` and `ReceiveIdeas`.
- Times are whole milliseconds (`int`), as `getTime()` returns them. A date is either a `Date` or the ISO string `JSON.parse` leaves in its place. Turning the string back with `new Date` is taken to give the same instant.
- The sidebar's `try`/`catch` around parsing is folded into the stored list being absent.

## Findings

| source | as written | input that shows it | evidently intended | confidence | as-written member | corrected member |
|---|---|---|---|---|---|---|
| components/sidebar.tsx:106-109 | `deleteMap` puts the maps from `JSON.parse` into the state as they are, so their dates are strings. The render then sorts with `b.updatedAt.getTime()` (line 172), which throws a `TypeError` on a string. | Three stored maps with distinct ids; confirm deleting one of them. | Turn the dates back into `Date` objects, as the loaders do at lines 38-42 and 57-61. | high (not executed) | MapSidebar.Sidebar.DeleteMapAsWritten, MapSidebar.DeleteThenSortThrows, MapSidebar.ThreeMapsOneDeleted | MapSidebar.Sidebar.DeleteMap, MapSidebar.RevivedSorts, MapSidebar.Sidebar.SortNewestFirst |
