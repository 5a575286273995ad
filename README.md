# hiearch resolution engine, modelled in Dafny

hiearch reads nodes, edges and views from YAML and draws one diagram per
view. Between parsing and drawing sits its resolution engine, and that
engine is what this project models:

- **Style cascade** (`src/hiearch/util.py`): a record names a style parent,
  and the parent's attributes are merged under the record's own. The merge
  is key-wise, with `graphviz` and `substitutions` merged one level deeper.
  A worklist over the styled records resolves them parent first and refuses
  a style cycle. Every referenced id must exist.
- **Nodes** (`src/hiearch/hh_node.py`):
  - parsing refuses duplicate ids and a node with both `style` and
    `style_notag`;
  - post-processing turns scopes into sets and fills the `in`/`out`
    adjacency sets from the edges;
  - `get_nodes_by_tag` selects nodes by tag;
  - `build_tree` enumerates the scope branches of a view, refusing a scope
    cycle, merges the branches that share a leaf and builds the nested tree
    with its key paths and scope index.
- **Views** (`src/hiearch/hh_view.py`):
  - the five neighbour policies: explicit, direct, parent, and recursive
    in, out or both ways;
  - the dispatcher `select_neighbours_for_view`;
  - `postprocess`, which resolves each view's nodes from its node list and
    tags, falls back to a default view, selects neighbours and generates
    the expanded views.
- **Edges** (`hiearch/hh_edge.py`): id derivation `out.in`, style-key
  flattening, duplicate detection and label normalisation.

Records are Python dicts. They are modelled as `map<string, Value>`, where a
`Value` is null, a string, a list of strings, a set of strings or a nested
dict. A Python exception becomes `Err(e)`, with one `Error` constructor per
`raise` of the source. A `KeyError`, `TypeError` or `IndexError` on a record
of the wrong shape becomes `Malformed`. The parsed-entities holder is the
class `Store.ParsedEntities`, whose methods update its fields in place. The
loops of the source are methods with loop invariants, each proved against a
specification function or predicate. The properties the source promises are
proved about those functions and predicates as lemmas. Set `pop()` and set
or dict iteration order are open choices (`:|`): no contract depends on the
order they pick.

## Model

| member | source | states |
|---|---|---|
| Values.DuplicatesIffSmallerSet | src/hiearch/hh_node.py:34-37 | a list has a repeated element iff turning it into a set shrinks it; this is the duplicate test of scopes and view node lists |
| Values.Join | src/hiearch/hh_node.py:64 | `'.'.join` of a one-element list is that element |
| Values.JoinSnoc | src/hiearch/hh_node.py:64 | joining a list extended by one element appends a dot and that element |
| Store.ParsedEntities.constructor | src/hiearch/hiearch.py:12-16 | a fresh holder has no entities, no must-exist ids and no styled records |
| Store.AddKeepsResolvable | src/hiearch/util.py:39-42 | adding a record keeps every queued styled record stored under its id, with a style key naming a stored record |
| Store.MapEntries | hiearch/hh_edge.py:61-70 | a per-record pass succeeds iff it succeeds on every record; it then keeps the keys and stores each record's result; a failure comes from some record |
| Util.AdoptSubstitutions | src/hiearch/util.py:9-13 | adopting `substitutions` fails only on a malformed record |
| Util.AdoptSubstitutionsSpec | src/hiearch/util.py:9-13 | succeeds iff the two `substitutions` are dicts where both exist; the secondary's are adopted when it has any, merged key-wise under the primary's, and every other key of the primary is kept |
| Util.AdoptAttrMaps | src/hiearch/util.py:8-18 | adopting `graphviz` and `substitutions` fails only on a malformed record |
| Util.AdoptAttrMapsSpec | src/hiearch/util.py:8-18 | succeeds iff the maps to merge are dicts; the maps are adopted only when the secondary has a `graphviz` key, each merged key-wise with the primary's entries winning, and every other key of the primary is kept |
| Util.MergeStyles | src/hiearch/util.py:6-26 | the merge fails only on a malformed record, a `graphviz` or `substitutions` value that is not a dict |
| Util.MergeStylesSpec | src/hiearch/util.py:6-26 | every top-level key of the primary keeps the primary's value, except the merged `graphviz`/`substitutions`, and the other keys come from the secondary; without tag inheritance, a primary without `tags` gets exactly `['default']` |
| Util.MergeStylesIdempotent | src/hiearch/util.py:6-26 | merging the same parent into an already merged record changes nothing |
| Util.FatherKey | src/hiearch/util.py:39-43 | the parent named by `style`, else by `style_notag`, is a stored entity; a missing one is a malformed record |
| Util.StyledIsNotRoot | src/hiearch/util.py:45-46 | a record queued for styling is never itself a style root |
| Util.MergeAvoids | src/hiearch/util.py:6-26 | a merge never gives a key other than `graphviz`, `substitutions` or `tags` a value that neither of the two records held under it |
| Util.Swap | src/hiearch/util.py:52 | exchanging two positions keeps the multiset of records and moves each one to the other's place |
| Util.ResolveStep | src/hiearch/util.py:48-53 | resolving the record at `index` and swapping it to `size-1` keeps the sweep invariant: the prefix `[0, size)` is exactly the unresolved remainder |
| Util.NewlyResolved | src/hiearch/util.py:48-51 | a record is resolved only when its parent is a style root or already resolved, and it becomes its parent merged under it |
| Util.SkipIsStuck | src/hiearch/util.py:54-55 | a record that is skipped has a parent that is neither a root nor resolved |
| Util.CycleFound | src/hiearch/util.py:56-57 | a full sweep that resolves nothing leaves every remaining record stuck |
| Util.ResolveAt | src/hiearch/util.py:48-53 | resolving the record at `index` and swapping it out of the prefix keeps the sweep invariant and shrinks `size` by one |
| Util.Sweep | src/hiearch/util.py:35-56 | one sweep keeps the queue's records and the invariant, never grows `size`, and when it resolves nothing every remaining record is stuck |
| Util.ApplyStyles | src/hiearch/util.py:29-57 | the queue keeps its records (as a multiset); on success every styled record is resolved over its parent's final entry and every other entity is unchanged, and a value that no entity held under a plainly inherited key is held by none afterwards; a failure is a malformed record or a style-cycle error that names the queue, whose unresolved prefix is stuck |
| Util.StuckRemainderIsClosed | src/hiearch/util.py:56-57 | every record left by a style-cycle error has its parent among the records left: the remainder is a closed cycle |
| Util.CheckKeyExistence | src/hiearch/util.py:60-64 | passes iff every key is present; a failure is a missing-id error naming a missing key and the data type |
| Edge.GenerateId | hiearch/hh_edge.py:4-5 | the generated id is the tail, a dot and the head |
| Edge.BeforeDotOfGenerated | hiearch/hh_edge.py:4-5 | a tail without a dot is recovered from the generated id |
| Edge.GenerateIdInjective | hiearch/hh_edge.py:4-5 | for tails without a dot, different endpoints give different ids |
| Edge.StyleKey | hiearch/hh_edge.py:8-11 | a list of two or more becomes `a.b` from its first two; a shorter list fails; any other value is returned unchanged |
| Edge.ReadLink | hiearch/hh_edge.py:31-36 | reading the link fails only on a malformed record |
| Edge.ReadLinkSpec | hiearch/hh_edge.py:31-36 | `out` is `link[0]`, `in` is `link[1]`, and the id is `link[2]` when present, else generated; the other keys are kept |
| Edge.StoredEdge | hiearch/hh_edge.py:46-53 | the edge is queued with its style iff the record has a `style` key; a styled edge is stored with its style key flattened, and that key is also the reference it makes; a style key that is a dict or a set cannot join the reference set and is refused as malformed, as is a one-element list |
| Edge.StoredEdgeKeepsId | hiearch/hh_edge.py:46-53 | the stored edge keeps the id it was read with, and an unstyled edge has every default key |
| Edge.AddEdgesDuplicate | hiearch/hh_edge.py:38-41 | a duplicate-id error names an id that was already stored or that occurs earlier in the list |
| Edge.AddEdgesErrorStops | hiearch/hh_edge.py:30-53 | once one edge fails, parsing the rest fails with the same error |
| Edge.AddEdgesResolvable | hiearch/hh_edge.py:46-51 | parsing keeps every queued styled edge stored under its id |
| Edge.AddEdgesEntities | hiearch/hh_edge.py:38-53 | on success the ids of the list are distinct, the stored ids are the old ones plus those, old entries are unchanged, and the must-exist node set grows by both endpoints of every edge |
| Edge.Parse | hiearch/hh_edge.py:14-54 | the parse loop leaves the edge store and the must-exist node set exactly as the fold over the list computes them (including the refusal of an unhashable style key), or fails with its error |
| Edge.NormalizeLabel | hiearch/hh_edge.py:61-70 | label normalisation fails only on a malformed record |
| Edge.NormalizeLabelSpec | hiearch/hh_edge.py:61-70 | succeeds iff `label` and a dict `graphviz` are present (and the label is not null under a `label_format`); a string label becomes `['', s, '']`; a string format s becomes `['{label}', s, '{label}']` and any other format is kept; an empty label under a format becomes `['', '', '']`; a missing format becomes three `'{label}'`; a label that is not a string is kept unless it is empty under a format; no other key or attribute changes |
| Edge.NormalizeLabelTwice | hiearch/hh_edge.py:61-70 | normalising a normalised edge fails iff its label is null; otherwise only an empty label changes, to `['', '', '']` |
| Edge.Resolve | hiearch/hh_edge.py:56-70 | on success every must-exist id is present, the styles are applied and every edge is normalised; a failure is a missing id, a style cycle or a malformed record |
| Edge.Postprocess | hiearch/hh_edge.py:56-70 | the same, writing the entities and the style queue back into the store and leaving `must_exist` as it was |
| Node.Gather | src/hiearch/hh_node.py:9-17 | the property counts iff it is present and not null; a single id joins the must-exist set and a list adds nothing; an unhashable value fails |
| Node.ReadNodeId | src/hiearch/hh_node.py:155-157 | reading succeeds iff `id` has two or more elements; the key is `id[1]`, the label `id[0]` and the id is set to the key |
| Node.AddNodeSpec | src/hiearch/hh_node.py:154-173 | a duplicate id is refused, as is a node with both `style` and `style_notag`; a styled node is stored as read and queued, an unstyled one merged over the default node; old entries are unchanged and the must-exist set only grows |
| Node.AddNodesErrorStops | src/hiearch/hh_node.py:154-173 | once one node fails, parsing the rest fails with the same error |
| Node.AddNodesResolvable | src/hiearch/hh_node.py:169-171 | parsing keeps every queued styled node stored under its id |
| Node.AddNodesEntities | src/hiearch/hh_node.py:157-173 | on success the store grows by one entry per node, old entries are unchanged and the must-exist set only grows |
| Node.Parse | src/hiearch/hh_node.py:136-173 | the parse loop leaves the node store exactly as the fold over the list computes it, or fails with its error |
| Node.ResetNode | src/hiearch/hh_node.py:25-39 | the reset fails only on a malformed record or a duplicate scope |
| Node.ResetNodeSpec | src/hiearch/hh_node.py:25-39 | a list scope becomes its set and is refused with a duplicate-scope error iff it repeats an id; a single id becomes a singleton; a null scope stays null; the four adjacency sets are empty |
| Node.ResetClears | src/hiearch/hh_node.py:26-27 | after the reset every node has empty `in` and `out` sets |
| Node.AttachAt | src/hiearch/hh_node.py:41-43 | after attaching one more edge, each node's `in` and `out` sets are exactly the edges done so far that end or start at it |
| Node.InitiallyLinked | src/hiearch/hh_node.py:26-27 | with every adjacency set empty, no edge is linked yet |
| Node.Connect | src/hiearch/hh_node.py:41-43 | succeeds iff every edge's endpoints are stored nodes with adjacency sets; each node's `in`/`out` sets then hold exactly the edges ending at it |
| Node.LinkedIsExact | src/hiearch/hh_node.py:25-43 | an edge is in a node's `out` set iff the node is its tail, and in its `in` set iff the node is its head |
| Node.Resolve | src/hiearch/hh_node.py:20-43 | on success every must-exist id is present, the styles are applied, every node is reset and the edges are connected; the errors are those of each stage |
| Node.Postprocess | src/hiearch/hh_node.py:20-43 | the same, writing the entities and the style queue back into the store |
| Node.TagIn | src/hiearch/hh_node.py:191 | reading the tags fails iff they are null; for a list, the tag is found iff the list holds it |
| Node.GetNodesByTag | src/hiearch/hh_node.py:187-193 | succeeds iff every node's tags can be read; the result is exactly the ids of the nodes carrying the tag |
| Node.TagSelectionIsKeys | src/hiearch/hh_node.py:187-193 | when every node is stored under its own id, the selection is exactly the keys of the tagged nodes |
| Tree.EnumerateBranches | src/hiearch/hh_node.py:72-102 | on success the walk misses nothing: every chain of in-view scopes that starts at a view node begins some recorded branch, and none of them closes a cycle; only chains are recorded, grouped by their first node, and the non-leaves are the view nodes met below the top; a scope already on the branch is a scope-cycle error naming the branch |
| Tree.Climb | src/hiearch/hh_node.py:85-97 | the inner loop keeps the walk's invariant without raising the weight of the stack; a failure is a malformed record or a scope cycle naming the branch |
| Tree.Visit | src/hiearch/hh_node.py:82-102 | one pass of the outer loop keeps the walk's invariant and lowers the weight of the stack, so the walk ends |
| Tree.Advance | src/hiearch/hh_node.py:122-123 | the scan stops at the first node of the branch whose rank is at least the node's, or at the end |
| Tree.Slot | src/hiearch/hh_node.py:121-126 | the insertion point lies between the scan's start and the end of the branch; as written the placement fails exactly when the scan reached the end |
| Tree.MergeCovers | src/hiearch/hh_node.py:115-127 | the guarded merge of a group never fails, keeps exactly the union of the nodes of its branches and keeps the group's first node first |
| Tree.MergeFromCovers | src/hiearch/hh_node.py:118-127 | merging one branch in keeps the nodes already there and adds exactly the nodes of that branch |
| Tree.GuardAgrees | src/hiearch/hh_node.py:118-127 | where the merge as written succeeds, the guarded merge of one branch gives the same result |
| Tree.MergeGuardAgrees | src/hiearch/hh_node.py:115-127 | where the merge as written succeeds for a group, the guarded merge gives the same branch |
| Tree.MergeRunsPastEnd | src/hiearch/hh_node.py:121-124 | the groups `[a, b]` and `[a, c, t]` make the merge as written index past the end, while the guarded merge gives `[a, b, c, t]` |
| Tree.MergeErrorStops | src/hiearch/hh_node.py:116-127 | once merging a prefix of the group fails, merging the group fails the same way |
| Tree.Scan | src/hiearch/hh_node.py:122-123 | the scan loop stops where `Advance` says: at the first node of rank at least the node's, or at the end |
| Tree.PlaceStep | src/hiearch/hh_node.py:121-127 | one turn of the merge loop inserts a node missing at the scan position where the scan stops, or one further on for an equal rank and a smaller id, and moves the scan past it |
| Tree.Place | src/hiearch/hh_node.py:118-127 | one turn of the merge loop, with its inner scan loop, passes over a node already at the scan position or inserts it, leaving the branch and scan position the turn defines |
| Tree.MergeFromStep | src/hiearch/hh_node.py:117-127 | the merge of the remaining nodes goes on from the branch and scan position one turn leaves |
| Tree.MergeInto | src/hiearch/hh_node.py:117-127 | the merge loop for one branch computes the guarded merge |
| Tree.MergeBranches | src/hiearch/hh_node.py:115-127 | the loop over a group computes the guarded merge of the group |
| Tree.AddBranchTree | src/hiearch/hh_node.py:46-69 | adding a branch keeps every existing entry and its key path, and creates each missing position with the dotted join of the branch up to it |
| Tree.AddBranchPaths | src/hiearch/hh_node.py:67 | each node's key paths are exactly the key paths of the positions it labels |
| Tree.AddBranchScopes | src/hiearch/hh_node.py:50-54 | each node's scope index gains exactly the nodes that follow it in the branch |
| Tree.AddRootBranch | src/hiearch/hh_node.py:46-69 | adding a branch from the root keeps the tree well formed, and its positions are exactly the old ones plus the prefixes of the branch |
| Tree.Reverse | src/hiearch/hh_node.py:129 | the reversed branch has the same length, with the elements in opposite order |
| Tree.AddGroup | src/hiearch/hh_node.py:108-130 | one group is skipped when its first node is a non-leaf, and otherwise merged, reversed and added, keeping the loop invariant |
| Tree.AddGroups | src/hiearch/hh_node.py:105-130 | every group whose first node is a leaf is merged and added; the tree is well formed and its positions are exactly the prefixes of the reversed merged branches |
| Tree.BuildTree | src/hiearch/hh_node.py:72-133 | on success the branches are as enumerated, the merged groups are exactly the view nodes that are not non-leaves, each merged branch is the guarded merge of its group, the tree is well formed and covers them, and every view node labels some position of the tree; failures are a malformed record or a scope cycle |
| Tree.GroupNodesInTree | src/hiearch/hh_node.py:112-130 | every node of every branch of a merged group has a key path in the tree |
| Tree.MergedNodePlaced | src/hiearch/hh_node.py:129-130 | every node of a merged branch labels some position of the tree |
| Tree.PlacedHasPath | src/hiearch/hh_node.py:67 | a node that labels a position of a well-formed tree has a non-empty set of key paths |
| Tree.BuiltPathsNonEmpty | src/hiearch/hh_node.py:105-133 | once every view node is placed in a well-formed tree, as `BuildTree` ensures, every view node has a non-empty set of key paths |
| Tree.LeafBelow | src/hiearch/hh_node.py:82-113 | every chain of the view ends inside some recorded branch whose first node is not a non-leaf, so its group is merged |
| Tree.ViewNodeInTree | src/hiearch/hh_node.py:72-133 | every node of the view labels some position of the built tree |
| Select.RestrictGraph | src/hiearch/hh_view.py:157-160 | restricting the nodes to a subset keeps the graph well formed |
| Select.SelectExplicit | src/hiearch/hh_view.py:45-51 | exactly the edges with both endpoints among the requested nodes are copied, unchanged |
| Select.ReachedByEnds | src/hiearch/hh_view.py:47-50 | an edge is met from the requested nodes exactly when one endpoint is requested and the other is a target |
| Select.CollectEnds | src/hiearch/hh_view.py:63-65 | the added nodes are exactly the endpoints of the selected edges |
| Select.SelectDirect | src/hiearch/hh_view.py:54-65 | exactly the edges with one endpoint requested and the other a known node are copied; the added nodes are exactly their endpoints |
| Select.DirectWithinNodes | src/hiearch/hh_view.py:47-65 | direct selection picks every edge explicit selection picks, and adds only known nodes |
| Select.ClimbUp | src/hiearch/hh_view.py:82-85 | the climb follows scopes upwards from the start and stops at a requested node or a root; the scopes it passes by are queued |
| Select.Retarget | src/hiearch/hh_view.py:95-97 | the synthesized edge moves the far endpoint to the reached node, regenerates the id as `out.in` and keeps every other key |
| Select.MadeNew | src/hiearch/hh_view.py:93-98 | recording a synthesized edge under its regenerated id keeps every custom edge the retargeted edge of the node it reached |
| Select.ExploreFrom | src/hiearch/hh_view.py:74-98 | exploring one edge keeps the parent-policy invariant, only adds nodes, and covers the far end of the edge |
| Select.SelectParent | src/hiearch/hh_view.py:68-98 | every added node is requested or a root reached by a climb; kept edges are copies; synthesized edges differ only in the far endpoint and the regenerated id; there are no more edges than added nodes; the far end of every edge at a requested node is covered |
| Select.AllDoneCovers | src/hiearch/hh_view.py:70-98 | once every requested node is done, the far end of every incident edge is covered by an added or requested node |
| Recursive.Spread | src/hiearch/hh_view.py:109-126 | the breadth-first walk keeps its list without repeats, adds exactly the listed nodes, selects every edge leaving a walked node in the direction, and records which edge queued each node |
| Recursive.ClosedReach | src/hiearch/hh_view.py:109-126 | every node reachable along the direction without passing an earlier node is walked: the walk misses nothing |
| Recursive.WalkIsReach | src/hiearch/hh_view.py:109-126 | the walked nodes are exactly the requested nodes and the nodes reachable from them along the direction through known nodes not added before the pass |
| Recursive.Ancestors | src/hiearch/hh_view.py:128-143 | every scope of every node past the requested ones is added, each appended node is reached by a scope climb, and an empty or repeated scope set is a divergence |
| Recursive.SelectRecursive | src/hiearch/hh_view.py:101-145 | the requested nodes start the list without repeats; the added nodes are the list minus the requested nodes; the selected edges are exactly the edges leaving the walked nodes; every scope of an added node is added; an empty scope set is a divergence |
| Recursive.NoRepeats | src/hiearch/hh_view.py:122-142 | a node is appended to the list only when not yet added, so the list has no repeats and stays within the added nodes |
| Recursive.PassRecursed | src/hiearch/hh_view.py:101-145 | one recursive pass adds every node reachable along the direction and selects exactly the edges leaving the reached nodes; every scope of an added node is added, and every other added node is reached by a scope climb from a reached node |
| View.AddViewSpec | src/hiearch/hh_view.py:270-288 | a duplicate view id is refused; a styled view is stored as read and queued with its style, an unstyled one merged over the default view; the named nodes join the must-exist node set |
| View.AddViewsErrorStops | src/hiearch/hh_view.py:272-288 | once one view fails, parsing the rest fails with the same error |
| View.AddViewsResolvable | src/hiearch/hh_view.py:278-282 | parsing keeps every queued styled view stored under its id |
| View.Parse | src/hiearch/hh_view.py:270-288 | the parse loop leaves the view store and the must-exist node set exactly as the fold over the list computes them, or fails with its error |
| View.PolicyOf | src/hiearch/hh_view.py:10-19 | a neighbours value names a policy iff it is one of the six policy strings |
| View.Pick | src/hiearch/hh_view.py:162-182 | each policy's selection, as copies of stored edges joining shown nodes: explicit and direct as their select functions promise; parent: every shown node is requested or a root, every shown node that was not requested ends a scope climb from the far end of an edge at a requested node, kept edges join requested nodes, each custom edge is a stored edge retargeted to the node its climb reached and stored under its `out.in` id, and the far end of every edge at a requested node is covered; recursive in or out: the shown nodes, selected edges and ancestors are exactly those of one pass from the requested nodes; recursive both ways: an outward pass followed by an inward pass that starts from its result |
| View.ParentKept | src/hiearch/hh_view.py:68-98 | the parent loop's invariant gives kept edges joining requested nodes, custom edges retargeted along a climb, and every far end covered by a shown node |
| View.ParentShown | src/hiearch/hh_view.py:76-90 | every shown node that was not requested is the top of a climb from the far end of an edge at a requested node |
| View.ParentPicks | src/hiearch/hh_view.py:68-98 | the parent loop's invariant, with every far end covered, gives the whole guarantee of the parent policy |
| View.PickParent | src/hiearch/hh_view.py:68-98 | parent selection fails only on a malformed record; on success its edges are copies joining shown nodes, it meets the parent policy's guarantee, and the kept and synthesized edges together number at most the added nodes |
| View.RecursedTakes | src/hiearch/hh_view.py:109-120 | after a recursive pass, an edge leaving a requested node in the direction, with a known far end, is selected and its far end is shown |
| View.DirectWithinRecursiveAll | src/hiearch/hh_view.py:165-179 | recursive selection both ways selects every edge and shows every node that direct selection does |
| View.ScopeGraph | src/hiearch/hh_view.py:157-160 | the node scope of a view is a well-formed graph in its own right |
| View.Assembled | src/hiearch/hh_view.py:184-187 | the view after selection has the added nodes, the selected and synthesized edges and the tree, and nothing else changed |
| View.Plant | src/hiearch/hh_view.py:184-187 | the selected nodes and edges are stored with the tree built over all shown nodes; that tree is well formed and places every shown node; a failure is a malformed record or a scope cycle |
| View.SelectNeighbours | src/hiearch/hh_view.py:148-187 | an empty view is left untouched; an unknown policy is refused; a requested node outside the scope fails; otherwise the node set grows within the scope as its policy promises, the view gets a well-formed tree, and every node of the view labels a position of that tree; only the parent policy needs a scope ranking |
| ViewPostprocess.SelectByTags | src/hiearch/hh_view.py:208-209 | the tag loop succeeds iff every node can be read for every tag; it yields exactly the nodes some tag selects |
| ViewPostprocess.ResolveNodes | src/hiearch/hh_view.py:198-209 | a node list naming a node twice is refused; null nodes with no tags take the tag `default`; the node set is the named nodes and the tag selection |
| ViewPostprocess.ReadView | src/hiearch/hh_view.py:197-209 | a record is read iff it has `neighbours`, `expand` and an empty `nodes_subset`; the typed view then starts fresh, with the resolved nodes and tags |
| ViewPostprocess.ResolveViews | src/hiearch/hh_view.py:196-213 | every view is resolved, and the count of empty views equals the number of views iff every view is empty |
| ViewPostprocess.DuplicateRefused | src/hiearch/hh_view.py:203-206 | no resolved view came from a node list that names a node twice |
| ViewPostprocess.AddDefault | src/hiearch/hh_view.py:215-220 | when some view is not empty the views are unchanged; otherwise the default view, tagged `default`, replaces any view of that name, and resolution fails iff that tag selects nothing |
| ViewPostprocess.SelectAll | src/hiearch/hh_view.py:223-224 | every view goes through neighbour selection, keeping the view ids; a scope ranking is needed only when some view selects by parent |
| ViewPostprocess.SelectedShown | src/hiearch/hh_view.py:150-185 | a fresh view, once selected, is shown and keeps every node it started with |
| ViewPostprocess.Confine | src/hiearch/hh_view.py:242-243 | an expansion is confined to the view's subset together with its shown nodes |
| ViewPostprocess.Updated | src/hiearch/hh_view.py:236-244 | a view with a non-empty expansion list is marked as expanded from itself and its list emptied; any other view is unchanged |
| ViewPostprocess.ExpansionWithin | src/hiearch/hh_view.py:250-261 | an expanded view starts from its node, takes the kind as its policy, has an empty expansion list, the id `view_node_kind` and `expanded_from` set to the view; it shows only nodes the view shows or was confined to |
| ViewPostprocess.ExpandKind | src/hiearch/hh_view.py:250-263 | every node of the view yields the view selected from that node alone by that kind, stored under its id |
| ViewPostprocess.ExpandView | src/hiearch/hh_view.py:232-263 | a non-list `expand` is refused naming the view; an unsupported kind is refused naming the kind and the view; otherwise one expansion per node and kind |
| ViewPostprocess.ExpandAll | src/hiearch/hh_view.py:228-267 | every view is kept, marked if expanded, and each generated view is the expansion its origin names; no expansion is missing |
| ViewPostprocess.ExpandedShown | src/hiearch/hh_view.py:228-267 | the expansion pass keeps every view shown, and a view that shows a node still does |
| ViewPostprocess.ResolveAll | src/hiearch/hh_view.py:195-220 | node resolution followed by the default view: the records resolved into views, with the default view when all of them are empty |
| ViewPostprocess.ParentRanked | src/hiearch/hh_view.py:195-224 | when no record names `parent` as its neighbours, no resolved view (the default view included) selects by parent |
| ViewPostprocess.Restyle | src/hiearch/hh_view.py:192-193 | every must-exist view id is present and the styles are applied; styling introduces no `parent` policy that no record named |
| ViewPostprocess.Prepare | src/hiearch/hh_view.py:192-220 | the stages before selection: references checked, styles applied, nodes resolved and the default view added; every resolved view is fresh and within the nodes, and a scope ranking is needed only if some view selects by parent |
| ViewPostprocess.PostprocessedShown | src/hiearch/hh_view.py:190-267 | after postprocess every parsed view is kept, every view is shown, and some view shows a node |
| ViewPostprocess.Resolve | src/hiearch/hh_view.py:190-267 | on success every must-exist view id is present, the styles are applied and the views are resolved, selected and expanded, stage by stage; the errors are those of each stage |
| ViewPostprocess.Postprocess | src/hiearch/hh_view.py:190-267 | the same, writing the style queue back into the store |

## Left out

- Drawing (`src/hiearch/graphviz_output.py`, `src/hiearch/graphviz.py`) is not part of this model. It is rendering through graphviz, with subprocesses and file writes.
- DOT import (`src/hiearch/graphviz_input.py`) is not part of this model. It wraps a DOT parser library.
- The command line (`src/hiearch/hiearch.py`) is not part of this model: argument parsing, YAML loading and printing. Only its `ParsedEntities` holder is modelled, and the call order (edges, then nodes, then views) is left to the caller.
- `get_substitutions` and label formatting (`src/hiearch/hh_node.py:176-184`) are left out. They only feed the renderer's `str.format`.
- Aliasing is not modelled: records are values here. The source copies the records it selects and expands (`copy.deepcopy` in `src/hiearch/hh_view.py`), but not every dict. `merge_styles` hands the secondary's `graphviz` and `substitutions` dicts to the result when the primary has none (`src/hiearch/util.py:13`, `src/hiearch/util.py:18`). So every unstyled edge shares the one `graphviz` dict of the default edge record (`hiearch/hh_edge.py:18`), and a styled record can share its style parent's.
- Edge.NormalizeLabel, Edge.Postprocess: the label pass writes `label_format` into the `graphviz` dict in place (`hiearch/hh_edge.py:66`, `hiearch/hh_edge.py:70`). Through the sharing above, one edge's write is seen by the edges after it. For example, the unstyled edges `[a, b]` and `[b, c]` without labels get the labels `[]` and `['', '', '']` in the source, depending on dict order, but `[]` and `[]` here. The model normalises each edge on its own.
- YAML scalars other than strings are not represented: a `Value` holds null, strings, string lists, string sets and dicts. A number or boolean in a record (a style such as `penwidth: 2`, or an integer id) has no counterpart, so such inputs are outside the model.
- Error messages are not modelled. Each error carries the ids the message names, not its text.
- Dict insertion order is left open. `postprocess` walks the views, `build_tree` walks the branch groups, and both are modelled in any order. So when two expansions share an id, which one is kept is left open.
- Select.SelectParent: requires `Ranked`, a ghost depth map under which every scope is deeper than the node it scopes. This excludes every node map with a scope cycle, including maps on which the source returns. The climb at `src/hiearch/hh_view.py:82-85` stops at the first requested node, so a cycle through a requested node is harmless there, and so is a cycle that no climb enters. The climb runs forever only when it enters a cycle holding no requested node. The model does not separate these inputs and excludes them all.
- View.Pick, View.SelectNeighbours: require `Ranked` only when the policy is parent, since only `select_parent` climbs scopes without a guard. Under the parent policy they exclude every scope cycle, as Select.SelectParent does, even the cycles on which `select_parent` returns. The tree's own `ScopeCycle` error is reached for the other five policies.
- ViewPostprocess.SelectAll: requires `Ranked` only when some view selects by parent, and then excludes every scope cycle as Select.SelectParent does.
- ViewPostprocess.ExpandKind, ViewPostprocess.ExpandView, ViewPostprocess.ExpandAll: need no ranking, because expansion uses only the three recursive policies.
- ViewPostprocess.Resolve, ViewPostprocess.Postprocess, ViewPostprocess.Prepare, ViewPostprocess.Restyle: require `Ranked`, or that no parsed view record names `parent` as its neighbours. Styling cannot introduce that value (`Util.MergeAvoids`) and the default view names `explicit`, so without such a record no view selects by parent. A record that names `parent` still needs the ranking even when its view never reaches selection, and the ranking excludes every scope cycle, including those on which the source returns.
- Tree.MergeInto, Tree.MergeBranches, Tree.BuildTree: build with the guarded merge. Where the merge as written indexes past the end and raises `IndexError` (`src/hiearch/hh_node.py:124`, see Findings), the model returns a tree instead of an error.
- Recursive.SelectRecursive: an empty scope set, or a move back to a node already passed on the same climb, makes the loop at `src/hiearch/hh_view.py:133-142` run forever. Both are returned as `Diverges`.
- Select.SelectParent: a parent-policy edge whose climb ends at the original far endpoint is copied into `edges`, not made a custom edge. This follows the code at `src/hiearch/hh_view.py:91-92`.
- Select.SelectParent: an edge whose climb reaches a node already added is neither kept nor synthesized (`src/hiearch/hh_view.py:87-88`). The contract says only that its far end is covered.
- ViewPostprocess.ReadView: a parsed view with a non-empty `nodes_subset` is refused as malformed. Only expansion fills that key.
- ViewPostprocess.Resolve: the resolved views are returned as typed `View` values. They are not written back into the dict store; only the style queue is.
- Node.Gather: list-valued references are never added to the must-exist set, as at `src/hiearch/hh_node.py:13`, where the local set is rebound.
- Tree.Rank: rank only grows under the literal key `'scope'` (`src/hiearch/hh_node.py:91`), so every node has rank 0 except one whose id is literally `scope`, which has the count of scopes met so far. The model keeps that rule as written (`Tree.Rank`).

## Findings

| source | as written | input that shows it | evidently intended | confidence | as-written member | corrected member |
|---|---|---|---|---|---|---|
| src/hiearch/hh_node.py:121-124 | when the scan reaches the end of the merged branch, `rank[branch[index]]` indexes past it and raises `IndexError` | one view whose branches `[a, b]` and `[a, c, t]` share the leaf `a` (all ranks 0): merging reaches `t` with the scan at the end | a node whose place lies past the end is appended; the merged branch is `[a, b, c, t]` and holds every node of the group | not executed | Tree.MergeRunsPastEnd | Tree.MergeCovers |

The merge as written is `Tree.Merge` with `guarded` false. Where it succeeds,
the guarded merge gives the same branch (`Tree.MergeGuardAgrees`). The
tree-building methods (`Tree.MergeInto`, `Tree.MergeBranches`,
`Tree.BuildTree`) use the guarded merge.

