# zentags tag graph, modelled in Dafny

zentags indexes file-like paths by hierarchical tags. `main.py` keeps a
directed "tagged" graph over string identifiers, whose insertions are
guarded against cycles:

- each running prefix of a path is linked to the next one
  (`a -> a/b -> a/b/c`, and `docs -> docs/report.pdf`);
- each tag on a line is linked to the line's first token, the source item
  (`documents -> docs/report.pdf`);
- edge insertion goes through a guard (`DAG.add_edge`) that refuses an edge
  when both endpoints are already nodes and the target already reaches the
  source.

Four queries read the graph: leaves below some tag, items directly tagged by
every tag, items contained in a directory, and root tags. A small
`FileBrowser` keeps a set of applied tags and offers next tags and a query.

The model is functional. A store is an immutable
`Graph(nodes: set<string>, edges: set<(string, string)>)`. Python's
exceptions become `Result`/`Update` values. networkx's reachability is a
ghost path predicate, paired with a terminating frontier search proved equal
to it. The modules follow the program:

| module | file | covers |
|---|---|---|
| `Results` | results.dfy | the error variants (cycle, empty query, empty tag list, unknown node) |
| `Graphs` | graph.dfy | graph, successors, degrees, paths, `Reaches`, the reachability search |
| `Dag` | dag.dfy | `DAG.add_edge`, a run of insertions, acyclicity |
| `Text` | text.dfy | `str.strip`, `str.split`, `"/".join`, running prefixes (`itertools.accumulate`) |
| `FileSystem` | filesystem.dfy | ingestion of paths, lines and whole files; the four queries |
| `Browser` | browser.dfy | `FileBrowser` |
| `Scenarios` | scenarios.dfy | the two-line example store and the `a a` self-tag line, worked through the model |

The main results:

- **The guard.** An insertion is refused exactly when both endpoints exist
  and the target reaches the source. A node reaches itself.
- **Loads stay acyclic.** A whole load is one run of insertions that stops
  at the first refusal (`FileSystem.LoadIsAddEdges`). It keeps an acyclic
  store acyclic when no line tags its own source
  (`FileSystem.LoadKeepsAcyclic`).
- **The self-tag gap.** A line such as `a a` with a fresh `a` gets through
  the guard and leaves a self-loop (`Dag.SelfLoopOnFreshNodeAdmitted`,
  `Scenarios.ExampleSelfTag`). This is how the code behaves, so the model
  keeps it.
- **Queries.** Each query's result is characterised member by member,
  including its error cases.
- **Roots.** Every non-empty acyclic store has a root tag, so a fresh
  browser has something to offer.

### Behaviour of the code worth knowing

- `get_leaf_nodes_tagged_by` (main.py:64-66) collects the leaves below any
  of the given tags. The result is a union, so more tags give more results,
  and an empty list gives the empty set.
  - `Scenarios.ExampleLeafQueryIsUnion`: querying `documents` and `work`
    gives both files.
  - Only `FileBrowser.submit_query` (main.py:97-99) refuses an empty tag set.
- `load` (main.py:37-40) is not atomic. Edges added before a refused
  insertion stay in the store (`Dag.AddEdges`, the `Failed` case).
- A directory prefix such as `docs` is a node with no incoming edge. So in
  the two-line example it is a root tag next to `documents`, `work` and
  `personal` (`Scenarios.ExampleRoots`).
- The `has_edge(v, u)` test of `add_edge` (main.py:9) is kept in
  `Dag.AddEdge`. It never changes the outcome, because an edge is a path.

## Model

| member | source | states |
|---|---|---|
| Dag.AddEdge | main.py:7-13 | Refused (with the store unchanged and a cycle error) iff both endpoints are nodes and the target reaches the source. Otherwise both endpoints become nodes and exactly the edge is added. Re-adding an existing edge changes nothing. |
| Dag.SelfLoopOnExistingNodeRefused | main.py:8-12 | A self-loop on an existing node is refused, because a node reaches itself. |
| Dag.SelfLoopOnFreshNodeAdmitted | main.py:8-13 | A self-loop on a node not yet in the store passes the guard and makes the store cyclic. |
| Dag.AddEdgeKeepsAcyclic | main.py:7-13 | On an acyclic store, inserting a non-loop edge (accepted or refused) leaves it acyclic. |
| Dag.AddEdges | main.py:42-62 | A run of insertions that stops at the first refusal. On success the store gains exactly the endpoints and edges of the run. On refusal it keeps a cycle error and holds between the old store and the old store plus the run. |
| Dag.AddEdgesAppend | main.py:37-40 | Running `a + b` is running `a`, then `b` only if `a` went through. Refused work is not rolled back. |
| Dag.AddEdgesStopsAtFirstRefusal | main.py:37-40 | A failed run has a first refused edge. The result is the store just before that edge, and everything earlier stays committed. |
| Dag.AddEdgesOfPresentEdges | main.py:13 | On an acyclic store, re-inserting edges already present succeeds and changes nothing. |
| Dag.AddEdgesIntoSinks | main.py:8-11 | A run whose every target is never a source (in the store or the run) is never refused. |
| Dag.AddEdgesKeepsAcyclic | main.py:7-13 | A run with no self-loop edges keeps an acyclic store acyclic, whether or not it is refused partway. |
| Graphs.Reachable | main.py:10 | The frontier search returns exactly the nodes the start reaches along a path, itself included (the reading of `nx.has_path`). |
| Graphs.Bfs | main.py:10 | The search result contains what was visited, is closed under successors, and adds only edge targets. |
| Graphs.BfsSound | main.py:10 | Everything the search adds is reachable from the start when the visited set was. |
| Graphs.ReachesTrans | main.py:10 | Reachability composes. |
| Graphs.SinkReachesOnlyItself | main.py:66 | A node without successors reaches nothing but itself. |
| Graphs.ReachesThroughSinks | main.py:66 | When every child of a node is a sink, whatever the node reaches besides itself is one of its children. |
| Graphs.LeafReachedIffProperly | main.py:66 | For a leaf, "reached from another node" and "reached along at least one edge" coincide. |
| Text.Strip | main.py:51 | The result is an infix of the line with no whitespace at either end, and it drops only whitespace. |
| Text.StripUnique | main.py:51 | Any whitespace-free-ended infix obtained by dropping only whitespace is the strip result. |
| Text.StripIdempotent | main.py:51 | Stripping twice is stripping once. |
| Text.Split | main.py:43 | At least one part, no part contains the separator, and joining the parts with it gives back the string. |
| Text.SplitJoin | main.py:55 | Splitting a join of separator-free parts gives back the parts. |
| Text.Prefixes | main.py:45 | The running prefixes start with the first segment. Each next prefix is the previous one, `/`, and the next segment. Prefix `i` is the join of the first `i + 1` segments. |
| Text.PathChain | main.py:43-45 | The chain of a path ends at the path, has length 1 iff the path has no `/`, and each element followed by `/` is a prefix of the next. |
| FileSystem.ChainLinks | main.py:44-48 | Consecutive chain elements are linked, one edge per adjacent pair, and a chain of two or more has exactly its elements as endpoints. |
| FileSystem.IngestContainerPath | main.py:42-48 | A path without `/` changes nothing. Otherwise, on success, the prefixes become nodes and exactly the prefix-to-next-prefix edges are added. A refusal is a cycle error. |
| FileSystem.IngestedPrefixesContained | main.py:42-48 | After ingesting a path, every prefix is listed among the items contained in the prefix before it. |
| FileSystem.IngestTags | main.py:59-62 | On success the store gains exactly the endpoints and edges of the tags' links. A refusal is a cycle error, and the store then lies between the old store and the old store plus those links. |
| FileSystem.ParseLine | main.py:50-62 | Blank and `#` lines leave the store unchanged. A successful line adds exactly its links, and each tag token, taken whole, gets an edge to the source. A refusal is a cycle error and adds nothing beyond the line's links. |
| FileSystem.Load | main.py:37-40 | A successful load adds exactly the endpoints and edges of all the file's links. A refusal is a cycle error, and the store keeps what came before it, within the file's links. |
| FileSystem.IngestTagsIsAddEdges | main.py:59-62 | The tag loop is the run of insertions, per tag, of that tag's path edges and then tag-to-source. |
| FileSystem.ParseLineIsAddEdges | main.py:50-62 | Parsing a line is one run of insertions: the source's path edges, then each tag's. |
| FileSystem.LoadIsAddEdges | main.py:37-40 | Loading lines is the single run of all their insertions, stopping at the first refusal. |
| FileSystem.TagLinksHasTagEdge | main.py:60-62 | Every tag of a line contributes the edge from the whole tag to the source. |
| FileSystem.FileLinksNoSelfLoops | main.py:42-62 | A file where no line names its source among its tags issues no self-loop insertion. |
| FileSystem.LoadKeepsAcyclic | main.py:37-62 | Loading such a file into an acyclic store leaves it acyclic, even when the load stops early. |
| FileSystem.SelfTaggedLineAdmitsSelfLoop | main.py:55-62 | A line `a a` with a fresh `a` is accepted and leaves the self-loop `a -> a`. |
| FileSystem.ReloadIsNoOp | main.py:37-40 | Loading the same lines again into the acyclic result of a successful load changes nothing. |
| FileSystem.Descendants | main.py:66 | An unknown tag is an error. Otherwise the result is exactly what the tag reaches, minus the tag itself (the meaning of `nx.descendants`). |
| FileSystem.LeavesBelow | main.py:66 | Exactly the out-degree-0 nodes, other than the tag, that the tag reaches. |
| FileSystem.LeafNodesTaggedBy | main.py:64-66 | An error iff some tag is unknown. Otherwise a node is in the result iff it is a leaf below at least one tag (union; no tags gives no leaves). |
| FileSystem.LeafUnderIffProperlyReached | main.py:66 | A result node is a leaf reached from the tag along a non-empty path. |
| FileSystem.LeafNodesOrderFree | main.py:64-66 | The leaf query depends only on which tags are given, not their order or repetition. |
| FileSystem.LeafNodesMonotone | main.py:64-66 | Adding tags never removes leaves from the result. |
| FileSystem.IntersectSuccessors | main.py:70-71 | The loop keeps exactly the items that every remaining tag has as a successor, and fails iff one of those tags is unknown. |
| FileSystem.ItemsImmediatelyTaggedBy | main.py:68-72 | No tags is an error (the `tags[0]` index failure), and so is an unknown tag. Otherwise a node is in the result iff every tag has an edge to it. |
| FileSystem.ItemsImmediatelyOrderFree | main.py:68-72 | The item query depends only on which tags are given. |
| FileSystem.ItemsContainedBy | main.py:74-75 | An unknown key is an error. Otherwise the result is exactly the key's successors that begin with the key and `/`. |
| FileSystem.RootTags | main.py:77-78 | Exactly the nodes without an incoming edge. |
| FileSystem.LongPathHasCycle | main.py:77-78 | Helper of `AcyclicHasRoot`: a path through more positions than there are nodes repeats a node, so the store is cyclic. |
| FileSystem.AcyclicHasRoot | main.py:77-78 | A non-empty acyclic store has at least one root tag. |
| Browser.NewBrowser | main.py:84-86 | A new browser reads the given store and starts with no tag applied. |
| Browser.AddTag | main.py:94-95 | The store is untouched, the tag is applied, and nothing else is added. |
| Browser.AddTagIdempotentAndCommutative | main.py:94-95 | Applying a tag twice is applying it once, and the order of two applications does not matter. |
| Browser.TagList | main.py:92 | Listing the applied set yields each applied tag exactly once. |
| Browser.PotentialTags | main.py:88-92 | With nothing applied, the root tags. Otherwise an error iff some applied tag is unknown, else exactly the nodes every applied tag points to. |
| Browser.SubmitQuery | main.py:97-100 | An empty-query error iff nothing is applied. Otherwise an unknown-node error iff some applied tag is unknown, else the union of the leaves below the applied tags. |
| Browser.AddTagWidensQuery | main.py:94-100 | Applying one more tag never removes items from the query result. |
| Browser.FreshBrowserOffersRoots | main.py:84-90 | A fresh browser over a non-empty acyclic store offers a non-empty set of root tags. |
| Scenarios.PathChainOfThree | main.py:43-45 | For plain segments `a`, `b`, `c`, the running prefixes of `a/b/c` are `a`, `a/b`, `a/b/c`. |
| Scenarios.PathChainExample | test.py:3-7 | The running prefixes of `path/to/file` are `path`, `path/to`, `path/to/file`. |
| Scenarios.TokensOfJoin | main.py:51-55 | A line without surrounding whitespace that joins parts with single spaces strips to itself and splits back into those parts. |
| Scenarios.TokensOfDecl | main.py:51-56 | A line holding a source and two plain tags is not skipped, and it tokenises to exactly those three tokens. |
| Scenarios.LineLinksOfDecl | main.py:50-62 | The line `dir/name t u` issues, in order, the container link `dir -> dir/name`, then `t -> dir/name` and `u -> dir/name`. |
| Scenarios.StoreLoad | main.py:37-62 | For any plain names, loading two lines for files `dir/f1` (tags `t1 t2`) and `dir/f2` (tags `t1 t3`) into an empty store succeeds and builds exactly the six links. |
| Scenarios.LeavesBelowFlatTag | main.py:66 | The leaves below a tag whose children are all sinks are exactly its children. |
| Scenarios.LeafQueryOfTwo | main.py:64-66 | A two-tag leaf query is the union of the two tags' leaves. |
| Scenarios.ItemQueryOfTwo | main.py:68-72 | A two-tag item query is the intersection of the two tags' successors. |
| Scenarios.StoreLeafQueryIsUnion | main.py:64-66 | In that store, querying `t1` with `t2` yields both files, although only the first carries `t2`. |
| Scenarios.StoreItemQueryIsIntersection | main.py:68-72 | In that store, only the first file is directly tagged by both `t1` and `t2`. |
| Scenarios.StoreBackEdgeRefused | main.py:8-12 | In that store, linking a file back to its directory is refused as a cycle. |
| Scenarios.StoreRoots | main.py:77-78 | In that store, the roots are the directory and the three tags, and the files are not roots. |
| Scenarios.ExampleLoad | main.py:37-62 | Loading `docs/report.pdf documents work` and `docs/photo.png documents personal` into an empty store succeeds and builds exactly the six expected edges. |
| Scenarios.ExampleLeafQueryIsUnion | main.py:64-66 | In the example store, `documents` with `work` yields both files. |
| Scenarios.ExampleItemQueryIsIntersection | main.py:68-72 | In the example store, only the report is directly tagged by both `documents` and `work`. |
| Scenarios.ExampleBackEdgeRefused | main.py:8-12 | In the example store, linking `docs/report.pdf` back to `docs` is refused as a cycle. |
| Scenarios.ExampleRoots | main.py:77-78 | In the example store, the roots are `docs`, `documents`, `work` and `personal`. |
| Scenarios.ExampleSelfTag | main.py:55-62 | The line `a a` on an empty store is accepted and leaves the store cyclic. |

## Left out

- File reading in `load` (main.py:38-40): the file is given as its sequence of lines.
- The module-level script (main.py:102-109): it is I/O (printing) over the modelled operations.
- `get_dot` (main.py:80-81): Graphviz export through a foreign library.
- `recursive_defaultdict`, `convert_to_normal_dict`, `recursive_dict_traversal` (main.py:17-30): nothing in the core uses them.
- Error payloads and exception classes.
  - The message text and the name of the unknown node are dropped.
  - Only the kind is kept: cycle, empty query, empty tag list, unknown node.
  - So a result never depends on the order in which Python iterates a set.
- Text.Strip: whitespace is space, tab, line feed, carriage return, vertical tab and form feed. Python's `str.strip` also removes `\x1c`-`\x1f`, `\x85` and the Unicode space characters.
- networkx internals: successors, degrees, descendants and `has_path` are defined directly over the edge set.
- Browser.FileBrowser holds the store by value. In main.py:85 the browser keeps a reference to the `FileSystem`, so it would see later loads; here a browser sees the store it was made with.
- Edge attributes (`**attr`, main.py:7): nothing in the core passes any.
