/** The tag store: ingestion of declaration lines into the graph, and the
    read-only queries over it.

    A declaration line is `source tag tag ...`. Ingestion turns it into a
    sequence of guarded edge insertions: the links between the running
    prefixes of the source path, then for each tag the links of the tag's own
    path followed by the edge from the whole tag to the source. The first
    refused insertion stops the line, and with it the load.
 */
module FileSystem {
  import opened Results
  import opened Graphs
  import opened Dag
  import opened Text

  // ---------------------------------------------------------------------
  // Ingestion
  // ---------------------------------------------------------------------

  /** The links between consecutive members of a chain. */
  function ChainLinks(chain: seq<Node>): (r: seq<Edge>)
    requires |chain| >= 1
    ensures |r| == |chain| - 1
    ensures forall i :: 0 <= i < |r| ==> r[i] == (chain[i], chain[i + 1])
    ensures |chain| >= 2 ==> Endpoints(r) == set x | x in chain
  {
    var r := seq(|chain| - 1, i requires 0 <= i < |chain| - 1 => (chain[i], chain[i + 1]));
    assert |chain| >= 2 ==> Endpoints(r) == set x | x in chain by {
      if |chain| >= 2 {
        forall x | x in chain
          ensures x in Endpoints(r)
        {
          var k :| 0 <= k < |chain| && chain[k] == x;
          if k < |r| {
            assert r[k].0 == x;
          } else {
            assert r[k - 1].1 == x;
          }
        }
      }
    }
    r
  }

  /** The insertions that ingesting a container path issues. */
  function PathLinks(path: string): seq<Edge> {
    ChainLinks(PathChain(path))
  }

  /** `__ingest_container_path`: link each running prefix of the path to the
      next one. */
  function IngestContainerPath(g: Graph, path: string): (r: Update)
    ensures PathSep !in path ==> r == Done(g)
    ensures r.Done? ==> r.graph.nodes == g.nodes + (if PathSep in path then set x | x in PathChain(path) else {})
    ensures r.Done? ==> forall e :: e in r.graph.edges <==>
      e in g.edges || exists i :: 0 <= i < |PathChain(path)| - 1 && e == (PathChain(path)[i], PathChain(path)[i + 1])
    ensures r.Failed? ==> r.error == Cycle && g.edges <= r.graph.edges <= g.edges + EdgeSet(PathLinks(path))
  {
    PathLinksEnds(path);
    ChainLinksEdges(PathChain(path));
    AddEdges(g, PathLinks(path))
  }

  /** A path without `/` issues no insertion; otherwise the insertions
      touch every prefix. */
  lemma PathLinksEnds(path: string)
    ensures PathSep !in path ==> PathLinks(path) == []
    ensures PathSep in path ==> Endpoints(PathLinks(path)) == set x | x in PathChain(path)
  {
  }

  /** The links of a chain are the pairs of consecutive members. */
  lemma ChainLinksEdges(chain: seq<Node>)
    requires |chain| >= 1
    ensures forall e :: e in EdgeSet(ChainLinks(chain)) <==>
      exists i :: 0 <= i < |chain| - 1 && e == (chain[i], chain[i + 1])
  {
    var links := ChainLinks(chain);
    forall e
      ensures e in EdgeSet(links) <==> exists i :: 0 <= i < |chain| - 1 && e == (chain[i], chain[i + 1])
    {
      if e in EdgeSet(links) {
        var i :| 0 <= i < |links| && links[i] == e;
        assert e == (chain[i], chain[i + 1]);
      }
      if exists i :: 0 <= i < |chain| - 1 && e == (chain[i], chain[i + 1]) {
        var i :| 0 <= i < |chain| - 1 && e == (chain[i], chain[i + 1]);
        assert links[i] == e;
      }
    }
  }

  /** The insertions for the tags of a line whose source is `source`. */
  function TagLinks(source: Node, tags: seq<Node>): seq<Edge>
    decreases |tags|
  {
    if |tags| == 0 then [] else PathLinks(tags[0]) + [(tags[0], source)] + TagLinks(source, tags[1..])
  }

  /** The loop over tags in `__parse_line`: ingest the tag's path, then link
      the whole tag to the source. */
  function IngestTags(g: Graph, source: Node, tags: seq<Node>): (r: Update)
    ensures r.Done? ==> r.graph == Graph(g.nodes + Endpoints(TagLinks(source, tags)), g.edges + EdgeSet(TagLinks(source, tags)))
    ensures r.Failed? ==> r.error == Cycle
    ensures r.Failed? ==> g.nodes <= r.graph.nodes <= g.nodes + Endpoints(TagLinks(source, tags))
    ensures r.Failed? ==> g.edges <= r.graph.edges <= g.edges + EdgeSet(TagLinks(source, tags))
    decreases |tags|
  {
    if |tags| == 0 then
      Done(g)
    else
      var p := PathLinks(tags[0]);
      var e := (tags[0], source);
      var rest := TagLinks(source, tags[1..]);
      assert TagLinks(source, tags) == (p + [e]) + rest;
      match IngestContainerPath(g, tags[0])
      case Failed(h, err) =>
        BetweenWiden(g, h, p, [e]);
        BetweenWiden(g, h, p + [e], rest);
        Failed(h, err)
      case Done(h) =>
        match AddEdge(h, tags[0], source)
        case Failed(h', err) =>
          BetweenWiden(g, h, p, [e]);
          BetweenWiden(g, h, p + [e], rest);
          Failed(h', err)
        case Done(h') =>
          var r := IngestTags(h', source, tags[1..]);
          GrownByEdge(h, h', e);
          GrownThen(g, h, h', p, [e]);
          GrownThen(g, h', r.graph, p + [e], rest);
          r
  }

  /** A line that strips to nothing or to a comment declares nothing. */
  predicate IsSkipped(line: string) {
    var s := Strip(line);
    s == "" || s[0] == '#'
  }

  /** The tokens of a line: its stripped text cut at every single space, the
      first token naming the source and the rest its tags. */
  function Tokens(line: string): (r: seq<string>)
    ensures |r| >= 1
  {
    Split(Strip(line), TokenSep)
  }

  /** `__parse_line`: skip blank and comment lines; otherwise ingest the
      source token's path, then each tag in turn. */
  function ParseLine(g: Graph, line: string): (r: Update)
    ensures IsSkipped(line) ==> r == Done(g)
    ensures r.Done? ==> r.graph == Graph(g.nodes + Endpoints(LineLinks(line)), g.edges + EdgeSet(LineLinks(line)))
    ensures r.Done? && !IsSkipped(line) ==>
      forall i :: 1 <= i < |Tokens(line)| ==> (Tokens(line)[i], Tokens(line)[0]) in r.graph.edges
    ensures r.Failed? ==> r.error == Cycle
    ensures r.Failed? ==> g.nodes <= r.graph.nodes <= g.nodes + Endpoints(LineLinks(line))
    ensures r.Failed? ==> g.edges <= r.graph.edges <= g.edges + EdgeSet(LineLinks(line))
  {
    if IsSkipped(line) then
      Done(g)
    else
      var items := Tokens(line);
      var source := items[0];
      var p := PathLinks(source);
      var t := TagLinks(source, items[1..]);
      match IngestContainerPath(g, source)
      case Failed(h, err) =>
        BetweenWiden(g, h, p, t);
        Failed(h, err)
      case Done(h) =>
        var r := IngestTags(h, source, items[1..]);
        GrownThen(g, h, r.graph, p, t);
        TagLinksHaveTagEdges(p, source, items);
        r
  }

  /** Every tag token after the first contributes its edge to the source,
      whatever insertions come before the tags'. */
  lemma TagLinksHaveTagEdges(before: seq<Edge>, source: Node, items: seq<Node>)
    requires |items| >= 1
    ensures forall i :: 1 <= i < |items| ==> (items[i], source) in EdgeSet(before + TagLinks(source, items[1..]))
  {
    RunsAppend(before, TagLinks(source, items[1..]));
    forall i | 1 <= i < |items|
      ensures (items[i], source) in EdgeSet(TagLinks(source, items[1..]))
    {
      TagLinksHasTagEdge(source, items[1..], i - 1);
    }
  }

  /** `load`, with the file given as its sequence of lines: parse each line
      in turn; the first failure ends the load and keeps what was added. */
  function Load(g: Graph, lines: seq<string>): (r: Update)
    ensures r.Done? ==> r.graph == Graph(g.nodes + Endpoints(FileLinks(lines)), g.edges + EdgeSet(FileLinks(lines)))
    ensures r.Failed? ==> r.error == Cycle
    ensures r.Failed? ==> g.nodes <= r.graph.nodes <= g.nodes + Endpoints(FileLinks(lines))
    ensures r.Failed? ==> g.edges <= r.graph.edges <= g.edges + EdgeSet(FileLinks(lines))
    decreases |lines|
  {
    if |lines| == 0 then
      Done(g)
    else
      var a := LineLinks(lines[0]);
      var b := FileLinks(lines[1..]);
      assert FileLinks(lines) == a + b;
      match ParseLine(g, lines[0])
      case Failed(h, err) =>
        BetweenWiden(g, h, a, b);
        Failed(h, err)
      case Done(h) =>
        var r := Load(h, lines[1..]);
        GrownThen(g, h, r.graph, a, b);
        r
  }

  /** Every insertion one line issues, in order. */
  function LineLinks(line: string): seq<Edge> {
    if IsSkipped(line) then
      []
    else
      var items := Tokens(line);
      PathLinks(items[0]) + TagLinks(items[0], items[1..])
  }

  /** Every insertion a load issues, in order. */
  function FileLinks(lines: seq<string>): seq<Edge>
    decreases |lines|
  {
    if |lines| == 0 then [] else LineLinks(lines[0]) + FileLinks(lines[1..])
  }

  /** Ingesting a container path is the run of its insertions. */
  lemma IngestContainerPathIsAddEdges(g: Graph, path: string)
    ensures IngestContainerPath(g, path) == AddEdges(g, PathLinks(path))
  {
  }

  /** The first tag's path ingestion, then its link to the source: when
      both go through, the tag loop and the run of insertions continue from
      the same graph. */
  lemma IngestTagsFirstRound(g: Graph, source: Node, tags: seq<Node>)
    requires |tags| > 0
    ensures var first := AddEdges(g, PathLinks(tags[0]));
      first.Failed? ==>
        IngestTags(g, source, tags) == first && AddEdges(g, TagLinks(source, tags)) == first
    ensures var first := AddEdges(g, PathLinks(tags[0]));
      var second := AddEdge(first.graph, tags[0], source);
      first.Done? && second.Failed? ==>
        IngestTags(g, source, tags) == second && AddEdges(g, TagLinks(source, tags)) == second
    ensures var first := AddEdges(g, PathLinks(tags[0]));
      var second := AddEdge(first.graph, tags[0], source);
      first.Done? && second.Done? ==>
        IngestTags(g, source, tags) == IngestTags(second.graph, source, tags[1..]) &&
        AddEdges(g, TagLinks(source, tags)) == AddEdges(second.graph, TagLinks(source, tags[1..]))
  {
    var t := tags[0];
    var rest := TagLinks(source, tags[1..]);
    assert TagLinks(source, tags) == PathLinks(t) + ([(t, source)] + rest);
    AddEdgesThenEdge(g, PathLinks(t), (t, source), rest);
    IngestContainerPathIsAddEdges(g, t);
  }

  lemma {:induction false} IngestTagsIsAddEdges(g: Graph, source: Node, tags: seq<Node>)
    ensures IngestTags(g, source, tags) == AddEdges(g, TagLinks(source, tags))
    decreases |tags|
  {
    if |tags| > 0 {
      IngestTagsFirstRound(g, source, tags);
      var first := AddEdges(g, PathLinks(tags[0]));
      if first.Done? {
        var second := AddEdge(first.graph, tags[0], source);
        if second.Done? {
          IngestTagsIsAddEdges(second.graph, source, tags[1..]);
        }
      }
    }
  }

  /** Parsing a line performs exactly the insertions `LineLinks` lists,
      stopping at the first refusal. */
  lemma ParseLineIsAddEdges(g: Graph, line: string)
    ensures ParseLine(g, line) == AddEdges(g, LineLinks(line))
  {
    if !IsSkipped(line) {
      var items := Tokens(line);
      AddEdgesAppend(g, PathLinks(items[0]), TagLinks(items[0], items[1..]));
      match AddEdges(g, PathLinks(items[0]))
      case Failed(_, _) =>
      case Done(h) => IngestTagsIsAddEdges(h, items[0], items[1..]);
    }
  }

  /** A whole load is one run of insertions: the lines' insertions one after
      another, stopping at the first refusal. */
  lemma {:induction false} LoadIsAddEdges(g: Graph, lines: seq<string>)
    ensures Load(g, lines) == AddEdges(g, FileLinks(lines))
    decreases |lines|
  {
    if |lines| > 0 {
      ParseLineIsAddEdges(g, lines[0]);
      AddEdgesAppend(g, LineLinks(lines[0]), FileLinks(lines[1..]));
      match ParseLine(g, lines[0])
      case Failed(_, _) =>
      case Done(h) => LoadIsAddEdges(h, lines[1..]);
    }
  }

  lemma {:induction false} TagLinksHasTagEdge(source: Node, tags: seq<Node>, k: nat)
    requires k < |tags|
    ensures (tags[k], source) in TagLinks(source, tags)
    decreases k
  {
    if k > 0 {
      TagLinksHasTagEdge(source, tags[1..], k - 1);
    }
  }

  // ---------------------------------------------------------------------
  // Acyclicity of loaded graphs
  // ---------------------------------------------------------------------

  /** A line whose source token reappears among its tags. */
  predicate SelfTagged(line: string) {
    !IsSkipped(line) && Tokens(line)[0] in Tokens(line)[1..]
  }

  lemma PathLinksNoSelfLoops(path: string)
    ensures NoSelfLoops(PathLinks(path))
  {
    var c := PathChain(path);
    forall i | 0 <= i < |c| - 1
      ensures c[i] != c[i + 1]
    {
      assert c[i] + [PathSep] <= c[i + 1];
    }
  }

  lemma {:induction false} TagLinksNoSelfLoops(source: Node, tags: seq<Node>)
    requires source !in tags
    ensures NoSelfLoops(TagLinks(source, tags))
    decreases |tags|
  {
    if |tags| > 0 {
      PathLinksNoSelfLoops(tags[0]);
      TagLinksNoSelfLoops(source, tags[1..]);
    }
  }

  lemma {:induction false} FileLinksNoSelfLoops(lines: seq<string>)
    requires forall i :: 0 <= i < |lines| ==> !SelfTagged(lines[i])
    ensures NoSelfLoops(FileLinks(lines))
    decreases |lines|
  {
    if |lines| > 0 {
      LineLinksNoSelfLoops(lines[0]);
      FileLinksNoSelfLoops(lines[1..]);
      NoSelfLoopsAppend(LineLinks(lines[0]), FileLinks(lines[1..]));
    }
  }

  lemma LineLinksNoSelfLoops(line: string)
    requires !SelfTagged(line)
    ensures NoSelfLoops(LineLinks(line))
  {
    if !IsSkipped(line) {
      var items := Tokens(line);
      PathLinksNoSelfLoops(items[0]);
      TagLinksNoSelfLoops(items[0], items[1..]);
      NoSelfLoopsAppend(PathLinks(items[0]), TagLinks(items[0], items[1..]));
    }
  }

  /** Loading lines none of which tags its own source keeps an acyclic graph
      acyclic, whether the load completes or stops at a refused line. */
  lemma LoadKeepsAcyclic(g: Graph, lines: seq<string>)
    requires Valid(g) && Acyclic(g)
    requires forall i :: 0 <= i < |lines| ==> !SelfTagged(lines[i])
    ensures Valid(Load(g, lines).graph) && Acyclic(Load(g, lines).graph)
  {
    LoadIsAddEdges(g, lines);
    FileLinksNoSelfLoops(lines);
    AddEdgesKeepsAcyclic(g, FileLinks(lines));
  }

  /** The gap the guard leaves: a line `a a` whose token is a fresh single
      segment loads, and leaves the self-loop `a -> a` behind. */
  lemma SelfTaggedLineAdmitsSelfLoop(g: Graph, line: string, a: Node)
    requires Tokens(line) == [a, a]
    requires |a| > 0 && a[0] != '#'
    requires PathSep !in a && a !in g.nodes
    ensures ParseLine(g, line).Done?
    ensures (a, a) in ParseLine(g, line).graph.edges
    ensures !Acyclic(ParseLine(g, line).graph)
  {
    assert !IsSkipped(line) by {
      assert Strip(line) == Join(Tokens(line), TokenSep) == a + [TokenSep] + a;
    }
    assert PathLinks(a) == [];
    assert TagLinks(a, [a]) == [(a, a)];
    ParseLineIsAddEdges(g, line);
    assert LineLinks(line) == [(a, a)];
    SelfLoopOnFreshNodeAdmitted(g, a);
  }

  /** Loading the same lines again into the acyclic graph a load produced
      changes nothing. */
  lemma ReloadIsNoOp(g: Graph, lines: seq<string>)
    requires Valid(g)
    requires Load(g, lines).Done? && Acyclic(Load(g, lines).graph)
    ensures Load(Load(g, lines).graph, lines) == Load(g, lines)
  {
    var h := Load(g, lines).graph;
    LoadIsAddEdges(g, lines);
    LoadIsAddEdges(h, lines);
    AddEdgesOfPresentEdges(h, FileLinks(lines));
  }

  // ---------------------------------------------------------------------
  // Queries
  // ---------------------------------------------------------------------

  /** `nx.descendants`: the nodes reachable from `t`, `t` itself excluded. */
  function Descendants(g: Graph, t: Node): (r: Result<set<Node>>)
    ensures r.Err? <==> t !in g.nodes
    ensures r.Err? ==> r.error == NodeNotFound
    ensures r.Ok? ==> forall n :: n in r.value <==> n != t && Reaches(g, t, n)
  {
    if t !in g.nodes then Err(NodeNotFound) else Ok(Reachable(g, t) - {t})
  }

  /** `n` is a leaf (no successors) below `t`. */
  ghost predicate LeafUnder(g: Graph, t: Node, n: Node) {
    OutDegree(g, n) == 0 && n != t && Reaches(g, t, n)
  }

  /** The leaves among the descendants of a known node. */
  function LeavesBelow(g: Graph, t: Node): (r: set<Node>)
    requires t in g.nodes
    ensures forall n :: n in r <==> LeafUnder(g, t, n)
  {
    set n | n in Descendants(g, t).value && OutDegree(g, n) == 0
  }

  /** `get_leaf_nodes_tagged_by`: the union, over the tags, of the leaves
      below each tag. No tags gives no leaves; an unknown tag is an error. */
  function LeafNodesTaggedBy(g: Graph, tags: seq<Node>): (r: Result<set<Node>>)
    ensures r.Err? <==> exists t :: t in tags && t !in g.nodes
    ensures r.Err? ==> r.error == NodeNotFound
    ensures r.Ok? ==> forall n :: n in r.value <==> exists t :: t in tags && LeafUnder(g, t, n)
  {
    if exists t :: t in tags && t !in g.nodes then
      Err(NodeNotFound)
    else
      var r := set t, n | t in tags && n in LeavesBelow(g, t) :: n;
      assert forall n :: n in r <==> exists t :: t in tags && n in LeavesBelow(g, t);
      Ok(r)
  }

  /** The leaf query reads each tag's leaves as those reached along at least
      one edge. */
  lemma LeafUnderIffProperlyReached(g: Graph, t: Node, n: Node)
    ensures LeafUnder(g, t, n) <==> OutDegree(g, n) == 0 && ReachesProperly(g, t, n)
  {
    if OutDegree(g, n) == 0 {
      LeafReachedIffProperly(g, t, n);
    }
  }

  /** The leaf query depends only on which tags are given, not on their order
      or repetition. */
  lemma LeafNodesOrderFree(g: Graph, a: seq<Node>, b: seq<Node>)
    requires forall t :: t in a <==> t in b
    ensures LeafNodesTaggedBy(g, a) == LeafNodesTaggedBy(g, b)
  {
    var ra, rb := LeafNodesTaggedBy(g, a), LeafNodesTaggedBy(g, b);
    if ra.Ok? && rb.Ok? {
      assert ra.value == rb.value;
    }
  }

  /** More tags never lose leaves: the leaf query is a union. */
  lemma LeafNodesMonotone(g: Graph, a: seq<Node>, b: seq<Node>)
    requires forall t :: t in a ==> t in b
    requires LeafNodesTaggedBy(g, b).Ok?
    ensures LeafNodesTaggedBy(g, a).Ok?
    ensures LeafNodesTaggedBy(g, a).value <= LeafNodesTaggedBy(g, b).value
  {
  }

  /** The intersection loop: keep the items that every remaining tag points at. */
  function IntersectSuccessors(g: Graph, items: set<Node>, rest: seq<Node>): (r: Result<set<Node>>)
    ensures r.Err? <==> exists t :: t in rest && t !in g.nodes
    ensures r.Err? ==> r.error == NodeNotFound
    ensures r.Ok? ==> forall n :: n in r.value <==> n in items && forall t :: t in rest ==> (t, n) in g.edges
    decreases |rest|
  {
    if |rest| == 0 then
      Ok(items)
    else
      assert forall t :: t in rest <==> t == rest[0] || t in rest[1..];
      if rest[0] !in g.nodes then
        Err(NodeNotFound)
      else
        IntersectSuccessors(g, items * Successors(g, rest[0]), rest[1..])
  }

  /** `get_items_immediately_tagged_by`: the nodes every tag points at
      directly. An empty tag list and an unknown tag are errors. */
  function ItemsImmediatelyTaggedBy(g: Graph, tags: seq<Node>): (r: Result<set<Node>>)
    ensures |tags| == 0 ==> r == Err(EmptyTagList)
    ensures |tags| > 0 ==> (r.Err? <==> exists t :: t in tags && t !in g.nodes)
    ensures |tags| > 0 && r.Err? ==> r.error == NodeNotFound
    ensures r.Ok? ==> |tags| > 0 && forall n :: n in r.value <==> forall t :: t in tags ==> (t, n) in g.edges
  {
    if |tags| == 0 then
      Err(EmptyTagList)
    else
      assert forall t :: t in tags <==> t == tags[0] || t in tags[1..];
      if tags[0] !in g.nodes then
        Err(NodeNotFound)
      else
        IntersectSuccessors(g, Successors(g, tags[0]), tags[1..])
  }

  /** The successor intersection depends only on which tags are given. */
  lemma ItemsImmediatelyOrderFree(g: Graph, a: seq<Node>, b: seq<Node>)
    requires forall t :: t in a <==> t in b
    ensures ItemsImmediatelyTaggedBy(g, a) == ItemsImmediatelyTaggedBy(g, b)
  {
    var ra, rb := ItemsImmediatelyTaggedBy(g, a), ItemsImmediatelyTaggedBy(g, b);
    if |a| > 0 {
      assert a[0] in b;
    }
    if |b| > 0 {
      assert b[0] in a;
    }
    if ra.Ok? && rb.Ok? {
      assert ra.value == rb.value;
    }
  }

  /** `get_items_contained_by`: the successors of `key` whose identifiers
      continue `key` with a path separator. */
  function ItemsContainedBy(g: Graph, key: Node): (r: Result<set<Node>>)
    ensures r.Err? <==> key !in g.nodes
    ensures r.Err? ==> r.error == NodeNotFound
    ensures r.Ok? ==> forall n :: n in r.value <==> (key, n) in g.edges && key + [PathSep] <= n
  {
    match ItemsImmediatelyTaggedBy(g, [key])
    case Err(e) => Err(e)
    case Ok(items) => Ok(set n | n in items && key + [PathSep] <= n)
  }

  /** Ingesting a path makes each running prefix contain the next one. */
  lemma IngestedPrefixesContained(g: Graph, path: string, i: nat)
    requires IngestContainerPath(g, path).Done?
    requires i < |PathChain(path)| - 1
    ensures ItemsContainedBy(IngestContainerPath(g, path).graph, PathChain(path)[i]).Ok?
    ensures PathChain(path)[i + 1] in ItemsContainedBy(IngestContainerPath(g, path).graph, PathChain(path)[i]).value
  {
    var c := PathChain(path);
    assert PathSep in path;
    assert c[i] in set x | x in c;
  }

  /** `get_root_tags`: the nodes no edge points at. */
  function RootTags(g: Graph): (r: set<Node>)
    ensures forall n {:trigger n in r} :: n in r <==> n in g.nodes && forall m :: (m, n) !in g.edges
  {
    set n | n in g.nodes && InDegree(g, n) == 0
  }

  /** A path whose every member is a node. */
  ghost predicate NodePath(g: Graph, p: seq<Node>) {
    IsPath(g, p) && forall i :: 0 <= i < |p| ==> p[i] in g.nodes
  }

  lemma {:induction false} Pigeonhole(p: seq<Node>, s: set<Node>)
    requires forall i :: 0 <= i < |p| ==> p[i] in s
    requires |p| > |s|
    ensures exists i, j :: 0 <= i < j < |p| && p[i] == p[j]
    decreases |p|
  {
    var x := p[|p| - 1];
    var q := p[..|p| - 1];
    if x in q {
      var i :| 0 <= i < |q| && q[i] == x;
      assert p[i] == p[|p| - 1];
    } else {
      assert forall i :: 0 <= i < |q| ==> q[i] in s - {x};
      Pigeonhole(q, s - {x});
      var i, j :| 0 <= i < j < |q| && q[i] == q[j];
      assert p[i] == p[j];
    }
  }

  /** Without roots, every node has a predecessor, so paths of any length can
      be built backwards. */
  lemma {:induction false} BackwardPath(g: Graph, k: nat)
    requires Valid(g) && g.nodes != {}
    requires forall n {:trigger Predecessors(g, n)} :: n in g.nodes ==> Predecessors(g, n) != {}
    ensures exists p :: NodePath(g, p) && |p| == k + 1
  {
    if k == 0 {
      var n :| n in g.nodes;
      assert NodePath(g, [n]);
    } else {
      BackwardPath(g, k - 1);
      var p :| NodePath(g, p) && |p| == k;
      assert Predecessors(g, p[0]) != {};
      var m :| m in Predecessors(g, p[0]);
      var q := [m] + p;
      assert forall i :: 1 <= i < |q| ==> q[i] == p[i - 1];
      assert NodePath(g, q);
    }
  }

  lemma SubPath(g: Graph, p: seq<Node>, i: int, j: int)
    requires IsPath(g, p) && 0 <= i < j <= |p|
    ensures IsPath(g, p[i..j])
  {
    var q := p[i..j];
    forall k | 0 <= k < |q| - 1
      ensures (q[k], q[k + 1]) in g.edges
    {
      assert q[k] == p[i + k] && q[k + 1] == p[i + k + 1];
    }
  }

  /** A path with more members than the graph has nodes repeats a node, and
      so closes a cycle. */
  lemma LongPathHasCycle(g: Graph, p: seq<Node>)
    requires NodePath(g, p) && |p| > |g.nodes|
    ensures !Acyclic(g)
  {
    Pigeonhole(p, g.nodes);
    var i, j :| 0 <= i < j < |p| && p[i] == p[j];
    SubPath(g, p, i + 1, j + 1);
    var q := p[i + 1..j + 1];
    assert q[0] == p[i + 1] && q[|q| - 1] == p[i];
    assert Reaches(g, p[i + 1], p[i]);
    assert (p[i], p[i + 1]) in g.edges;
  }

  lemma NoRootMeansPredecessors(g: Graph)
    requires RootTags(g) == {}
    ensures forall n {:trigger Predecessors(g, n)} :: n in g.nodes ==> Predecessors(g, n) != {}
  {
    forall n | n in g.nodes
      ensures Predecessors(g, n) != {}
    {
      assert n !in RootTags(g);
    }
  }

  /** A nonempty acyclic graph has a root, so a fresh browser over it always
      offers some tag. */
  lemma AcyclicHasRoot(g: Graph)
    requires Valid(g) && Acyclic(g) && g.nodes != {}
    ensures RootTags(g) != {}
  {
    if RootTags(g) == {} {
      NoRootMeansPredecessors(g);
      BackwardPath(g, |g.nodes|);
      var p :| NodePath(g, p) && |p| == |g.nodes| + 1;
      LongPathHasCycle(g, p);
      assert false;
    }
  }
}
