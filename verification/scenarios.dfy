/** Worked examples. The running prefixes of a three-segment path; a store
    declared by two lines (two files in one directory, three tags), first for
    any plain names and then for `docs/report.pdf documents work` and
    `docs/photo.png documents personal`; and the self-tagging line `a a`. */
module Scenarios {
  import opened Results
  import opened Graphs
  import opened Dag
  import opened Text
  import opened FileSystem

  /** A name that is one token and one path segment, and that cannot start a
      comment or be trimmed. */
  predicate Word(x: string) {
    && |x| > 0
    && PathSep !in x && TokenSep !in x
    && x[0] != '#' && !IsSpace(x[0]) && !IsSpace(x[|x| - 1])
  }

  /** The item `name` inside the container `dir`. */
  function Under(dir: string, name: string): string {
    dir + [PathSep] + name
  }

  /** A declaration line: a source and two tags. */
  function Decl(source: string, t: string, u: string): string {
    source + [TokenSep] + t + [TokenSep] + u
  }

  lemma Join2(a: string, b: string, sep: char)
    ensures Join([a, b], sep) == a + [sep] + b
  {
    assert [a, b][1..] == [b];
  }

  lemma Join3(a: string, b: string, c: string, sep: char)
    ensures Join([a, b, c], sep) == a + [sep] + b + [sep] + c
  {
    assert [a, b, c][1..] == [b, c];
    Join2(b, c, sep);
  }

  /** A nested item lies below a container: it holds a `/`, so it is no
      plain name. */
  lemma UnderIsNoWord(dir: string, name: string)
    ensures PathSep in Under(dir, name)
    ensures !Word(Under(dir, name))
  {
    assert Under(dir, name)[|dir|] == PathSep;
  }

  // ---------------------------------------------------------------------
  // Running prefixes

  /** The running prefixes of `a/b/c`. */
  lemma PathChainOfThree(a: string, b: string, c: string)
    requires Word(a) && Word(b) && Word(c)
    ensures PathChain(Under(Under(a, b), c)) == [a, Under(a, b), Under(Under(a, b), c)]
  {
    var parts := [a, b, c];
    Join3(a, b, c, PathSep);
    assert Join(parts, PathSep) == Under(Under(a, b), c);
    SplitJoin(parts, PathSep);
    var r := Prefixes(parts);
    assert r[1] == Under(a, b);
    assert r[2] == Under(Under(a, b), c);
  }

  lemma PathWords()
    ensures Word("path") && Word("to") && Word("file")
  {
  }

  /** `path/to/file` runs through `path` and `path/to`. */
  lemma PathChainExample()
    ensures PathChain("path/to/file") == ["path", "path/to", "path/to/file"]
  {
    PathWords();
    PathChainOfThree("path", "to", "file");
    assert Under("path", "to") == "path/to";
    assert Under("path/to", "file") == "path/to/file";
  }

  // ---------------------------------------------------------------------
  // Declaration lines

  /** A line with no surrounding whitespace that joins `parts` with single
      spaces has exactly `parts` as its tokens. */
  lemma TokensOfJoin(line: string, parts: seq<string>)
    requires |line| > 0 && !IsSpace(line[0]) && !IsSpace(line[|line| - 1])
    requires |parts| >= 1 && forall i :: 0 <= i < |parts| ==> TokenSep !in parts[i]
    requires Join(parts, TokenSep) == line
    ensures Strip(line) == line
    ensures Tokens(line) == parts
  {
    assert StrippedAt(line, line, 0);
    StripUnique(line, line, 0);
    SplitJoin(parts, TokenSep);
  }

  /** A declaration of a source and two tags is read back as those three
      tokens, and is not skipped. */
  lemma TokensOfDecl(s: string, t: string, u: string)
    requires |s| > 0 && TokenSep !in s && s[0] != '#' && !IsSpace(s[0])
    requires Word(t) && Word(u)
    ensures !IsSkipped(Decl(s, t, u))
    ensures Tokens(Decl(s, t, u)) == [s, t, u]
  {
    var line := Decl(s, t, u);
    Join3(s, t, u, TokenSep);
    assert line[0] == s[0];
    assert line[|line| - 1] == u[|u| - 1];
    TokensOfJoin(line, [s, t, u]);
  }

  /** An item one level below a container is linked from that container
      only. */
  lemma PathLinksUnder(dir: string, name: string)
    requires Word(dir) && Word(name)
    ensures PathLinks(Under(dir, name)) == [(dir, Under(dir, name))]
  {
    Join2(dir, name, PathSep);
    SplitJoin([dir, name], PathSep);
  }

  /** Two plain tags are linked straight to the source, in order. */
  lemma TagLinksOfTwo(source: Node, t: Node, u: Node)
    requires Word(t) && Word(u)
    ensures TagLinks(source, [t, u]) == [(t, source), (u, source)]
  {
    assert PathLinks(t) == [] && PathLinks(u) == [];
    assert [t, u][1..] == [u];
    assert TagLinks(source, [u]) == [(u, source)];
  }

  /** The insertions of `dir/name t u`: the container link, then one link
      per tag. */
  lemma LineLinksOfDecl(dir: string, name: string, t: string, u: string)
    requires Word(dir) && Word(name) && Word(t) && Word(u)
    ensures LineLinks(Decl(Under(dir, name), t, u)) ==
      [(dir, Under(dir, name)), (t, Under(dir, name)), (u, Under(dir, name))]
  {
    var p := Under(dir, name);
    TokensOfDeclUnder(dir, name, t, u);
    assert [p, t, u][1..] == [t, u];
    PathLinksUnder(dir, name);
    TagLinksOfTwo(p, t, u);
    OneAndTwo((dir, p), (t, p), (u, p));
  }

  lemma OneAndTwo(a: Edge, b: Edge, c: Edge)
    ensures [a] + [b, c] == [a, b, c]
  {
  }

  lemma TokensOfDeclUnder(dir: string, name: string, t: string, u: string)
    requires Word(dir) && Word(name) && Word(t) && Word(u)
    ensures !IsSkipped(Decl(Under(dir, name), t, u))
    ensures Tokens(Decl(Under(dir, name), t, u)) == [Under(dir, name), t, u]
  {
    var p := Under(dir, name);
    assert p[0] == dir[0];
    TokensOfDecl(p, t, u);
  }

  lemma FileLinksOfTwo(l1: string, l2: string)
    ensures FileLinks([l1, l2]) == LineLinks(l1) + LineLinks(l2)
  {
    assert [l1, l2][1..] == [l2];
    assert [l2][1..] == [];
    assert FileLinks([l2]) == LineLinks(l2) + FileLinks([]);
    assert LineLinks(l2) + [] == LineLinks(l2);
  }

  // ---------------------------------------------------------------------
  // The two-line store, for any plain names

  /** Two files `dir/f1` and `dir/f2`; the first tagged `t1 t2`, the second
      `t1 t3`. */
  function StoreLines(dir: string, f1: string, f2: string, t1: string, t2: string, t3: string): seq<string> {
    [Decl(Under(dir, f1), t1, t2), Decl(Under(dir, f2), t1, t3)]
  }

  function StoreLinks(dir: string, f1: string, f2: string, t1: string, t2: string, t3: string): seq<Edge> {
    var p1 := Under(dir, f1);
    var p2 := Under(dir, f2);
    [(dir, p1), (t1, p1), (t2, p1), (dir, p2), (t1, p2), (t3, p2)]
  }

  function StoreGraph(dir: string, f1: string, f2: string, t1: string, t2: string, t3: string): Graph {
    var p1 := Under(dir, f1);
    var p2 := Under(dir, f2);
    Graph({dir, t1, t2, t3, p1, p2}, {(dir, p1), (t1, p1), (t2, p1), (dir, p2), (t1, p2), (t3, p2)})
  }

  predicate Names(dir: string, f1: string, f2: string, t1: string, t2: string, t3: string) {
    Word(dir) && Word(f1) && Word(f2) && Word(t1) && Word(t2) && Word(t3)
  }

  lemma ThreeAndThree(a: Edge, b: Edge, c: Edge, d: Edge, e: Edge, f: Edge)
    ensures [a, b, c] + [d, e, f] == [a, b, c, d, e, f]
  {
  }

  /** The two lines issue the six links, in order. */
  lemma StoreFileLinks(dir: string, f1: string, f2: string, t1: string, t2: string, t3: string)
    requires Names(dir, f1, f2, t1, t2, t3)
    ensures FileLinks(StoreLines(dir, f1, f2, t1, t2, t3)) == StoreLinks(dir, f1, f2, t1, t2, t3)
  {
    var p1 := Under(dir, f1);
    var p2 := Under(dir, f2);
    FileLinksOfTwo(Decl(p1, t1, t2), Decl(p2, t1, t3));
    LineLinksOfDecl(dir, f1, t1, t2);
    LineLinksOfDecl(dir, f2, t1, t3);
    ThreeAndThree((dir, p1), (t1, p1), (t2, p1), (dir, p2), (t1, p2), (t3, p2));
  }

  /** The six links, as sets of nodes and edges. */
  lemma StoreLinkSets(dir: string, f1: string, f2: string, t1: string, t2: string, t3: string)
    ensures Endpoints(StoreLinks(dir, f1, f2, t1, t2, t3)) == StoreGraph(dir, f1, f2, t1, t2, t3).nodes
    ensures EdgeSet(StoreLinks(dir, f1, f2, t1, t2, t3)) == StoreGraph(dir, f1, f2, t1, t2, t3).edges
  {
  }

  /** Every link goes from a plain name to a file, so none is refused. */
  lemma StoreLinksAccepted(dir: string, f1: string, f2: string, t1: string, t2: string, t3: string)
    requires Names(dir, f1, f2, t1, t2, t3)
    ensures AddEdges(EmptyGraph, StoreLinks(dir, f1, f2, t1, t2, t3)).Done?
  {
    var es := StoreLinks(dir, f1, f2, t1, t2, t3);
    var p1 := Under(dir, f1);
    var p2 := Under(dir, f2);
    UnderIsNoWord(dir, f1);
    UnderIsNoWord(dir, f2);
    assert forall i :: 0 <= i < |es| ==> Word(es[i].0) && (es[i].1 == p1 || es[i].1 == p2);
    assert forall e :: e in EdgeSet(es) ==> Word(e.0);
    AddEdgesIntoSinks(EmptyGraph, es, EdgeSet(es));
  }

  lemma StoreInserts(dir: string, f1: string, f2: string, t1: string, t2: string, t3: string)
    requires Names(dir, f1, f2, t1, t2, t3)
    ensures AddEdges(EmptyGraph, StoreLinks(dir, f1, f2, t1, t2, t3)) == Done(StoreGraph(dir, f1, f2, t1, t2, t3))
  {
    var es := StoreLinks(dir, f1, f2, t1, t2, t3);
    var g := StoreGraph(dir, f1, f2, t1, t2, t3);
    StoreLinksAccepted(dir, f1, f2, t1, t2, t3);
    StoreLinkSets(dir, f1, f2, t1, t2, t3);
    assert {} + g.nodes == g.nodes && {} + g.edges == g.edges;
  }

  /** Loading the two lines into an empty store succeeds and builds exactly
      the six links. */
  lemma StoreLoad(dir: string, f1: string, f2: string, t1: string, t2: string, t3: string)
    requires Names(dir, f1, f2, t1, t2, t3)
    ensures Load(EmptyGraph, StoreLines(dir, f1, f2, t1, t2, t3)) == Done(StoreGraph(dir, f1, f2, t1, t2, t3))
  {
    LoadIsAddEdges(EmptyGraph, StoreLines(dir, f1, f2, t1, t2, t3));
    StoreFileLinks(dir, f1, f2, t1, t2, t3);
    StoreInserts(dir, f1, f2, t1, t2, t3);
  }

  /** The two files are the sinks; `t1` holds both, `t2` only the first. */
  lemma StoreSuccessors(dir: string, f1: string, f2: string, t1: string, t2: string, t3: string)
    requires Names(dir, f1, f2, t1, t2, t3)
    requires t1 != t2 && t2 != t3 && dir != t2
    ensures Successors(StoreGraph(dir, f1, f2, t1, t2, t3), Under(dir, f1)) == {}
    ensures Successors(StoreGraph(dir, f1, f2, t1, t2, t3), Under(dir, f2)) == {}
    ensures Successors(StoreGraph(dir, f1, f2, t1, t2, t3), t1) == {Under(dir, f1), Under(dir, f2)}
    ensures Successors(StoreGraph(dir, f1, f2, t1, t2, t3), t2) == {Under(dir, f1)}
  {
    UnderIsNoWord(dir, f1);
    UnderIsNoWord(dir, f2);
  }

  /** The leaves below a tag whose children are all sinks are exactly its
      children. */
  lemma LeavesBelowFlatTag(g: Graph, t: Node)
    requires t in g.nodes
    requires forall c :: c in Successors(g, t) ==> Successors(g, c) == {}
    requires t !in Successors(g, t)
    ensures LeavesBelow(g, t) == Successors(g, t)
  {
    forall n | n in Successors(g, t)
      ensures LeafUnder(g, t, n)
    {
      ReachesRefl(g, t);
      ReachesStep(g, t, t, n);
    }
    forall n | LeafUnder(g, t, n)
      ensures n in Successors(g, t)
    {
      ReachesThroughSinks(g, t, n);
    }
  }

  /** A two-tag leaf query is the union of the two tags' leaves. */
  lemma LeafQueryOfTwo(g: Graph, a: Node, b: Node)
    requires a in g.nodes && b in g.nodes
    ensures LeafNodesTaggedBy(g, [a, b]) == Ok(LeavesBelow(g, a) + LeavesBelow(g, b))
  {
    var r := LeafNodesTaggedBy(g, [a, b]);
    assert r.Ok?;
    forall n ensures n in r.value <==> n in LeavesBelow(g, a) + LeavesBelow(g, b) {
      assert (exists t :: t in [a, b] && LeafUnder(g, t, n)) <==> LeafUnder(g, a, n) || LeafUnder(g, b, n);
    }
    assert r.value == LeavesBelow(g, a) + LeavesBelow(g, b);
  }

  /** A two-tag item query is the intersection of the two tags' children. */
  lemma ItemQueryOfTwo(g: Graph, a: Node, b: Node)
    requires a in g.nodes && b in g.nodes
    ensures ItemsImmediatelyTaggedBy(g, [a, b]) == Ok(Successors(g, a) * Successors(g, b))
  {
    var q := ItemsImmediatelyTaggedBy(g, [a, b]);
    assert q.Ok?;
    forall n ensures n in q.value <==> n in Successors(g, a) * Successors(g, b) {
      assert (forall t :: t in [a, b] ==> (t, n) in g.edges) <==> (a, n) in g.edges && (b, n) in g.edges;
    }
    assert q.value == Successors(g, a) * Successors(g, b);
  }

  /** Both files are leaves below `t1`; only the first is below `t2`. */
  lemma StoreLeaves(dir: string, f1: string, f2: string, t1: string, t2: string, t3: string)
    requires Names(dir, f1, f2, t1, t2, t3)
    requires t1 != t2 && t2 != t3 && dir != t2
    ensures LeavesBelow(StoreGraph(dir, f1, f2, t1, t2, t3), t1) == {Under(dir, f1), Under(dir, f2)}
    ensures LeavesBelow(StoreGraph(dir, f1, f2, t1, t2, t3), t2) == {Under(dir, f1)}
  {
    var g := StoreGraph(dir, f1, f2, t1, t2, t3);
    StoreSuccessors(dir, f1, f2, t1, t2, t3);
    UnderIsNoWord(dir, f1);
    UnderIsNoWord(dir, f2);
    LeavesBelowFlatTag(g, t1);
    LeavesBelowFlatTag(g, t2);
  }

  /** Querying `t1` with `t2` yields both files, although only the first
      carries both tags. */
  lemma StoreLeafQueryIsUnion(dir: string, f1: string, f2: string, t1: string, t2: string, t3: string)
    requires Names(dir, f1, f2, t1, t2, t3)
    requires t1 != t2 && t2 != t3 && dir != t2
    ensures LeafNodesTaggedBy(StoreGraph(dir, f1, f2, t1, t2, t3), [t1, t2]) == Ok({Under(dir, f1), Under(dir, f2)})
  {
    StoreLeaves(dir, f1, f2, t1, t2, t3);
    NestedLeafQuery(StoreGraph(dir, f1, f2, t1, t2, t3), t1, t2, Under(dir, f1), Under(dir, f2));
  }

  /** When the leaves below `b` are among those below `a`, querying both
      gives the leaves below `a`. */
  lemma NestedLeafQuery(g: Graph, a: Node, b: Node, x: Node, y: Node)
    requires a in g.nodes && b in g.nodes
    requires LeavesBelow(g, a) == {x, y} && LeavesBelow(g, b) == {x}
    ensures LeafNodesTaggedBy(g, [a, b]) == Ok({x, y})
  {
    LeafQueryOfTwo(g, a, b);
    assert {x, y} + {x} == {x, y};
  }

  /** Only the first file is directly tagged by both `t1` and `t2`. */
  lemma StoreItemQueryIsIntersection(dir: string, f1: string, f2: string, t1: string, t2: string, t3: string)
    requires Names(dir, f1, f2, t1, t2, t3)
    requires t1 != t2 && t2 != t3 && dir != t2
    ensures ItemsImmediatelyTaggedBy(StoreGraph(dir, f1, f2, t1, t2, t3), [t1, t2]) == Ok({Under(dir, f1)})
  {
    StoreSuccessors(dir, f1, f2, t1, t2, t3);
    ItemQueryOfTwo(StoreGraph(dir, f1, f2, t1, t2, t3), t1, t2);
    assert {Under(dir, f1), Under(dir, f2)} * {Under(dir, f1)} == {Under(dir, f1)};
  }

  /** Linking a file back to its directory would close a cycle. */
  lemma StoreBackEdgeRefused(dir: string, f1: string, f2: string, t1: string, t2: string, t3: string)
    ensures AddEdge(StoreGraph(dir, f1, f2, t1, t2, t3), Under(dir, f1), dir) ==
      Failed(StoreGraph(dir, f1, f2, t1, t2, t3), Cycle)
  {
    var g := StoreGraph(dir, f1, f2, t1, t2, t3);
    ReachesRefl(g, dir);
    ReachesStep(g, dir, dir, Under(dir, f1));
  }

  /** The directory and the tags are the roots; the files are not. */
  lemma StoreRoots(dir: string, f1: string, f2: string, t1: string, t2: string, t3: string)
    requires Names(dir, f1, f2, t1, t2, t3)
    ensures RootTags(StoreGraph(dir, f1, f2, t1, t2, t3)) == {dir, t1, t2, t3}
  {
    var g := StoreGraph(dir, f1, f2, t1, t2, t3);
    UnderIsNoWord(dir, f1);
    UnderIsNoWord(dir, f2);
    var r := RootTags(g);
    assert (dir, Under(dir, f1)) in g.edges && (dir, Under(dir, f2)) in g.edges;
    assert Under(dir, f1) !in r && Under(dir, f2) !in r;
  }

  // ---------------------------------------------------------------------
  // The docs example

  const Report := "docs/report.pdf"
  const Photo := "docs/photo.png"
  const Line1 := "docs/report.pdf documents work"
  const Line2 := "docs/photo.png documents personal"
  const ExampleGraph := StoreGraph("docs", "report.pdf", "photo.png", "documents", "work", "personal")

  lemma ExampleNames()
    ensures Names("docs", "report.pdf", "photo.png", "documents", "work", "personal")
    ensures "documents" != "work" && "work" != "personal" && "docs" != "work"
  {
    assert Word("docs") && Word("work");
    assert Word("report.pdf");
    assert Word("photo.png");
    assert Word("documents");
    assert Word("personal");
  }

  lemma ExampleFiles()
    ensures Under("docs", "report.pdf") == Report
    ensures Under("docs", "photo.png") == Photo
  {
  }

  lemma ExampleLine1()
    ensures Decl(Report, "documents", "work") == Line1
  {
  }

  lemma ExampleLine2()
    ensures Decl(Photo, "documents", "personal") == Line2
  {
  }

  lemma ExampleText()
    ensures StoreLines("docs", "report.pdf", "photo.png", "documents", "work", "personal") == [Line1, Line2]
  {
    ExampleFiles();
    ExampleLine1();
    ExampleLine2();
  }

  /** Loading `docs/report.pdf documents work` and
      `docs/photo.png documents personal` into an empty store succeeds and
      builds the six containment links. */
  lemma ExampleLoad()
    ensures Load(EmptyGraph, [Line1, Line2]) == Done(ExampleGraph)
    ensures ExampleGraph.edges == {("docs", Report), ("documents", Report), ("work", Report),
                                   ("docs", Photo), ("documents", Photo), ("personal", Photo)}
  {
    ExampleNames();
    ExampleFiles();
    ExampleText();
    StoreLoad("docs", "report.pdf", "photo.png", "documents", "work", "personal");
  }

  /** Querying `documents` with `work` yields both files. */
  lemma ExampleLeafQueryIsUnion()
    ensures LeafNodesTaggedBy(ExampleGraph, ["documents", "work"]) == Ok({Report, Photo})
  {
    ExampleNames();
    ExampleFiles();
    ExampleText();
    StoreLeafQueryIsUnion("docs", "report.pdf", "photo.png", "documents", "work", "personal");
  }

  /** Only the report is directly tagged by both `documents` and `work`. */
  lemma ExampleItemQueryIsIntersection()
    ensures ItemsImmediatelyTaggedBy(ExampleGraph, ["documents", "work"]) == Ok({Report})
  {
    ExampleNames();
    ExampleFiles();
    ExampleText();
    StoreItemQueryIsIntersection("docs", "report.pdf", "photo.png", "documents", "work", "personal");
  }

  /** Linking the report back to `docs` is refused. */
  lemma ExampleBackEdgeRefused()
    ensures AddEdge(ExampleGraph, Report, "docs") == Failed(ExampleGraph, Cycle)
  {
    ExampleFiles();
    ExampleText();
    StoreBackEdgeRefused("docs", "report.pdf", "photo.png", "documents", "work", "personal");
  }

  /** `docs` is a root tag along with the three tags. */
  lemma ExampleRoots()
    ensures RootTags(ExampleGraph) == {"docs", "documents", "work", "personal"}
  {
    ExampleNames();
    StoreRoots("docs", "report.pdf", "photo.png", "documents", "work", "personal");
  }

  // ---------------------------------------------------------------------
  // A self-tagging line

  /** The line `a a` tags the fresh item `a` with itself; the load accepts
      it and the store gains a self-loop. */
  lemma ExampleSelfTag()
    ensures ParseLine(EmptyGraph, "a a").Done?
    ensures ("a", "a") in ParseLine(EmptyGraph, "a a").graph.edges
    ensures !Acyclic(ParseLine(EmptyGraph, "a a").graph)
  {
    assert Join(["a", "a"], TokenSep) == "a a";
    TokensOfJoin("a a", ["a", "a"]);
    SelfTaggedLineAdmitsSelfLoop(EmptyGraph, "a a", "a");
  }
}
