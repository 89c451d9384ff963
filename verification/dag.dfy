/** The guarded edge insertion of the tag store and the sequences of
    insertions that ingestion issues.

    An insertion is refused when both endpoints are already nodes and the
    target already reaches the source (a node reaches itself); otherwise the
    edge goes in and missing endpoints are created. A refused insertion leaves
    the graph as it was. A run of insertions stops at the first refusal and
    keeps what the earlier insertions added.
 */
module Dag {
  import opened Results
  import opened Graphs

  /** The graph after an update, and the error if the update stopped early.
      A failed update still reports the graph as it stands: earlier
      insertions are not rolled back. */
  datatype Update = Done(graph: Graph) | Failed(graph: Graph, error: Error)

  /** No edge closes a cycle: the target of an edge never reaches its source.
      A self-loop `(a, a)` counts as a cycle. */
  ghost predicate Acyclic(g: Graph) {
    forall e :: e in g.edges ==> !Reaches(g, e.1, e.0)
  }

  function EdgeSet(es: seq<Edge>): set<Edge> {
    set e | e in es
  }

  function Endpoints(es: seq<Edge>): set<Node> {
    (set e | e in es :: e.0) + (set e | e in es :: e.1)
  }

  /** Insert the edge `u -> v`, refusing it when `u` and `v` are both nodes
      already and `v` reaches `u`. */
  function AddEdge(g: Graph, u: Node, v: Node): (r: Update)
    ensures r.Failed? <==> u in g.nodes && v in g.nodes && Reaches(g, v, u)
    ensures r.Failed? ==> r == Failed(g, Cycle)
    ensures r.Done? ==> r.graph.nodes == g.nodes + {u, v} && r.graph.edges == g.edges + {(u, v)}
    ensures Valid(g) ==> Valid(r.graph)
    ensures Valid(g) && (u, v) in g.edges ==> r.graph == g
  {
    assert (v, u) in g.edges ==> Reaches(g, v, u) by {
      if (v, u) in g.edges {
        ReachesRefl(g, v);
        ReachesStep(g, v, v, u);
      }
    }
    if u in g.nodes && v in g.nodes && ((v, u) in g.edges || u in Reachable(g, v)) then
      Failed(g, Cycle)
    else
      Done(Graph(g.nodes + {u, v}, g.edges + {(u, v)}))
  }

  /** The first edge of a run, and the rest. */
  lemma SplitFirst(es: seq<Edge>)
    requires |es| > 0
    ensures Endpoints(es) == {es[0].0, es[0].1} + Endpoints(es[1..])
    ensures EdgeSet(es) == {es[0]} + EdgeSet(es[1..])
  {
    assert es == [es[0]] + es[1..];
  }

  /** The endpoints and edges of one run followed by another. */
  lemma RunsAppend(a: seq<Edge>, b: seq<Edge>)
    ensures Endpoints(a + b) == Endpoints(a) + Endpoints(b)
    ensures EdgeSet(a + b) == EdgeSet(a) + EdgeSet(b)
  {
  }

  /** `h` is `g` with every endpoint and edge of the run `es` added. */
  ghost predicate Grown(g: Graph, h: Graph, es: seq<Edge>) {
    h == Graph(g.nodes + Endpoints(es), g.edges + EdgeSet(es))
  }

  /** `h` holds everything `g` holds and nothing beyond what `es` adds. */
  ghost predicate Between(g: Graph, h: Graph, es: seq<Edge>) {
    g.nodes <= h.nodes <= g.nodes + Endpoints(es) && g.edges <= h.edges <= g.edges + EdgeSet(es)
  }

  /** Growing by `a` and then by `b` is growing by `a + b`; stopping inside
      `b` stays between the start and the start grown by `a + b`. */
  lemma GrownThen(g: Graph, h: Graph, k: Graph, a: seq<Edge>, b: seq<Edge>)
    requires Grown(g, h, a)
    ensures Grown(h, k, b) ==> Grown(g, k, a + b)
    ensures Between(h, k, b) ==> Between(g, k, a + b)
  {
    RunsAppend(a, b);
  }

  /** Stopping inside `a` stays between the start and the start grown by
      any longer run `a + b`. */
  lemma BetweenWiden(g: Graph, k: Graph, a: seq<Edge>, b: seq<Edge>)
    requires Between(g, k, a)
    ensures Between(g, k, a + b)
  {
    RunsAppend(a, b);
  }

  /** A single accepted insertion grows the graph by a run of one edge. */
  lemma GrownByEdge(g: Graph, h: Graph, e: Edge)
    requires h.nodes == g.nodes + {e.0, e.1} && h.edges == g.edges + {e}
    ensures Grown(g, h, [e])
  {
    assert Endpoints([e]) == {e.0, e.1};
    assert EdgeSet([e]) == {e};
  }

  /** Insert the edges of `es` in order, stopping at the first refusal. */
  function AddEdges(g: Graph, es: seq<Edge>): (r: Update)
    ensures r.Done? ==> r.graph == Graph(g.nodes + Endpoints(es), g.edges + EdgeSet(es))
    ensures r.Failed? ==> r.error == Cycle
    ensures r.Failed? ==> g.nodes <= r.graph.nodes <= g.nodes + Endpoints(es)
    ensures r.Failed? ==> g.edges <= r.graph.edges <= g.edges + EdgeSet(es)
    ensures Valid(g) ==> Valid(r.graph)
    decreases |es|
  {
    if |es| == 0 then
      Done(g)
    else
      SplitFirst(es);
      match AddEdge(g, es[0].0, es[0].1)
      case Failed(g', e) => Failed(g', e)
      case Done(g') => AddEdges(g', es[1..])
  }

  /** Continue an update with more insertions, unless it already failed. */
  function AndThen(u: Update, es: seq<Edge>): Update {
    match u
    case Failed(_, _) => u
    case Done(g) => AddEdges(g, es)
  }

  /** Inserting `a + b` is inserting `a`, then `b` if `a` went through. */
  lemma {:induction false} AddEdgesAppend(g: Graph, a: seq<Edge>, b: seq<Edge>)
    ensures AddEdges(g, a + b) == AndThen(AddEdges(g, a), b)
    decreases |a|
  {
    if |a| == 0 {
      assert a + b == b;
    } else {
      assert (a + b)[0] == a[0];
      assert (a + b)[1..] == a[1..] + b;
      match AddEdge(g, a[0].0, a[0].1)
      case Failed(_, _) =>
      case Done(g') => AddEdgesAppend(g', a[1..], b);
    }
  }

  /** Insertion `k` of `es` is the one refused: the first `k` insertions went
      through and left `h`, and insertion `k` is refused against `h`. */
  ghost predicate RefusedAt(g: Graph, es: seq<Edge>, k: int, h: Graph) {
    && 0 <= k < |es|
    && AddEdges(g, es[..k]) == Done(h)
    && AddEdge(h, es[k].0, es[k].1).Failed?
  }

  /** Inserting `a`, then the single edge `e`, then `c`, one step at a time. */
  lemma AddEdgesThenEdge(g: Graph, a: seq<Edge>, e: Edge, c: seq<Edge>)
    ensures AddEdges(g, a + ([e] + c)) ==
      match AddEdges(g, a)
      case Failed(h, err) => Failed(h, err)
      case Done(h) =>
        match AddEdge(h, e.0, e.1)
        case Failed(h', err) => Failed(h', err)
        case Done(h') => AddEdges(h', c)
  {
    AddEdgesAppend(g, a, [e] + c);
    if AddEdges(g, a).Done? {
      var h := AddEdges(g, a).graph;
      assert ([e] + c)[0] == e && ([e] + c)[1..] == c;
    }
  }

  /** A run that fails was refused at one insertion, and the graph it reports
      is the graph that insertion was refused against. */
  lemma {:induction false} AddEdgesStopsAtFirstRefusal(g: Graph, es: seq<Edge>)
    requires AddEdges(g, es).Failed?
    ensures exists k :: RefusedAt(g, es, k, AddEdges(g, es).graph)
    decreases |es|
  {
    var h := AddEdges(g, es).graph;
    var first := AddEdge(g, es[0].0, es[0].1);
    if first.Failed? {
      assert es[..0] == [];
      assert RefusedAt(g, es, 0, h);
    } else {
      var g' := first.graph;
      assert AddEdges(g, es) == AddEdges(g', es[1..]);
      AddEdgesStopsAtFirstRefusal(g', es[1..]);
      var k :| RefusedAt(g', es[1..], k, h);
      assert es[..k + 1][0] == es[0];
      assert es[..k + 1][1..] == es[1..][..k];
      assert AddEdges(g, es[..k + 1]) == AddEdges(g', es[1..][..k]);
      assert RefusedAt(g, es, k + 1, h);
    }
  }

  /** Inserting edges that are all present already changes nothing, provided
      the graph is acyclic (a present self-loop would be refused). */
  lemma {:induction false} AddEdgesOfPresentEdges(g: Graph, es: seq<Edge>)
    requires Valid(g) && Acyclic(g)
    requires EdgeSet(es) <= g.edges
    ensures AddEdges(g, es) == Done(g)
    decreases |es|
  {
    if |es| > 0 {
      assert es[0] in EdgeSet(es);
      assert EdgeSet(es[1..]) <= EdgeSet(es);
      AddEdgesOfPresentEdges(g, es[1..]);
    }
  }

  /** No insertion of the run is a self-loop. */
  predicate NoSelfLoops(es: seq<Edge>) {
    forall i :: 0 <= i < |es| ==> es[i].0 != es[i].1
  }

  /** Two runs without self-loops make one. */
  lemma NoSelfLoopsAppend(a: seq<Edge>, b: seq<Edge>)
    requires NoSelfLoops(a) && NoSelfLoops(b)
    ensures NoSelfLoops(a + b)
  {
    forall i | 0 <= i < |a + b|
      ensures (a + b)[i].0 != (a + b)[i].1
    {
      if i >= |a| {
        assert (a + b)[i] == b[i - |a|];
      }
    }
  }

  /** A line that does not tag its own source issues no self-loop. */
  /** A run whose targets never start an edge, in the graph or in the run,
      is never refused: no target can reach anything but itself. */
  lemma {:induction false} AddEdgesIntoSinks(g: Graph, es: seq<Edge>, all: set<Edge>)
    requires g.edges <= all && EdgeSet(es) <= all
    requires NoSelfLoops(es)
    requires forall i, e :: 0 <= i < |es| && e in all ==> e.0 != es[i].1
    ensures AddEdges(g, es).Done?
    decreases |es|
  {
    if |es| > 0 {
      var (u, v) := es[0];
      assert es[0] in EdgeSet(es);
      assert Successors(g, v) == {};
      if Reaches(g, v, u) {
        SinkReachesOnlyItself(g, v, u);
      }
      var h := AddEdge(g, u, v).graph;
      assert EdgeSet(es[1..]) <= EdgeSet(es);
      AddEdgesIntoSinks(h, es[1..], all);
    }
  }

  /** Every path in `g` plus the edge `u -> v` either stays in `g` or passes
      through the new edge once it is first used. */
  lemma {:induction false} ReachesAfterInsert(g: Graph, h: Graph, u: Node, v: Node, p: seq<Node>)
    requires h.edges == g.edges + {(u, v)}
    requires IsPath(h, p)
    ensures Reaches(g, p[0], p[|p| - 1]) || (Reaches(g, p[0], u) && Reaches(g, v, p[|p| - 1]))
    decreases |p|
  {
    if |p| == 1 {
      ReachesRefl(g, p[0]);
    } else {
      var q := p[..|p| - 1];
      assert IsPath(h, q);
      ReachesAfterInsert(g, h, u, v, q);
      var x, y := q[|q| - 1], p[|p| - 1];
      assert (x, y) in h.edges;
      if (x, y) in g.edges {
        if Reaches(g, p[0], x) {
          ReachesStep(g, p[0], x, y);
        } else {
          ReachesStep(g, v, x, y);
        }
      } else {
        ReachesRefl(g, v);
      }
    }
  }

  /** An accepted insertion between distinct nodes keeps an acyclic graph
      acyclic. */
  lemma AddEdgeKeepsAcyclic(g: Graph, u: Node, v: Node)
    requires Valid(g) && Acyclic(g) && u != v
    ensures Acyclic(AddEdge(g, u, v).graph)
  {
    var r := AddEdge(g, u, v);
    if r.Done? {
      var h := r.graph;
      assert !Reaches(g, v, u) by {
        if Reaches(g, v, u) {
          ReachesDistinctEndsAreNodes(g, v, u);
        }
      }
      forall e | e in h.edges
        ensures !Reaches(h, e.1, e.0)
      {
        if Reaches(h, e.1, e.0) {
          var p :| IsPath(h, p) && p[0] == e.1 && p[|p| - 1] == e.0;
          ReachesAfterInsert(g, h, u, v, p);
          if e in g.edges && !Reaches(g, e.1, e.0) {
            ReachesStep(g, v, e.0, e.1);
            ReachesTrans(g, v, e.1, u);
          }
        }
      }
    }
  }

  /** A run of insertions none of which is a self-loop keeps an acyclic graph
      acyclic, whether it completes or stops early. */
  lemma {:induction false} AddEdgesKeepsAcyclic(g: Graph, es: seq<Edge>)
    requires Valid(g) && Acyclic(g)
    requires NoSelfLoops(es)
    ensures Acyclic(AddEdges(g, es).graph)
    decreases |es|
  {
    if |es| > 0 {
      AddEdgeKeepsAcyclic(g, es[0].0, es[0].1);
      match AddEdge(g, es[0].0, es[0].1)
      case Failed(_, _) =>
      case Done(g') => AddEdgesKeepsAcyclic(g', es[1..]);
    }
  }

  /** The gap in the guard: a self-loop on a node that does not exist yet is
      accepted, and the graph is no longer acyclic. */
  lemma SelfLoopOnFreshNodeAdmitted(g: Graph, u: Node)
    requires u !in g.nodes
    ensures AddEdge(g, u, u).Done?
    ensures (u, u) in AddEdge(g, u, u).graph.edges
    ensures !Acyclic(AddEdge(g, u, u).graph)
  {
    ReachesRefl(AddEdge(g, u, u).graph, u);
  }

  /** A self-loop on an existing node is refused: the node reaches itself. */
  lemma SelfLoopOnExistingNodeRefused(g: Graph, u: Node)
    requires u in g.nodes
    ensures AddEdge(g, u, u) == Failed(g, Cycle)
  {
    ReachesRefl(g, u);
  }
}
