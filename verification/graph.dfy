/** Directed graphs over string identifiers: successor and predecessor sets,
    degrees, paths, and a breadth-first reachability search proved to compute
    exactly the nodes that a path reaches.
 */
module Graphs {

  type Node = string
  type Edge = (Node, Node)

  /** A simple directed graph, as the tag store holds it: a node set and an
      edge set. Self-loops are representable; parallel edges are not. */
  datatype Graph = Graph(nodes: set<Node>, edges: set<Edge>)

  const EmptyGraph := Graph({}, {})

  /** Every edge joins two nodes of the graph. */
  ghost predicate Valid(g: Graph) {
    forall e :: e in g.edges ==> e.0 in g.nodes && e.1 in g.nodes
  }

  function Successors(g: Graph, u: Node): (r: set<Node>)
    ensures forall v :: v in r <==> (u, v) in g.edges
  {
    set e | e in g.edges && e.0 == u :: e.1
  }

  function Predecessors(g: Graph, v: Node): (r: set<Node>)
    ensures forall u :: u in r <==> (u, v) in g.edges
  {
    set e | e in g.edges && e.1 == v :: e.0
  }

  function OutDegree(g: Graph, u: Node): nat {
    |Successors(g, u)|
  }

  function InDegree(g: Graph, v: Node): nat {
    |Predecessors(g, v)|
  }

  /** The nodes one edge away from some node of `s`. */
  function Image(g: Graph, s: set<Node>): (r: set<Node>)
    ensures forall v :: v in r <==> exists u :: u in s && (u, v) in g.edges
  {
    set e | e in g.edges && e.0 in s :: e.1
  }

  /** The nodes that some edge points at. */
  function Targets(g: Graph): set<Node> {
    set e | e in g.edges :: e.1
  }

  /** `p` walks along edges of `g`; a single node is a path of no edges. */
  ghost predicate IsPath(g: Graph, p: seq<Node>) {
    |p| >= 1 && forall i :: 0 <= i < |p| - 1 ==> (p[i], p[i + 1]) in g.edges
  }

  /** `b` can be reached from `a`; every node reaches itself. */
  ghost predicate Reaches(g: Graph, a: Node, b: Node) {
    exists p :: IsPath(g, p) && p[0] == a && p[|p| - 1] == b
  }

  /** `b` can be reached from `a` along at least one edge. */
  ghost predicate ReachesProperly(g: Graph, a: Node, b: Node) {
    exists p :: IsPath(g, p) && |p| >= 2 && p[0] == a && p[|p| - 1] == b
  }

  lemma ReachesRefl(g: Graph, a: Node)
    ensures Reaches(g, a, a)
  {
    assert IsPath(g, [a]);
  }

  lemma ReachesStep(g: Graph, a: Node, b: Node, c: Node)
    requires Reaches(g, a, b) && (b, c) in g.edges
    ensures Reaches(g, a, c)
  {
    var p :| IsPath(g, p) && p[0] == a && p[|p| - 1] == b;
    var q := p + [c];
    assert IsPath(g, q);
  }

  lemma ReachesTrans(g: Graph, a: Node, b: Node, c: Node)
    requires Reaches(g, a, b) && Reaches(g, b, c)
    ensures Reaches(g, a, c)
  {
    var p :| IsPath(g, p) && p[0] == a && p[|p| - 1] == b;
    var q :| IsPath(g, q) && q[0] == b && q[|q| - 1] == c;
    var r := p + q[1..];
    assert IsPath(g, r) by {
      forall i | 0 <= i < |r| - 1
        ensures (r[i], r[i + 1]) in g.edges
      {
        if i < |p| - 1 {
          assert r[i] == p[i] && r[i + 1] == p[i + 1];
        } else {
          var j := i - (|p| - 1);
          assert r[i] == q[j] && r[i + 1] == q[j + 1];
        }
      }
    }
    assert r[|r| - 1] == c;
  }

  /** A path that leaves a node leaves it through an edge, so in a valid graph
      both ends of a path between distinct nodes are nodes. */
  lemma {:induction false} ReachesDistinctEndsAreNodes(g: Graph, a: Node, b: Node)
    requires Valid(g) && Reaches(g, a, b) && a != b
    ensures a in g.nodes && b in g.nodes
  {
    var p :| IsPath(g, p) && p[0] == a && p[|p| - 1] == b;
    assert |p| >= 2;
    assert (p[0], p[1]) in g.edges;
    assert (p[|p| - 2], p[|p| - 1]) in g.edges;
  }

  /** A set closed under successors holds every node reachable from its members. */
  lemma {:induction false} ClosedHoldsPath(g: Graph, s: set<Node>, p: seq<Node>)
    requires Image(g, s) <= s
    requires IsPath(g, p) && p[0] in s
    ensures p[|p| - 1] in s
    decreases |p|
  {
    if |p| > 1 {
      var q := p[..|p| - 1];
      assert IsPath(g, q);
      ClosedHoldsPath(g, s, q);
      assert (q[|q| - 1], p[|p| - 1]) in g.edges;
    }
  }

  /** Level-by-level search: `visited` holds the nodes found so far,
      `frontier` the ones found in the last round, whose successors are the
      only ones not yet known to be in `visited`. */
  function Bfs(g: Graph, visited: set<Node>, frontier: set<Node>): (r: set<Node>)
    requires frontier <= visited
    requires Image(g, visited - frontier) <= visited
    ensures visited <= r
    ensures Image(g, r) <= r
    ensures r <= visited + Targets(g)
    decreases Targets(g) - visited
  {
    var next := Image(g, frontier) - visited;
    if next == {} then
      visited
    else
      assert next <= Targets(g);
      Bfs(g, visited + next, next)
  }

  lemma {:induction false} BfsSound(g: Graph, a: Node, visited: set<Node>, frontier: set<Node>)
    requires frontier <= visited
    requires Image(g, visited - frontier) <= visited
    requires forall v :: v in visited ==> Reaches(g, a, v)
    ensures forall v :: v in Bfs(g, visited, frontier) ==> Reaches(g, a, v)
    decreases Targets(g) - visited
  {
    var next := Image(g, frontier) - visited;
    if next != {} {
      assert next <= Targets(g);
      forall w | w in next
        ensures Reaches(g, a, w)
      {
        var u :| u in frontier && (u, w) in g.edges;
        ReachesStep(g, a, u, w);
      }
      BfsSound(g, a, visited + next, next);
    }
  }

  /** The nodes reachable from `a`, `a` itself included. */
  function Reachable(g: Graph, a: Node): (r: set<Node>)
    ensures forall b :: b in r <==> Reaches(g, a, b)
  {
    var r := Bfs(g, {a}, {a});
    ReachesRefl(g, a);
    BfsSound(g, a, {a}, {a});
    assert forall b :: Reaches(g, a, b) ==> b in r by {
      forall b | Reaches(g, a, b)
        ensures b in r
      {
        var p :| IsPath(g, p) && p[0] == a && p[|p| - 1] == b;
        ClosedHoldsPath(g, r, p);
      }
    }
    r
  }

  /** Reaching another node starts with a step to some successor. */
  lemma ReachesOtherHasSuccessor(g: Graph, a: Node, b: Node)
    requires Reaches(g, a, b) && b != a
    ensures Successors(g, a) != {}
  {
    var p :| IsPath(g, p) && p[0] == a && p[|p| - 1] == b;
    assert p[1] in Successors(g, a);
  }

  /** When every successor of `a` is a sink, whatever `a` reaches besides
      itself is one of those successors. */
  lemma {:induction false} ReachesThroughSinks(g: Graph, a: Node, b: Node)
    requires forall c :: c in Successors(g, a) ==> Successors(g, c) == {}
    requires Reaches(g, a, b) && b != a
    ensures b in Successors(g, a)
  {
    var p :| IsPath(g, p) && p[0] == a && p[|p| - 1] == b;
    var c := p[1];
    assert c in Successors(g, a);
    assert IsPath(g, p[1..]);
    SinkReachesOnlyItself(g, c, b);
  }

  /** A node without successors reaches only itself. */
  lemma SinkReachesOnlyItself(g: Graph, a: Node, b: Node)
    requires Successors(g, a) == {}
    requires Reaches(g, a, b)
    ensures b == a
  {
    if b != a {
      ReachesOtherHasSuccessor(g, a, b);
    }
  }

  /** A leaf reached from another node is reached along at least one edge, and
      conversely: the two readings of "tagged leaf" agree. */
  lemma LeafReachedIffProperly(g: Graph, t: Node, n: Node)
    requires OutDegree(g, n) == 0
    ensures (n != t && Reaches(g, t, n)) <==> ReachesProperly(g, t, n)
  {
    if n != t && Reaches(g, t, n) {
      var p :| IsPath(g, p) && p[0] == t && p[|p| - 1] == n;
      assert |p| >= 2;
    }
    if ReachesProperly(g, t, n) {
      var p :| IsPath(g, p) && |p| >= 2 && p[0] == t && p[|p| - 1] == n;
      assert IsPath(g, p);
      assert p[1] in Successors(g, p[0]);
      assert n != t;
    }
  }
}
