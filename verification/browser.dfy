/** The file browser: a set of applied tags over a loaded tag store.

    Applying a tag is an unchecked set insertion. With no tags applied the
    browser offers the root tags; otherwise it offers what every applied tag
    points at directly. Submitting a query with no tags applied is an error;
    otherwise the answer is the leaf query over the applied tags.
 */
module Browser {
  import opened Results
  import opened Graphs
  import opened Dag
  import opened FileSystem

  datatype FileBrowser = FileBrowser(fs: Graph, tags: set<Node>)

  /** A browser over `fs` with nothing applied. */
  function NewBrowser(fs: Graph): (r: FileBrowser)
    ensures r.fs == fs && r.tags == {}
  {
    FileBrowser(fs, {})
  }

  /** `add_tag`: insert the tag, whether or not the store knows it. */
  function AddTag(b: FileBrowser, tag: Node): (r: FileBrowser)
    ensures r.fs == b.fs
    ensures tag in r.tags && b.tags <= r.tags
    ensures forall t :: t in r.tags && t != tag ==> t in b.tags
  {
    b.(tags := b.tags + {tag})
  }

  /** Applying a tag twice is applying it once, and applying tags commutes. */
  lemma AddTagIdempotentAndCommutative(b: FileBrowser, s: Node, t: Node)
    ensures AddTag(AddTag(b, t), t) == AddTag(b, t)
    ensures AddTag(AddTag(b, s), t) == AddTag(AddTag(b, t), s)
  {
  }

  /** `list(self.tags)`: the applied tags in some order, each once. */
  method TagList(tags: set<Node>) returns (xs: seq<Node>)
    ensures forall t :: t in xs <==> t in tags
    ensures |xs| == |tags|
  {
    xs := [];
    var rest := tags;
    while rest != {}
      invariant rest <= tags
      invariant forall t :: t in xs <==> t in tags && t !in rest
      invariant |xs| + |rest| == |tags|
      decreases |rest|
    {
      var t :| t in rest;
      xs := xs + [t];
      rest := rest - {t};
    }
  }

  /** `get_potential_tags`. */
  method PotentialTags(b: FileBrowser) returns (r: Result<set<Node>>)
    ensures b.tags == {} ==> r == Ok(RootTags(b.fs))
    ensures b.tags != {} ==> (r.Err? <==> exists t :: t in b.tags && t !in b.fs.nodes)
    ensures b.tags != {} && r.Err? ==> r.error == NodeNotFound
    ensures b.tags != {} && r.Ok? ==>
      forall n :: n in r.value <==> forall t :: t in b.tags ==> (t, n) in b.fs.edges
  {
    if |b.tags| == 0 {
      r := Ok(RootTags(b.fs));
    } else {
      var xs := TagList(b.tags);
      r := ItemsImmediatelyTaggedBy(b.fs, xs);
    }
  }

  /** `submit_query`. */
  method SubmitQuery(b: FileBrowser) returns (r: Result<set<Node>>)
    ensures r == Err(EmptyQuery) <==> b.tags == {}
    ensures b.tags != {} ==> (r.Err? <==> exists t :: t in b.tags && t !in b.fs.nodes)
    ensures b.tags != {} && r.Err? ==> r.error == NodeNotFound
    ensures r.Ok? ==> forall n :: n in r.value <==> exists t :: t in b.tags && LeafUnder(b.fs, t, n)
  {
    if |b.tags| == 0 {
      r := Err(EmptyQuery);
    } else {
      var xs := TagList(b.tags);
      r := LeafNodesTaggedBy(b.fs, xs);
    }
  }

  /** Applying one more known tag can only add to the query's answer: the
      answer is a union over the applied tags, so tags widen rather than
      narrow it. */
  lemma AddTagWidensQuery(b: FileBrowser, t: Node, xs: seq<Node>, ys: seq<Node>)
    requires forall u :: u in xs <==> u in b.tags
    requires forall u :: u in ys <==> u in AddTag(b, t).tags
    requires LeafNodesTaggedBy(b.fs, ys).Ok?
    ensures LeafNodesTaggedBy(b.fs, xs).Ok?
    ensures LeafNodesTaggedBy(b.fs, xs).value <= LeafNodesTaggedBy(b.fs, ys).value
  {
    LeafNodesMonotone(b.fs, xs, ys);
  }

  /** A fresh browser over a nonempty acyclic store offers at least one tag. */
  lemma FreshBrowserOffersRoots(fs: Graph)
    requires Valid(fs) && Acyclic(fs) && fs.nodes != {}
    ensures NewBrowser(fs).tags == {}
    ensures RootTags(NewBrowser(fs).fs) != {}
  {
    AcyclicHasRoot(fs);
  }
}
