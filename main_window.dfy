/**
 The two places where the main window drives the node manager: the seed
 graph its constructor creates, and `loadGraph`, which replays an already
 parsed document through the manager's public operations (drop the seed
 ids, add every file node, then add every file link).
 */
module Window {
  import opened GraphTypes
  import opened StoreSpec
  import opened NodeManager

  /** The ids `loadGraph` clears before replaying a document. */
  const SeedIds: set<string> := {"1", "2", "3"}

  const SeedStore := Store(
    map["1" := Node("1", "Root Node", ""), "2" := Node("2", "Child 1", "1"), "3" := Node("3", "Child 2", "1")],
    [Link("1", "2"), Link("1", "3")])

  const SeedEvents := [
    NodeAdded(Node("1", "Root Node", "")), NodeAdded(Node("2", "Child 1", "1")),
    NodeAdded(Node("3", "Child 2", "1")),
    ConnectionAdded(Link("1", "2")), ConnectionAdded(Link("1", "3"))]

  // ---------------------------------------------------------------------
  // The replay, as functions of the store

  /** The three fixed `removeNode` calls. */
  function ClearSeed(s: Store): (r: Step)
    ensures r.post.nodes.Keys == s.nodes.Keys - SeedIds
    ensures |r.post.links| <= |s.links|
  {
    var a := RemoveNode(s, "1");
    var b := RemoveNode(a.post, "2");
    var c := RemoveNode(b.post, "3");
    Step(c.post, a.emitted + b.emitted + c.emitted)
  }

  /** `addNode` for each file node, in array order. */
  function AddNodes(s: Store, ns: seq<Node>): (r: Step)
    ensures r.post.links == s.links && |r.emitted| <= |ns|
  {
    if ns == [] then Step(s, [])
    else
      var a := AddNodes(s, ns[..|ns| - 1]);
      var n := ns[|ns| - 1];
      var b := AddNode(a.post, n.id, n.text, n.parent);
      Step(b.post, a.emitted + b.emitted)
  }

  /** `addConnection` for each file link, in array order. */
  function AddConnections(s: Store, ls: seq<Link>): (r: Step)
    ensures r.post.nodes == s.nodes && |r.post.links| <= |s.links| + |ls| && |r.emitted| <= |ls|
  {
    if ls == [] then Step(s, [])
    else
      var a := AddConnections(s, ls[..|ls| - 1]);
      var l := ls[|ls| - 1];
      var b := AddConnection(a.post, l.source, l.target);
      Step(b.post, a.emitted + b.emitted)
  }

  /** `loadGraph`: clear, then every node, then every link. */
  function Load(s: Store, g: Graph): (r: Step)
    ensures |r.post.links| <= |s.links| + |g.links|
  {
    var c := ClearSeed(s);
    var n := AddNodes(c.post, g.nodes);
    var l := AddConnections(n.post, g.links);
    Step(l.post, c.emitted + n.emitted + l.emitted)
  }

  function IdsOf(ns: seq<Node>): (r: set<string>)
  {
    set n | n in ns :: n.id
  }

  /** A document as `getFullGraph` writes one: distinct ids, live and distinct links. */
  predicate GoodDocument(g: Graph)
  {
    && (forall i, j :: 0 <= i < j < |g.nodes| ==> g.nodes[i].id != g.nodes[j].id)
    && (forall i :: 0 <= i < |g.links| ==> g.links[i].source in IdsOf(g.nodes) && g.links[i].target in IdsOf(g.nodes))
    && Distinct(g.links)
  }

  // ---------------------------------------------------------------------
  // What the replay guarantees

  /**
   Clearing drops exactly the ids 1, 2 and 3 and the links touching them;
   every other node keeps its record and the surviving links keep their order.
   */
  lemma ClearSeedEffect(s: Store)
    requires WellFormed(s)
    ensures WellFormed(ClearSeed(s).post)
    ensures ClearSeed(s).post.nodes == s.nodes - SeedIds
    ensures ClearSeed(s).post.links == Keep(Keep(Keep(s.links, "1"), "2"), "3")
  {
    var a := RemoveNode(s, "1").post;
    RemoveNodeFilters(s, "1");
    RemoveNodePreserves(s, "1");
    var b := RemoveNode(a, "2").post;
    RemoveNodeFilters(a, "2");
    RemoveNodePreserves(a, "2");
    var c := RemoveNode(b, "3").post;
    RemoveNodeFilters(b, "3");
    RemoveNodePreserves(b, "3");
    assert ClearSeed(s).post == c;
    assert c.nodes == s.nodes - {"1"} - {"2"} - {"3"};
  }

  /** The links that survive the clearing are exactly those with no seed endpoint. */
  lemma ClearSeedLinks(s: Store)
    requires WellFormed(s)
    ensures forall l :: l in ClearSeed(s).post.links <==>
      l in s.links && l.source !in SeedIds && l.target !in SeedIds
  {
    ClearSeedEffect(s);
    var ls1 := Keep(s.links, "1");
    var ls2 := Keep(ls1, "2");
    KeepMembers(s.links, "1");
    KeepMembers(ls1, "2");
    KeepMembers(ls2, "3");
  }

  /** The node phase leaves the links alone and adds exactly the file ids. */
  lemma {:induction false} AddNodesKeys(s: Store, ns: seq<Node>)
    ensures AddNodes(s, ns).post.links == s.links
    ensures forall k :: k in AddNodes(s, ns).post.nodes <==> k in s.nodes || k in IdsOf(ns)
  {
    if ns != [] {
      var init, n := ns[..|ns| - 1], ns[|ns| - 1];
      assert ns == init + [n];
      AddNodesKeys(s, init);
      assert IdsOf(ns) == IdsOf(init) + {n.id};
    }
  }

  /** A record already live survives the node phase unchanged. */
  lemma {:induction false} AddNodesKeepsLive(s: Store, ns: seq<Node>, k: string)
    requires k in s.nodes
    ensures k in AddNodes(s, ns).post.nodes && AddNodes(s, ns).post.nodes[k] == s.nodes[k]
  {
    if ns != [] {
      AddNodesKeepsLive(s, ns[..|ns| - 1], k);
    }
  }

  /** A file node whose id is neither live nor used earlier in the array is stored as is. */
  lemma {:induction false} AddNodesFirstWins(s: Store, ns: seq<Node>, i: nat)
    requires i < |ns| && ns[i].id !in s.nodes
    requires forall j :: 0 <= j < i ==> ns[j].id != ns[i].id
    ensures ns[i].id in AddNodes(s, ns).post.nodes && AddNodes(s, ns).post.nodes[ns[i].id] == ns[i]
  {
    var init, n := ns[..|ns| - 1], ns[|ns| - 1];
    if i < |init| {
      AddNodesFirstWins(s, init, i);
      AddNodesKeepsLive(AddNodes(s, init).post, [n], ns[i].id);
      assert [n][..0] == [];
    } else {
      AddNodesKeys(s, init);
      forall m | m in init ensures m.id != n.id {
        var j :| 0 <= j < |init| && init[j] == m;
        assert ns[j] == m;
      }
    }
  }

  lemma {:induction false} AddNodesPreserves(s: Store, ns: seq<Node>)
    requires WellFormed(s)
    ensures WellFormed(AddNodes(s, ns).post)
  {
    if ns != [] {
      var init, n := ns[..|ns| - 1], ns[|ns| - 1];
      AddNodesPreserves(s, init);
      AddNodePreserves(AddNodes(s, init).post, n.id, n.text, n.parent);
    }
  }

  /**
   The link phase leaves the nodes alone, keeps the old links as a prefix,
   and ends with exactly the old links plus the file links whose endpoints
   are live, each once.
   */
  lemma {:induction false} AddConnectionsEffect(s: Store, ls: seq<Link>)
    requires WellFormed(s)
    ensures var r := AddConnections(s, ls).post;
      && WellFormed(r)
      && r.nodes == s.nodes
      && |s.links| <= |r.links| && r.links[..|s.links|] == s.links
      && (forall l :: l in r.links <==> l in s.links || (l in ls && l.source in s.nodes && l.target in s.nodes))
  {
    if ls != [] {
      var init, l := ls[..|ls| - 1], ls[|ls| - 1];
      assert ls == init + [l];
      AddConnectionsEffect(s, init);
      var a := AddConnections(s, init).post;
      AddConnectionPreserves(a, l.source, l.target);
      var r := AddConnections(s, ls).post;
      if r.links != a.links {
        assert r.links == a.links + [l];
        assert r.links[..|s.links|] == a.links[..|s.links|];
      }
    }
  }

  /** Live, new, pairwise distinct links are all appended, in order. */
  lemma {:induction false} AddConnectionsAllNew(s: Store, ls: seq<Link>)
    requires WellFormed(s) && LinksLive(s.nodes, ls) && Distinct(s.links + ls)
    ensures AddConnections(s, ls).post == Store(s.nodes, s.links + ls)
  {
    if ls != [] {
      var init, l := ls[..|ls| - 1], ls[|ls| - 1];
      assert s.links + ls == (s.links + init) + [l];
      DistinctSnoc(s.links + init, l);
      AddConnectionsAllNew(s, init);
    }
  }

  /**
   After `loadGraph` the live ids are the survivors of the clearing plus the
   file ids; a surviving node keeps its old record even when the file names
   its id; a file link is present exactly when both of its ends are live
   after the node phase.
   */
  lemma LoadEffect(s: Store, g: Graph)
    requires WellFormed(s)
    ensures var r := Load(s, g).post;
      && WellFormed(r)
      && (forall k :: k in r.nodes <==> (k in s.nodes && k !in SeedIds) || k in IdsOf(g.nodes))
      && (forall k :: k in s.nodes && k !in SeedIds ==> r.nodes[k] == s.nodes[k])
      && (forall l :: l in r.links <==>
            (l in s.links && l.source !in SeedIds && l.target !in SeedIds) ||
            (l in g.links && l.source in r.nodes && l.target in r.nodes))
  {
    var c := ClearSeed(s).post;
    ClearSeedEffect(s);
    ClearSeedLinks(s);
    AddNodesKeys(c, g.nodes);
    AddNodesPreserves(c, g.nodes);
    forall k | k in c.nodes ensures AddNodes(c, g.nodes).post.nodes[k] == c.nodes[k] {
      AddNodesKeepsLive(c, g.nodes, k);
    }
    var n := AddNodes(c, g.nodes).post;
    AddConnectionsEffect(n, g.links);
  }

  /**
   Loading a good document into a store whose live ids are all seed ids
   yields exactly the document's nodes and links, links in document order.
   */
  lemma LoadRoundTrip(s: Store, g: Graph)
    requires WellFormed(s) && s.nodes.Keys <= SeedIds && GoodDocument(g)
    ensures var r := Load(s, g).post;
      && r.nodes.Keys == IdsOf(g.nodes)
      && (forall n :: n in g.nodes ==> r.nodes[n.id] == n)
      && r.links == g.links
  {
    ClearSeedOnlySeed(s);
    AddNodesDistinct(g.nodes);
    var n := AddNodes(Empty, g.nodes).post;
    AddConnectionsAllNew(n, g.links);
  }

  /** When only seed ids are live, the clearing empties the store. */
  lemma ClearSeedOnlySeed(s: Store)
    requires WellFormed(s) && s.nodes.Keys <= SeedIds
    ensures ClearSeed(s).post == Empty
  {
    ClearSeedEffect(s);
    ClearedLinks(s.links);
  }

  /** Links whose sources are all seed ids do not survive the clearing. */
  lemma {:induction false} ClearedLinks(ls: seq<Link>)
    requires forall i :: 0 <= i < |ls| ==> ls[i].source in SeedIds
    ensures Keep(Keep(Keep(ls, "1"), "2"), "3") == []
  {
    if ls != [] {
      var x, r := ls[0], ls[1..];
      ClearedLinks(r);
      var t1 := Keep(r, "1");
      if !Touches(x, "1") {
        assert ([x] + t1)[0] == x && ([x] + t1)[1..] == t1;
        var t2 := Keep(t1, "2");
        if !Touches(x, "2") {
          assert x.source == "3";
          assert ([x] + t2)[0] == x && ([x] + t2)[1..] == t2;
        }
      }
    }
  }

  /** Nodes with pairwise distinct ids, added to an empty store, are all stored as they are. */
  lemma AddNodesDistinct(ns: seq<Node>)
    requires forall i, j :: 0 <= i < j < |ns| ==> ns[i].id != ns[j].id
    ensures var r := AddNodes(Empty, ns).post;
      && WellFormed(r)
      && r.nodes.Keys == IdsOf(ns)
      && (forall n :: n in ns ==> r.nodes[n.id] == n)
      && r.links == []
  {
    AddNodesKeys(Empty, ns);
    AddNodesPreserves(Empty, ns);
    forall m | m in ns ensures AddNodes(Empty, ns).post.nodes[m.id] == m {
      var i :| 0 <= i < |ns| && ns[i] == m;
      AddNodesFirstWins(Empty, ns, i);
    }
  }

  /** Saving a well-formed store and loading the file over the seed graph gives it back. */
  lemma SaveLoadRoundTrip(s: Store, t: Store)
    requires WellFormed(s) && s.nodes.Keys <= SeedIds && WellFormed(t)
    ensures Load(s, Snapshot(t)).post == t
  {
    var g := Snapshot(t);
    SnapshotIsGoodDocument(t);
    LoadRoundTrip(s, g);
    SnapshotContents(t);
    SameStore(Load(s, g).post, t, g);
  }

  /** Two stores that hold exactly the records and the links of one document are equal. */
  lemma SameStore(r: Store, t: Store, g: Graph)
    requires r.nodes.Keys == IdsOf(g.nodes) && r.links == g.links
    requires forall n :: n in g.nodes ==> r.nodes[n.id] == n
    requires t.nodes.Keys == IdsOf(g.nodes) && t.links == g.links
    requires forall n :: n in g.nodes <==> n.id in t.nodes && t.nodes[n.id] == n
    ensures r == t
  {
    forall k | k in t.nodes ensures r.nodes[k] == t.nodes[k] {
      assert t.nodes[k] in g.nodes;
    }
    assert r.nodes == t.nodes;
  }

  /** What `getFullGraph` returns for a well-formed store is a good document over the same ids. */
  lemma SnapshotIsGoodDocument(t: Store)
    requires WellFormed(t)
    ensures GoodDocument(Snapshot(t))
    ensures IdsOf(Snapshot(t).nodes) == t.nodes.Keys
  {
    var g := Snapshot(t);
    SnapshotContents(t);
    forall i, j | 0 <= i < j < |g.nodes| ensures g.nodes[i].id != g.nodes[j].id {
      KeyOrder.Irreflexive(g.nodes[i].id);
    }
    forall k | k in t.nodes ensures k in IdsOf(g.nodes) {
      assert t.nodes[k] in g.nodes;
    }
  }

  const SeedNodes := [Node("1", "Root Node", ""), Node("2", "Child 1", "1"), Node("3", "Child 2", "1")]
  const SeedLinks := [Link("1", "2"), Link("1", "3")]

  /** The constructor's calls, replayed from an empty store, give the seed graph. */
  lemma SeedReplay()
    ensures var n := AddNodes(Empty, SeedNodes);
      var l := AddConnections(n.post, SeedLinks);
      && l.post == SeedStore
      && n.emitted + l.emitted == SeedEvents
  {
    SeedNodesReplay();
    SeedLinksReplay();
  }

  lemma SeedNodesReplay()
    ensures AddNodes(Empty, SeedNodes) == Step(Store(SeedStore.nodes, []), SeedEvents[..3])
  {
    var n1, n2, n3 := SeedNodes[0], SeedNodes[1], SeedNodes[2];
    assert [n1][..0] == [] && [n1, n2][..1] == [n1] && SeedNodes[..2] == [n1, n2];
    assert AddNodes(Empty, [n1]) == Step(Store(map["1" := n1], []), [NodeAdded(n1)]);
    assert AddNodes(Empty, [n1, n2]) ==
      Step(Store(map["1" := n1, "2" := n2], []), [NodeAdded(n1), NodeAdded(n2)]);
  }

  lemma SeedLinksReplay()
    ensures AddConnections(Store(SeedStore.nodes, []), SeedLinks) == Step(SeedStore, SeedEvents[3..])
  {
    var l1, l2 := SeedLinks[0], SeedLinks[1];
    assert [l1][..0] == [] && SeedLinks[..1] == [l1];
    assert AddConnections(Store(SeedStore.nodes, []), [l1]) ==
      Step(Store(SeedStore.nodes, [l1]), [ConnectionAdded(l1)]);
  }

  /** Removing the root of the seed graph cascades over both of its links first. */
  lemma RemoveRootOfSeed()
    ensures RemoveNode(SeedStore, "1").post ==
      Store(map["2" := Node("2", "Child 1", "1"), "3" := Node("3", "Child 2", "1")], [])
    ensures RemoveNode(SeedStore, "1").emitted ==
      [ConnectionRemoved("1", "2"), ConnectionRemoved("1", "3"), NodeRemoved("1")]
  {
    var l1, l2 := Link("1", "2"), Link("1", "3");
    assert [l1][..0] == [] && [l1, l2][..1] == [l1];
    assert Incident([l1], "1") == [l1];
    assert Incident([l1, l2], "1") == [l1, l2];
    assert RemovedEvents([l1]) == [ConnectionRemoved("1", "2")];
    assert RemovedEvents([l1, l2]) == [ConnectionRemoved("1", "2"), ConnectionRemoved("1", "3")];
    assert [l1, l2][1..] == [l2] && [l2][1..] == [];
    assert Keep([l1, l2], "1") == [];
    assert SeedStore.nodes - {"1"} == map["2" := Node("2", "Child 1", "1"), "3" := Node("3", "Child 2", "1")];
  }

  // ---------------------------------------------------------------------
  // The window

  lemma SeqAssoc(a: seq<Event>, b: seq<Event>, c: seq<Event>, d: seq<Event>)
    ensures a + b + c + d == a + (b + c + d)
  {
  }

  class MainWindow {
    const nodeManager: WebNodeManager

    /** Creates the manager and adds the seed graph through its operations. */
    constructor ()
      ensures fresh(nodeManager) && nodeManager.Valid()
      ensures nodeManager.State() == SeedStore && nodeManager.events == SeedEvents
    {
      nodeManager := new WebNodeManager();
      new;
      nodeManager.AddNode("1", "Root Node");
      nodeManager.AddNode("2", "Child 1", "1");
      nodeManager.AddNode("3", "Child 2", "1");
      nodeManager.AddConnection("1", "2");
      nodeManager.AddConnection("1", "3");
    }

    /** Replays a parsed document: clear the seed ids, add every node, then every link. */
    method LoadGraph(graph: Graph)
      requires nodeManager.Valid()
      modifies nodeManager
      ensures nodeManager.Valid()
      ensures nodeManager.State() == Load(old(nodeManager.State()), graph).post
      ensures nodeManager.events == old(nodeManager.events) + Load(old(nodeManager.State()), graph).emitted
    {
      ghost var s0, e0 := nodeManager.State(), nodeManager.events;
      ClearSeedNodes();
      ghost var c := ClearSeed(s0);
      AddFileNodes(graph.nodes);
      ghost var n := AddNodes(c.post, graph.nodes);
      AddFileLinks(graph.links);
      ghost var l := AddConnections(n.post, graph.links);
      assert nodeManager.events == e0 + c.emitted + n.emitted + l.emitted;
      assert Load(s0, graph) == Step(l.post, c.emitted + n.emitted + l.emitted);
      SeqAssoc(e0, c.emitted, n.emitted, l.emitted);
    }

    /** The three fixed `removeNode` calls that open `loadGraph`. */
    method ClearSeedNodes()
      requires nodeManager.Valid()
      modifies nodeManager
      ensures nodeManager.Valid()
      ensures nodeManager.State() == ClearSeed(old(nodeManager.State())).post
      ensures nodeManager.events == old(nodeManager.events) + ClearSeed(old(nodeManager.State())).emitted
    {
      ghost var s0, e0 := nodeManager.State(), nodeManager.events;
      nodeManager.RemoveNode("1");
      ghost var a := RemoveNode(s0, "1");
      assert nodeManager.State() == a.post && nodeManager.events == e0 + a.emitted;
      nodeManager.RemoveNode("2");
      ghost var b := RemoveNode(a.post, "2");
      assert nodeManager.State() == b.post && nodeManager.events == e0 + a.emitted + b.emitted;
      nodeManager.RemoveNode("3");
      ghost var c := RemoveNode(b.post, "3");
      assert nodeManager.State() == c.post && nodeManager.events == e0 + a.emitted + b.emitted + c.emitted;
      assert ClearSeed(s0).post == c.post;
      assert ClearSeed(s0).emitted == a.emitted + b.emitted + c.emitted;
      SeqAssoc(e0, a.emitted, b.emitted, c.emitted);
    }

    /** The node loop of `loadGraph`. */
    method AddFileNodes(nodes: seq<Node>)
      requires nodeManager.Valid()
      modifies nodeManager
      ensures nodeManager.Valid()
      ensures nodeManager.State() == AddNodes(old(nodeManager.State()), nodes).post
      ensures nodeManager.events == old(nodeManager.events) + AddNodes(old(nodeManager.State()), nodes).emitted
    {
      for i := 0 to |nodes|
        invariant nodeManager.Valid()
        invariant nodeManager.State() == AddNodes(old(nodeManager.State()), nodes[..i]).post
        invariant nodeManager.events == old(nodeManager.events) + AddNodes(old(nodeManager.State()), nodes[..i]).emitted
      {
        var node := nodes[i];
        assert nodes[..i + 1][..i] == nodes[..i];
        nodeManager.AddNode(node.id, node.text, node.parent);
      }
      assert nodes[..|nodes|] == nodes;
    }

    /** The link loop of `loadGraph`. */
    method AddFileLinks(links: seq<Link>)
      requires nodeManager.Valid()
      modifies nodeManager
      ensures nodeManager.Valid()
      ensures nodeManager.State() == AddConnections(old(nodeManager.State()), links).post
      ensures nodeManager.events == old(nodeManager.events) + AddConnections(old(nodeManager.State()), links).emitted
    {
      for i := 0 to |links|
        invariant nodeManager.Valid()
        invariant nodeManager.State() == AddConnections(old(nodeManager.State()), links[..i]).post
        invariant nodeManager.events == old(nodeManager.events) + AddConnections(old(nodeManager.State()), links[..i]).emitted
      {
        var link := links[i];
        assert links[..i + 1][..i] == links[..i];
        nodeManager.AddConnection(link.source, link.target);
      }
      assert links[..|links|] == links;
    }
  }
}
