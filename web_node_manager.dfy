/**
 The node manager itself: a node map and a link list that its methods
 update in place, and a ghost log of the signals it emits. Each method is
 proved to do exactly what the matching function of StoreSpec describes,
 and to keep the store well formed.
 */
module NodeManager {
  import opened GraphTypes
  import opened StoreSpec
  import KeyOrder

  class WebNodeManager {
    var nodes: map<string, Node>
    var links: seq<Link>
    /** Every signal emitted so far, oldest first. */
    ghost var events: seq<Event>

    function State(): (r: Store)
      reads this
    {
      Store(nodes, links)
    }

    ghost predicate Valid()
      reads this
    {
      WellFormed(State())
    }

    constructor ()
      ensures Valid() && State() == Empty && events == []
    {
      nodes := map[];
      links := [];
      events := [];
    }

    method AddNode(id: string, text: string, parentId: string := "")
      requires Valid()
      modifies this
      ensures Valid()
      ensures State() == StoreSpec.AddNode(old(State()), id, text, parentId).post
      ensures events == old(events) + StoreSpec.AddNode(old(State()), id, text, parentId).emitted
    {
      if id in nodes {
        return;
      }
      var node := Node(id, text, parentId);
      nodes := nodes[id := node];
      events := events + [NodeAdded(node)];
    }

    /**
     Deletes the node first, then collects its incident links in one pass
     and removes them one by one, signalling each, and finally signals the
     node's removal.
     */
    method RemoveNode(id: string)
      requires Valid()
      modifies this
      ensures Valid()
      ensures State() == StoreSpec.RemoveNode(old(State()), id).post
      ensures events == old(events) + StoreSpec.RemoveNode(old(State()), id).emitted
    {
      if id !in nodes {
        return;
      }
      ghost var before := State();
      nodes := nodes - {id};

      var linksToRemove := IncidentLinks(id);
      IncidentDistinct(links, id);
      RemoveEach(linksToRemove);
      DropIncident(before.links, id);
      assert links == Keep(before.links, id);
      events := events + [NodeRemoved(id)];
      RemoveNodePreserves(before, id);
    }

    /** The first loop of `removeNode`: the links touching `id`, in list order. */
    method IncidentLinks(id: string) returns (linksToRemove: seq<Link>)
      ensures linksToRemove == Incident(links, id)
    {
      linksToRemove := [];
      var i := 0;
      while i < |links|
        invariant 0 <= i <= |links|
        invariant linksToRemove == Incident(links[..i], id)
      {
        assert links[..i + 1][..i] == links[..i];
        if Touches(links[i], id) {
          linksToRemove := linksToRemove + [links[i]];
        }
        i := i + 1;
      }
      assert links[..i] == links;
    }

    /** The second loop of `removeNode`: `removeOne` for each collected link, signalling each. */
    method RemoveEach(linksToRemove: seq<Link>)
      requires Distinct(links) && Distinct(linksToRemove)
      modifies this`links, this`events
      ensures links == Drop(old(links), linksToRemove)
      ensures events == old(events) + RemovedEvents(linksToRemove)
    {
      DropNothing(links);
      var j := 0;
      while j < |linksToRemove|
        invariant 0 <= j <= |linksToRemove|
        invariant links == Drop(old(links), linksToRemove[..j])
        invariant events == old(events) + RemovedEvents(linksToRemove[..j])
      {
        var link := linksToRemove[j];
        NotInPrefix(linksToRemove, j);
        DropStep(old(links), linksToRemove[..j], link);
        assert linksToRemove[..j + 1] == linksToRemove[..j] + [link];
        links := RemoveFirst(links, link);
        events := events + [ConnectionRemoved(link.source, link.target)];
        j := j + 1;
      }
      assert linksToRemove[..j] == linksToRemove;
    }

    method UpdateNodeText(id: string, newText: string)
      requires Valid()
      modifies this
      ensures Valid()
      ensures State() == StoreSpec.UpdateNodeText(old(State()), id, newText).post
      ensures events == old(events) + StoreSpec.UpdateNodeText(old(State()), id, newText).emitted
    {
      if id in nodes {
        nodes := nodes[id := nodes[id].(text := newText)];
        events := events + [NodeUpdated(nodes[id])];
      }
    }

    /** Rejects unknown endpoints, then scans for the pair before appending it. */
    method AddConnection(sourceId: string, targetId: string)
      requires Valid()
      modifies this
      ensures Valid()
      ensures State() == StoreSpec.AddConnection(old(State()), sourceId, targetId).post
      ensures events == old(events) + StoreSpec.AddConnection(old(State()), sourceId, targetId).emitted
    {
      if sourceId !in nodes || targetId !in nodes {
        return;
      }
      var i := 0;
      while i < |links|
        invariant 0 <= i <= |links|
        invariant Link(sourceId, targetId) !in links[..i]
      {
        if links[i].source == sourceId && links[i].target == targetId {
          return;
        }
        assert links[..i + 1] == links[..i] + [links[i]];
        i := i + 1;
      }
      assert links[..i] == links;
      AddConnectionPreserves(State(), sourceId, targetId);
      var link := Link(sourceId, targetId);
      links := links + [link];
      events := events + [ConnectionAdded(link)];
    }

    /** Searches the list by index and removes the first matching pair. */
    method RemoveConnection(sourceId: string, targetId: string)
      requires Valid()
      modifies this
      ensures Valid()
      ensures State() == StoreSpec.RemoveConnection(old(State()), sourceId, targetId).post
      ensures events == old(events) + StoreSpec.RemoveConnection(old(State()), sourceId, targetId).emitted
    {
      RemoveConnectionPreserves(State(), sourceId, targetId);
      var i := 0;
      while i < |links|
        invariant 0 <= i <= |links|
        invariant Link(sourceId, targetId) !in links[..i]
      {
        if links[i].source == sourceId && links[i].target == targetId {
          RemoveFirstAt(links, Link(sourceId, targetId), i);
          links := links[..i] + links[i + 1..];
          events := events + [ConnectionRemoved(sourceId, targetId)];
          return;
        }
        assert links[..i + 1] == links[..i] + [links[i]];
        i := i + 1;
      }
      assert links[..i] == links;
    }

    /** Copies the nodes out in ascending key order, then the links in list order. */
    method GetFullGraph() returns (graph: Graph)
      ensures graph == Snapshot(State())
    {
      var nodesArray: seq<Node> := [];
      var remaining := nodes.Keys;
      while remaining != {}
        invariant remaining <= nodes.Keys
        invariant nodesArray + InKeyOrder(nodes, remaining) == InKeyOrder(nodes, nodes.Keys)
        decreases |remaining|
      {
        var key := KeyOrder.FindLeast(remaining);
        InKeyOrderUnfold(nodes, remaining, key);
        nodesArray := nodesArray + [nodes[key]];
        remaining := remaining - {key};
      }
      var linksArray: seq<Link> := [];
      var i := 0;
      while i < |links|
        invariant 0 <= i <= |links|
        invariant linksArray == links[..i]
      {
        linksArray := linksArray + [links[i]];
        i := i + 1;
      }
      graph := Graph(nodesArray, linksArray);
    }

    /** The handshake: re-sends the full snapshot, on every call. */
    method AppReady()
      modifies this`events
      ensures events == old(events) + StoreSpec.AppReady(State()).emitted
    {
      var graph := GetFullGraph();
      events := events + [GraphUpdated(graph)];
    }
  }
}
