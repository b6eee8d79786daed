/**
 What each operation of the node manager does to its two pieces of state
 (the node map and the link list) and which events it emits, as pure
 functions of the state before the call. The class in module NodeManager
 is proved to behave exactly like these functions; the lemmas here state
 what the functions guarantee.
 */
module StoreSpec {
  import opened GraphTypes
  import KeyOrder

  /** The state of the manager: `m_nodes` and `m_links`. */
  datatype Store = Store(nodes: map<string, Node>, links: seq<Link>)

  /** The state after one operation, and the events it emitted, in order. */
  datatype Step = Step(post: Store, emitted: seq<Event>)

  const Empty := Store(map[], [])

  // ---------------------------------------------------------------------
  // The invariant

  /** Every record is stored under its own id. */
  predicate KeysMatch(m: map<string, Node>)
  {
    forall k :: k in m ==> m[k].id == k
  }

  /** No link dangles: both endpoints are live nodes. */
  predicate LinksLive(m: map<string, Node>, ls: seq<Link>)
  {
    forall i :: 0 <= i < |ls| ==> ls[i].source in m && ls[i].target in m
  }

  /** No ordered pair appears twice in the list. */
  predicate Distinct(ls: seq<Link>)
  {
    forall i, j :: 0 <= i < j < |ls| ==> ls[i] != ls[j]
  }

  predicate WellFormed(s: Store)
  {
    KeysMatch(s.nodes) && LinksLive(s.nodes, s.links) && Distinct(s.links)
  }

  // ---------------------------------------------------------------------
  // Link-list helpers

  predicate Touches(l: Link, id: string)
  {
    l.source == id || l.target == id
  }

  /** The links incident to `id`, in list order (what `removeNode` collects). */
  function Incident(ls: seq<Link>, id: string): (r: seq<Link>)
    ensures |r| <= |ls|
  {
    if ls == [] then []
    else
      var rest := Incident(ls[..|ls| - 1], id);
      if Touches(ls[|ls| - 1], id) then rest + [ls[|ls| - 1]] else rest
  }

  /** The links not incident to `id`, in list order. */
  function Keep(ls: seq<Link>, id: string): (r: seq<Link>)
    ensures |r| <= |ls|
  {
    if ls == [] then []
    else if Touches(ls[0], id) then Keep(ls[1..], id)
    else [ls[0]] + Keep(ls[1..], id)
  }

  /** `QList::removeOne`: drops the first occurrence of `x`, if any. */
  function RemoveFirst(ls: seq<Link>, x: Link): (r: seq<Link>)
    ensures |r| == if x in ls then |ls| - 1 else |ls|
  {
    if ls == [] then []
    else if ls[0] == x then ls[1..]
    else [ls[0]] + RemoveFirst(ls[1..], x)
  }

  /** The links of `ls` that do not occur in `xs`, in list order. */
  function Drop(ls: seq<Link>, xs: seq<Link>): (r: seq<Link>)
    ensures |r| <= |ls|
  {
    if ls == [] then []
    else if ls[0] in xs then Drop(ls[1..], xs)
    else [ls[0]] + Drop(ls[1..], xs)
  }

  /** One `connectionRemoved` per link, in list order. */
  function RemovedEvents(ls: seq<Link>): (r: seq<Event>)
    ensures |r| == |ls|
  {
    if ls == [] then []
    else
      var l := ls[|ls| - 1];
      RemovedEvents(ls[..|ls| - 1]) + [ConnectionRemoved(l.source, l.target)]
  }

  // ---------------------------------------------------------------------
  // The operations

  /** Adds a record under a fresh id; a live id is refused. Every change is signalled. */
  function AddNode(s: Store, id: string, text: string, parentId: string := ""): (r: Step)
    ensures r.post.nodes.Keys == s.nodes.Keys + {id} && r.post.links == s.links
    ensures |r.emitted| <= 1 && (r.emitted == [] <==> r.post == s)
  {
    if id in s.nodes then Step(s, [])
    else
      var n := Node(id, text, parentId);
      Step(Store(s.nodes[id := n], s.links), [NodeAdded(n)])
  }

  /** Drops a live node with its incident links; an absent id is ignored. Every change is signalled. */
  function RemoveNode(s: Store, id: string): (r: Step)
    ensures r.post.nodes.Keys == s.nodes.Keys - {id} && |r.post.links| <= |s.links|
    ensures r.emitted == [] <==> r.post == s
  {
    if id !in s.nodes then Step(s, [])
    else
      Step(Store(s.nodes - {id}, Keep(s.links, id)),
           RemovedEvents(Incident(s.links, id)) + [NodeRemoved(id)])
  }

  /** Rewrites the text of a live node; the key set and the links never change. */
  function UpdateNodeText(s: Store, id: string, newText: string): (r: Step)
    ensures r.post.nodes.Keys == s.nodes.Keys && r.post.links == s.links
    ensures |r.emitted| <= 1 && (r.emitted == [] ==> r.post == s)
  {
    if id !in s.nodes then Step(s, [])
    else
      var n := s.nodes[id].(text := newText);
      Step(Store(s.nodes[id := n], s.links), [NodeUpdated(n)])
  }

  /** Appends a new pair of live ends; the nodes never change. Every change is signalled. */
  function AddConnection(s: Store, sourceId: string, targetId: string): (r: Step)
    ensures r.post.nodes == s.nodes && |s.links| <= |r.post.links| <= |s.links| + 1
    ensures |r.emitted| <= 1 && (r.emitted == [] <==> r.post == s)
  {
    var l := Link(sourceId, targetId);
    if sourceId !in s.nodes || targetId !in s.nodes then Step(s, [])
    else if l in s.links then Step(s, [])
    else Step(Store(s.nodes, s.links + [l]), [ConnectionAdded(l)])
  }

  /** Removes the first occurrence of a pair; the nodes never change. Every change is signalled. */
  function RemoveConnection(s: Store, sourceId: string, targetId: string): (r: Step)
    ensures r.post.nodes == s.nodes && |s.links| - 1 <= |r.post.links| <= |s.links|
    ensures |r.emitted| <= 1 && (r.emitted == [] <==> r.post == s)
  {
    var l := Link(sourceId, targetId);
    if l !in s.links then Step(s, [])
    else Step(Store(s.nodes, RemoveFirst(s.links, l)), [ConnectionRemoved(sourceId, targetId)])
  }

  /** The records stored under `keys`, smallest key first (map iteration order). */
  ghost function InKeyOrder(m: map<string, Node>, keys: set<string>): (r: seq<Node>)
    requires keys <= m.Keys
    ensures |r| == |keys|
    decreases |keys|
  {
    if keys == {} then []
    else
      KeyOrder.LeastExists(keys);
      var k :| KeyOrder.IsLeast(k, keys);
      [m[k]] + InKeyOrder(m, keys - {k})
  }

  /** `getFullGraph`: every node in key order, every link in list order. */
  ghost function Snapshot(s: Store): (r: Graph)
    ensures |r.nodes| == |s.nodes| && r.links == s.links
  {
    Graph(InKeyOrder(s.nodes, s.nodes.Keys), s.links)
  }

  /** `appReady`: one `graphUpdated`, and no change to the state. */
  ghost function AppReady(s: Store): (r: Step)
    ensures r.post == s && |r.emitted| == 1 && r.emitted[0].GraphUpdated?
    ensures r.emitted[0].graph.links == s.links && |r.emitted[0].graph.nodes| == |s.nodes|
  {
    Step(s, [GraphUpdated(Snapshot(s))])
  }

  // ---------------------------------------------------------------------
  // Facts about the link-list helpers

  lemma DistinctCons(x: Link, ls: seq<Link>)
    ensures Distinct([x] + ls) <==> x !in ls && Distinct(ls)
  {
    var t := [x] + ls;
    if x !in ls && Distinct(ls) {
      forall i, j | 0 <= i < j < |t| ensures t[i] != t[j] {
        if i > 0 { assert t[i] == ls[i - 1] && t[j] == ls[j - 1]; }
        else { assert t[j] == ls[j - 1]; }
      }
    }
    if Distinct(t) {
      forall i, j | 0 <= i < j < |ls| ensures ls[i] != ls[j] {
        assert t[i + 1] == ls[i] && t[j + 1] == ls[j];
      }
      forall j | 0 <= j < |ls| ensures ls[j] != x {
        assert t[0] == x && t[j + 1] == ls[j];
      }
    }
  }

  lemma DistinctSnoc(ls: seq<Link>, x: Link)
    ensures Distinct(ls + [x]) <==> x !in ls && Distinct(ls)
  {
    var t := ls + [x];
    if Distinct(t) {
      forall i, j | 0 <= i < j < |ls| ensures ls[i] != ls[j] {
        assert t[i] == ls[i] && t[j] == ls[j];
      }
      forall i | 0 <= i < |ls| ensures ls[i] != x {
        assert t[i] == ls[i] && t[|ls|] == x;
      }
    }
  }

  lemma NotInPrefix(ls: seq<Link>, j: nat)
    requires Distinct(ls) && j < |ls|
    ensures ls[j] !in ls[..j]
  {
    forall i | 0 <= i < j ensures ls[..j][i] != ls[j] {
      assert ls[..j][i] == ls[i];
    }
  }

  lemma {:induction false} IncidentMembers(ls: seq<Link>, id: string)
    ensures forall l :: l in Incident(ls, id) <==> l in ls && Touches(l, id)
  {
    if ls != [] {
      var init := ls[..|ls| - 1];
      IncidentMembers(init, id);
      assert ls == init + [ls[|ls| - 1]];
    }
  }

  lemma {:induction false} IncidentDistinct(ls: seq<Link>, id: string)
    requires Distinct(ls)
    ensures Distinct(Incident(ls, id))
  {
    if ls != [] {
      var init, x := ls[..|ls| - 1], ls[|ls| - 1];
      assert ls == init + [x];
      DistinctSnoc(init, x);
      IncidentDistinct(init, id);
      IncidentMembers(init, id);
      DistinctSnoc(Incident(init, id), x);
    }
  }

  lemma {:induction false} KeepMembers(ls: seq<Link>, id: string)
    ensures forall l :: l in Keep(ls, id) <==> l in ls && !Touches(l, id)
  {
    if ls != [] {
      KeepMembers(ls[1..], id);
      assert ls == [ls[0]] + ls[1..];
    }
  }

  lemma {:induction false} KeepDistinct(ls: seq<Link>, id: string)
    requires Distinct(ls)
    ensures Distinct(Keep(ls, id))
  {
    if ls != [] {
      assert ls == [ls[0]] + ls[1..];
      DistinctCons(ls[0], ls[1..]);
      KeepDistinct(ls[1..], id);
      KeepMembers(ls[1..], id);
      DistinctCons(ls[0], Keep(ls[1..], id));
    }
  }

  /** When no link touches `id`, filtering by it changes nothing. */
  lemma {:induction false} KeepUntouched(ls: seq<Link>, id: string)
    requires forall i :: 0 <= i < |ls| ==> !Touches(ls[i], id)
    ensures Keep(ls, id) == ls
  {
    if ls != [] {
      KeepUntouched(ls[1..], id);
    }
  }

  /**
   The filter keeps relative order: what survives from an earlier part of
   the list still comes before what survives from a later part.
   */
  lemma {:induction false} KeepConcat(a: seq<Link>, b: seq<Link>, id: string)
    ensures Keep(a + b, id) == Keep(a, id) + Keep(b, id)
  {
    if a == [] {
      assert a + b == b;
    } else {
      assert (a + b)[0] == a[0] && (a + b)[1..] == a[1..] + b;
      KeepConcat(a[1..], b, id);
    }
  }

  lemma {:induction false} RemovedEventsAt(ls: seq<Link>)
    ensures |RemovedEvents(ls)| == |ls|
    ensures forall i :: 0 <= i < |ls| ==>
      RemovedEvents(ls)[i] == ConnectionRemoved(ls[i].source, ls[i].target)
  {
    if ls != [] {
      RemovedEventsAt(ls[..|ls| - 1]);
    }
  }

  /** `removeAt(i)` at the first index holding `x` is `removeOne(x)`. */
  lemma {:induction false} RemoveFirstAt(ls: seq<Link>, x: Link, i: nat)
    requires i < |ls| && ls[i] == x && x !in ls[..i]
    ensures RemoveFirst(ls, x) == ls[..i] + ls[i + 1..]
  {
    if i > 0 {
      assert ls[0] in ls[..i];
      assert ls[1..][..i - 1] == ls[1..i];
      RemoveFirstAt(ls[1..], x, i - 1);
      assert ls[..i] == [ls[0]] + ls[1..i];
      assert ls[1..][i..] == ls[i + 1..];
    }
  }

  /** In a list without repeats, `removeOne(x)` takes out exactly `x`. */
  lemma {:induction false} RemoveFirstDistinct(ls: seq<Link>, x: Link)
    requires Distinct(ls)
    ensures forall l :: l in RemoveFirst(ls, x) <==> l in ls && l != x
    ensures Distinct(RemoveFirst(ls, x))
    ensures x in ls ==> |RemoveFirst(ls, x)| == |ls| - 1
  {
    if ls != [] {
      assert ls == [ls[0]] + ls[1..];
      DistinctCons(ls[0], ls[1..]);
      RemoveFirstDistinct(ls[1..], x);
      if ls[0] != x {
        DistinctCons(ls[0], RemoveFirst(ls[1..], x));
      }
    }
  }

  lemma {:induction false} DropNothing(ls: seq<Link>)
    ensures Drop(ls, []) == ls
  {
    if ls != [] {
      DropNothing(ls[1..]);
    }
  }

  lemma {:induction false} DropIgnoresAbsent(ls: seq<Link>, xs: seq<Link>, x: Link)
    requires x !in ls
    ensures Drop(ls, xs + [x]) == Drop(ls, xs)
  {
    if ls != [] {
      DropIgnoresAbsent(ls[1..], xs, x);
    }
  }

  /** One more `removeOne` extends the set of dropped links by one. */
  lemma {:induction false} DropStep(ls: seq<Link>, xs: seq<Link>, x: Link)
    requires Distinct(ls) && x !in xs
    ensures RemoveFirst(Drop(ls, xs), x) == Drop(ls, xs + [x])
  {
    if ls != [] {
      assert ls == [ls[0]] + ls[1..];
      DistinctCons(ls[0], ls[1..]);
      if ls[0] == x {
        DropIgnoresAbsent(ls[1..], xs, x);
      } else {
        DropStep(ls[1..], xs, x);
      }
    }
  }

  lemma {:induction false} DropIsKeep(ls: seq<Link>, xs: seq<Link>, id: string)
    requires forall l :: l in ls ==> (l in xs <==> Touches(l, id))
    ensures Drop(ls, xs) == Keep(ls, id)
  {
    if ls != [] {
      assert ls[0] in ls;
      assert forall l :: l in ls[1..] ==> l in ls;
      DropIsKeep(ls[1..], xs, id);
    }
  }

  /** Removing each collected incident link once leaves exactly the non-incident ones. */
  lemma DropIncident(ls: seq<Link>, id: string)
    requires Distinct(ls)
    ensures Drop(ls, Incident(ls, id)) == Keep(ls, id)
  {
    IncidentMembers(ls, id);
    DropIsKeep(ls, Incident(ls, id), id);
  }

  // ---------------------------------------------------------------------
  // Every operation preserves the invariant

  lemma AddNodePreserves(s: Store, id: string, text: string, parentId: string)
    requires WellFormed(s)
    ensures WellFormed(AddNode(s, id, text, parentId).post)
  {
  }

  lemma RemoveNodePreserves(s: Store, id: string)
    requires WellFormed(s)
    ensures WellFormed(RemoveNode(s, id).post)
  {
    if id in s.nodes {
      var ls := Keep(s.links, id);
      KeepMembers(s.links, id);
      KeepDistinct(s.links, id);
      forall i | 0 <= i < |ls|
        ensures ls[i].source in s.nodes - {id} && ls[i].target in s.nodes - {id}
      {
        assert ls[i] in ls;
        var j :| 0 <= j < |s.links| && s.links[j] == ls[i];
      }
    }
  }

  lemma UpdateNodeTextPreserves(s: Store, id: string, newText: string)
    requires WellFormed(s)
    ensures WellFormed(UpdateNodeText(s, id, newText).post)
  {
  }

  lemma AddConnectionPreserves(s: Store, sourceId: string, targetId: string)
    requires WellFormed(s)
    ensures WellFormed(AddConnection(s, sourceId, targetId).post)
  {
    var l := Link(sourceId, targetId);
    if sourceId in s.nodes && targetId in s.nodes && l !in s.links {
      DistinctSnoc(s.links, l);
    }
  }

  lemma RemoveConnectionPreserves(s: Store, sourceId: string, targetId: string)
    requires WellFormed(s)
    ensures WellFormed(RemoveConnection(s, sourceId, targetId).post)
  {
    var l := Link(sourceId, targetId);
    if l in s.links {
      var ls := RemoveFirst(s.links, l);
      RemoveFirstDistinct(s.links, l);
      forall i | 0 <= i < |ls| ensures ls[i].source in s.nodes && ls[i].target in s.nodes {
        assert ls[i] in ls;
        var j :| 0 <= j < |s.links| && s.links[j] == ls[i];
      }
    }
  }

  // ---------------------------------------------------------------------
  // What each operation promises

  /** A live id is rejected: nothing changes and nothing is emitted. */
  lemma AddNodeDuplicate(s: Store, id: string, text: string, parentId: string)
    requires id in s.nodes
    ensures AddNode(s, id, text, parentId).post == s
    ensures AddNode(s, id, text, parentId).emitted == []
  {
  }

  /** A fresh id gets exactly the given record; everything else is untouched. */
  lemma AddNodeFresh(s: Store, id: string, text: string, parentId: string)
    requires id !in s.nodes
    ensures var r := AddNode(s, id, text, parentId);
      && r.post.nodes.Keys == s.nodes.Keys + {id}
      && r.post.nodes[id] == Node(id, text, parentId)
      && (forall k :: k in s.nodes ==> r.post.nodes[k] == s.nodes[k])
      && r.post.links == s.links
      && r.emitted == [NodeAdded(Node(id, text, parentId))]
  {
  }

  /** The parent defaults to the empty string. */
  lemma AddNodeDefaultParent(s: Store, id: string, text: string)
    requires id !in s.nodes
    ensures AddNode(s, id, text).post.nodes[id].parent == ""
  {
  }

  /**
   Removing a live node: the id is gone, no link touches it, the other links
   stay in their order, and the events are one `connectionRemoved` per
   incident link in list order followed by one `nodeRemoved`.
   */
  lemma RemoveNodeCascade(s: Store, id: string)
    requires WellFormed(s) && id in s.nodes
    ensures var r := RemoveNode(s, id);
      && r.post.nodes.Keys == s.nodes.Keys - {id}
      && (forall k :: k in r.post.nodes ==> r.post.nodes[k] == s.nodes[k])
      && (forall l :: l in r.post.links <==> l in s.links && !Touches(l, id))
      && |r.emitted| == |Incident(s.links, id)| + 1
      && (forall i :: 0 <= i < |Incident(s.links, id)| ==>
            r.emitted[i] == ConnectionRemoved(Incident(s.links, id)[i].source, Incident(s.links, id)[i].target))
      && r.emitted[|r.emitted| - 1] == NodeRemoved(id)
  {
    KeepMembers(s.links, id);
    RemovedEventsAt(Incident(s.links, id));
  }

  /** On a well-formed store, removing any id (live or not) filters the links by it. */
  lemma RemoveNodeFilters(s: Store, id: string)
    requires WellFormed(s)
    ensures RemoveNode(s, id).post.nodes == s.nodes - {id}
    ensures RemoveNode(s, id).post.links == Keep(s.links, id)
  {
    if id !in s.nodes {
      KeepUntouched(s.links, id);
    }
  }

  /** The cascade emits one event per incident link: as many as there are such links. */
  lemma {:induction false} IncidentCount(ls: seq<Link>, id: string)
    requires Distinct(ls)
    ensures |Incident(ls, id)| + |Keep(ls, id)| == |ls|
  {
    if ls != [] {
      var init, x := ls[..|ls| - 1], ls[|ls| - 1];
      assert ls == init + [x];
      DistinctSnoc(init, x);
      IncidentCount(init, id);
      KeepSnoc(init, x, id);
    }
  }

  lemma {:induction false} KeepSnoc(ls: seq<Link>, x: Link, id: string)
    ensures Keep(ls + [x], id) == Keep(ls, id) + (if Touches(x, id) then [] else [x])
  {
    if ls != [] {
      assert (ls + [x])[1..] == ls[1..] + [x];
      KeepSnoc(ls[1..], x, id);
    }
  }

  /** `removeNode` on an absent id does nothing. */
  lemma RemoveNodeAbsent(s: Store, id: string)
    requires id !in s.nodes
    ensures RemoveNode(s, id) == Step(s, [])
  {
  }

  /** `updateNodeText` on an absent id does nothing. */
  lemma UpdateNodeTextAbsent(s: Store, id: string, newText: string)
    requires id !in s.nodes
    ensures UpdateNodeText(s, id, newText) == Step(s, [])
  {
  }

  /** `removeConnection` on an absent pair does nothing. */
  lemma RemoveConnectionAbsent(s: Store, sourceId: string, targetId: string)
    requires Link(sourceId, targetId) !in s.links
    ensures RemoveConnection(s, sourceId, targetId) == Step(s, [])
  {
  }

  /** Only the text changes; the event carries the full updated record. */
  lemma UpdateNodeTextEffect(s: Store, id: string, newText: string)
    requires id in s.nodes
    ensures var r := UpdateNodeText(s, id, newText);
      && r.post.nodes.Keys == s.nodes.Keys
      && r.post.nodes[id].text == newText
      && r.post.nodes[id].id == s.nodes[id].id
      && r.post.nodes[id].parent == s.nodes[id].parent
      && (forall k :: k in s.nodes && k != id ==> r.post.nodes[k] == s.nodes[k])
      && r.post.links == s.links
      && r.emitted == [NodeUpdated(r.post.nodes[id])]
  {
  }

  /** A connection is accepted exactly when both ends are live and the pair is new. */
  lemma AddConnectionEffect(s: Store, sourceId: string, targetId: string)
    ensures var r := AddConnection(s, sourceId, targetId);
      var accepted := sourceId in s.nodes && targetId in s.nodes && Link(sourceId, targetId) !in s.links;
      && r.post.nodes == s.nodes
      && (accepted ==>
            r.post.links == s.links + [Link(sourceId, targetId)] &&
            r.emitted == [ConnectionAdded(Link(sourceId, targetId))])
      && (!accepted ==> r.post == s && r.emitted == [])
  {
  }

  /** Adding the same pair twice gives one link and one event. */
  lemma AddConnectionTwice(s: Store, sourceId: string, targetId: string)
    ensures var r1 := AddConnection(s, sourceId, targetId);
      var r2 := AddConnection(r1.post, sourceId, targetId);
      && r2.post == r1.post
      && r2.emitted == []
      && |r1.emitted| <= 1
  {
  }

  /** With the invariant, exactly the matching link is removed, with one event. */
  lemma RemoveConnectionEffect(s: Store, sourceId: string, targetId: string)
    requires WellFormed(s) && Link(sourceId, targetId) in s.links
    ensures var r := RemoveConnection(s, sourceId, targetId);
      && r.post.nodes == s.nodes
      && (forall l :: l in r.post.links <==> l in s.links && l != Link(sourceId, targetId))
      && |r.post.links| == |s.links| - 1
      && r.emitted == [ConnectionRemoved(sourceId, targetId)]
  {
    RemoveFirstDistinct(s.links, Link(sourceId, targetId));
  }

  // ---------------------------------------------------------------------
  // The snapshot

  lemma InKeyOrderUnfold(m: map<string, Node>, keys: set<string>, k: string)
    requires keys <= m.Keys && KeyOrder.IsLeast(k, keys)
    ensures InKeyOrder(m, keys) == [m[k]] + InKeyOrder(m, keys - {k})
  {
    KeyOrder.LeastExists(keys);
    var k' :| KeyOrder.IsLeast(k', keys) && InKeyOrder(m, keys) == [m[k']] + InKeyOrder(m, keys - {k'});
    KeyOrder.LeastUnique(k, k', keys);
  }

  /** Strictly ascending ids. */
  predicate Ascending(ns: seq<Node>)
  {
    forall i, j :: 0 <= i < j < |ns| ==> KeyOrder.Less(ns[i].id, ns[j].id)
  }

  lemma {:induction false} InKeyOrderMembers(m: map<string, Node>, keys: set<string>)
    requires keys <= m.Keys && KeysMatch(m)
    ensures |InKeyOrder(m, keys)| == |keys|
    ensures forall n :: n in InKeyOrder(m, keys) <==> n.id in keys && m[n.id] == n
    decreases |keys|
  {
    if keys != {} {
      KeyOrder.LeastExists(keys);
      var k :| KeyOrder.IsLeast(k, keys);
      InKeyOrderUnfold(m, keys, k);
      InKeyOrderMembers(m, keys - {k});
    }
  }

  lemma {:induction false} InKeyOrderIds(m: map<string, Node>, keys: set<string>)
    requires keys <= m.Keys && KeysMatch(m)
    ensures forall i :: 0 <= i < |InKeyOrder(m, keys)| ==> InKeyOrder(m, keys)[i].id in keys
  {
    InKeyOrderMembers(m, keys);
    forall i | 0 <= i < |InKeyOrder(m, keys)| ensures InKeyOrder(m, keys)[i].id in keys {
      assert InKeyOrder(m, keys)[i] in InKeyOrder(m, keys);
    }
  }

  /** A record below every record of an ascending list can go in front of it. */
  lemma AscendingCons(n: Node, t: seq<Node>)
    requires Ascending(t)
    requires forall j :: 0 <= j < |t| ==> KeyOrder.Less(n.id, t[j].id)
    ensures Ascending([n] + t)
  {
    var r := [n] + t;
    forall i, j | 0 <= i < j < |r| ensures KeyOrder.Less(r[i].id, r[j].id) {
      assert r[j] == t[j - 1];
      if i > 0 {
        assert r[i] == t[i - 1];
      }
    }
  }

  lemma {:induction false} InKeyOrderAscending(m: map<string, Node>, keys: set<string>)
    requires keys <= m.Keys && KeysMatch(m)
    ensures Ascending(InKeyOrder(m, keys))
    decreases |keys|
  {
    if keys != {} {
      KeyOrder.LeastExists(keys);
      var k :| KeyOrder.IsLeast(k, keys);
      InKeyOrderUnfold(m, keys, k);
      var t := InKeyOrder(m, keys - {k});
      InKeyOrderAscending(m, keys - {k});
      InKeyOrderIds(m, keys - {k});
      forall j | 0 <= j < |t| ensures KeyOrder.Less(m[k].id, t[j].id) {
        assert t[j].id in keys - {k};
      }
      AscendingCons(m[k], t);
    }
  }

  /**
   `getFullGraph` lists every live node exactly once, in ascending id order,
   and every link in list order.
   */
  lemma SnapshotContents(s: Store)
    requires KeysMatch(s.nodes)
    ensures var g := Snapshot(s);
      && |g.nodes| == |s.nodes|
      && Ascending(g.nodes)
      && (forall n :: n in g.nodes <==> n.id in s.nodes && s.nodes[n.id] == n)
      && g.links == s.links
  {
    InKeyOrderMembers(s.nodes, s.nodes.Keys);
    InKeyOrderAscending(s.nodes, s.nodes.Keys);
    assert |s.nodes.Keys| == |s.nodes|;
  }

  /**
   `appReady` changes no state and emits exactly one `graphUpdated`, whose
   graph lists every live node once, in ascending id order, and every link
   in list order.
   */
  lemma AppReadyEffect(s: Store)
    requires KeysMatch(s.nodes)
    ensures var r := AppReady(s);
      && r.post == s
      && |r.emitted| == 1
      && r.emitted[0].GraphUpdated?
      && |r.emitted[0].graph.nodes| == |s.nodes|
      && Ascending(r.emitted[0].graph.nodes)
      && (forall n :: n in r.emitted[0].graph.nodes <==> n.id in s.nodes && s.nodes[n.id] == n)
      && r.emitted[0].graph.links == s.links
  {
    SnapshotContents(s);
  }
}
