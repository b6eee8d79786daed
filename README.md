# ForceMindMap graph store, modelled in Dafny

ForceMindMap is a mind-map editor. A Qt back end holds the graph, and a web
view draws it. This project models the graph store `WebNodeManager`. The
store holds a map from node id to a node record `{id, text, parent}` and an
ordered list of directed links `{source, target}`. It offers five mutating
operations (`addNode`, `removeNode`, `updateNodeText`, `addConnection`,
`removeConnection`), a read-only snapshot (`getFullGraph`) and the front
end's handshake (`appReady`). Each mutation validates its input and changes
the state in place. An accepted call announces its change with Qt signals,
drawn from six kinds. `removeNode` emits one signal per incident link and then
one for the node; each other accepted call emits exactly one. A refused call
changes nothing and emits nothing. The project also models the
window's two uses of the store: the five seed calls in the `MainWindow`
constructor, and `MainWindow::loadGraph`, which replays a saved document.

The project has five modules:

- `GraphTypes` (`graph_types.dfy`): the node, link and graph records, and
  `Event`. `Event` has one variant per signal of the header.
- `KeyOrder` (`key_order.dfy`): the order in which a `QMap<QString, …>`
  iterates. This is lexicographic order on strings, where a proper prefix
  comes first. The module proves that this is a strict total order and
  finds the least key of a set with a loop.
- `StoreSpec` (`store_spec.dfy`): each store operation as a pure function
  from the old state to a `Step`. A `Step` is the new state plus the signals
  emitted, in order. The module also holds the store invariant `WellFormed`
  and lemmas for every property the code promises. `WellFormed` says three
  things: every record's `id` equals its key, every link's ends are live,
  and no ordered pair occurs twice.
- `NodeManager` (`web_node_manager.dfy`): the class `WebNodeManager`. Its
  fields `nodes` and `links` are updated in place, and the ghost field
  `events` logs every signal. Each method mirrors the C++ loops. The five
  mutating methods are proved to produce exactly the `StoreSpec` step and
  to keep the invariant. `AppReady` is proved to log exactly the
  `StoreSpec.AppReady` signal, and `GetFullGraph` to return exactly
  `Snapshot`. The two loops of `removeNode` are methods of their own:
  `IncidentLinks` returns exactly `Incident`, and `RemoveEach` leaves the
  list as `Drop` describes and logs one signal per removed link.
- `Window` (`main_window.dfy`): the seed data and the `loadGraph` replay,
  both as functions over the store and as the class `MainWindow`. The class
  drives a `WebNodeManager` through its methods.

Where the code and the design description differ, the model follows the
code:

- `removeNode` deletes the node from the map *before* it removes the
  incident links (`WebNodeManager.cpp:29`). The final state and the signal
  order are the same either way: all `connectionRemoved` signals come
  before `nodeRemoved`.
- "Clear the prior graph" in `loadGraph` is really three fixed
  `removeNode("1"/"2"/"3")` calls. So the save/load round trip holds only
  when every live id is a seed id (`LoadRoundTrip`, `SaveLoadRoundTrip`).
  Any other live node survives a load, and it wins over a file node with
  the same id (`LoadEffect`).
- The snapshot lists nodes in ascending key order (the `QMap` iteration
  order), not in insertion order. Links stay in list order.

The five mutating methods of `WebNodeManager` require `Valid()`, the class
invariant. The constructor establishes it and those methods keep it, so
every reachable store satisfies it. `GetFullGraph`, `AppReady` and
`IncidentLinks` require nothing. `RemoveEach` requires that neither the
link list nor the collected links hold a pair twice; `RemoveNode` meets this
from the invariant. The source puts no precondition on its callers: each
operation handles absent ids and pairs itself, and the model does the same.
`StoreSpec.AppReadyEffect` and `StoreSpec.SnapshotContents` require only
that every record sits under its own id, which the invariant includes.

## Model

| member | source | states |
|---|---|---|
| NodeManager.WebNodeManager.constructor | BackEnd/ForceMindMap/src/WebNodeManager.cpp:5-7 | A new manager has no nodes, no links and no signals, and satisfies the invariant. |
| NodeManager.WebNodeManager.AddNode | BackEnd/ForceMindMap/src/WebNodeManager.cpp:9-24 | The new state and signals are exactly `StoreSpec.AddNode`'s, and the invariant is kept. |
| NodeManager.WebNodeManager.RemoveNode | BackEnd/ForceMindMap/src/WebNodeManager.cpp:26-47 | Deleting the node, collecting its links and removing them one by one yields exactly `StoreSpec.RemoveNode`'s state and signal sequence, and keeps the invariant. |
| NodeManager.WebNodeManager.IncidentLinks | BackEnd/ForceMindMap/src/WebNodeManager.cpp:32-37 | The collecting loop returns exactly the links touching `id`, in list order. |
| NodeManager.WebNodeManager.RemoveEach | BackEnd/ForceMindMap/src/WebNodeManager.cpp:39-42 | Running `removeOne` for each collected link leaves the list minus those links in its old order, and logs one `connectionRemoved` per link in order. |
| NodeManager.WebNodeManager.UpdateNodeText | BackEnd/ForceMindMap/src/WebNodeManager.cpp:49-56 | The new state and signals are exactly `StoreSpec.UpdateNodeText`'s, and the invariant is kept. |
| NodeManager.WebNodeManager.AddConnection | BackEnd/ForceMindMap/src/WebNodeManager.cpp:58-79 | The endpoint check and the duplicate scan give exactly `StoreSpec.AddConnection`'s state and signals, and the invariant is kept. |
| NodeManager.WebNodeManager.RemoveConnection | BackEnd/ForceMindMap/src/WebNodeManager.cpp:81-92 | The indexed search and `removeAt` give exactly `StoreSpec.RemoveConnection`'s state and signals, and the invariant is kept. |
| NodeManager.WebNodeManager.GetFullGraph | BackEnd/ForceMindMap/src/WebNodeManager.cpp:94-113 | The two loops return exactly the snapshot: nodes in ascending key order, links in list order. The method modifies nothing, matching `const` at BackEnd/ForceMindMap/include/WebNodeManager.h:22. |
| NodeManager.WebNodeManager.AppReady | BackEnd/ForceMindMap/src/WebNodeManager.cpp:115-121 | Logs exactly one `graphUpdated` carrying the snapshot, on every call. Only the log changes. |
| KeyOrder.Less | BackEnd/ForceMindMap/include/WebNodeManager.h:34 | The `QString` order that keys a `QMap`: character by character, a proper prefix first. Its contract states the prefix rule; `Irreflexive`, `Asymmetric`, `Transitive` and `Total` make it a strict total order. |
| KeyOrder.FindLeast | BackEnd/ForceMindMap/src/WebNodeManager.cpp:101-103 | Returns the key that `QMap` iteration visits first: a member of the set that is below every other member. |
| KeyOrder.Transitive | BackEnd/ForceMindMap/include/WebNodeManager.h:34 | The key order is transitive. |
| KeyOrder.Total | BackEnd/ForceMindMap/include/WebNodeManager.h:34 | Any two distinct keys are ordered one way or the other. |
| KeyOrder.Asymmetric | BackEnd/ForceMindMap/include/WebNodeManager.h:34 | The key order is asymmetric. |
| KeyOrder.LeastExists | BackEnd/ForceMindMap/include/WebNodeManager.h:34 | Every non-empty key set has a least key. |
| KeyOrder.LeastUnique | BackEnd/ForceMindMap/include/WebNodeManager.h:34 | The least key is unique, so the iteration order is determined. |
| StoreSpec.AddNode | BackEnd/ForceMindMap/src/WebNodeManager.cpp:9-24 | `addNode` as a step. The key set becomes the old one plus `id`, and the links are unchanged. At most one signal is emitted, and none exactly when the state is unchanged. |
| StoreSpec.RemoveNode | BackEnd/ForceMindMap/src/WebNodeManager.cpp:26-47 | `removeNode` as a step. The key set loses exactly `id`, and the list never grows. No signal is emitted exactly when the state is unchanged. |
| StoreSpec.UpdateNodeText | BackEnd/ForceMindMap/src/WebNodeManager.cpp:49-56 | `updateNodeText` as a step. The key set and the links are unchanged. At most one signal is emitted, and a silent call changes nothing. |
| StoreSpec.AddConnection | BackEnd/ForceMindMap/src/WebNodeManager.cpp:58-79 | `addConnection` as a step. The nodes are unchanged and the list grows by at most one. At most one signal is emitted, and none exactly when the state is unchanged. |
| StoreSpec.RemoveConnection | BackEnd/ForceMindMap/src/WebNodeManager.cpp:81-92 | `removeConnection` as a step. The nodes are unchanged and the list shrinks by at most one. At most one signal is emitted, and none exactly when the state is unchanged. |
| StoreSpec.Incident | BackEnd/ForceMindMap/src/WebNodeManager.cpp:32-37 | The links `removeNode` collects, in list order. It is never longer than the list. `IncidentMembers` gives its members. |
| StoreSpec.Keep | BackEnd/ForceMindMap/src/WebNodeManager.cpp:39-42 | The links that survive `removeNode`, in list order. It is never longer than the list. `KeepMembers` gives its members and `KeepConcat` its order. |
| StoreSpec.RemoveFirst | BackEnd/ForceMindMap/src/WebNodeManager.cpp:40 | `QList::removeOne`: drops the first occurrence. The list shrinks by one exactly when the link was present, and is otherwise as long as before. |
| StoreSpec.InKeyOrder | BackEnd/ForceMindMap/src/WebNodeManager.cpp:101-103 | The `QMap` walk over a key set, least key first, with one record per key. `InKeyOrderMembers` and `InKeyOrderAscending` give its contents and order. |
| StoreSpec.Snapshot | BackEnd/ForceMindMap/src/WebNodeManager.cpp:94-113 | `getFullGraph`'s result: one node entry per live node, and the link list itself. `SnapshotContents` gives its contents and order. |
| StoreSpec.AppReady | BackEnd/ForceMindMap/src/WebNodeManager.cpp:115-121 | `appReady` as a step. The state is unchanged, and exactly one `graphUpdated` is emitted, carrying the link list and one entry per live node. |
| StoreSpec.AddNodeDuplicate | BackEnd/ForceMindMap/src/WebNodeManager.cpp:11-14 | Adding a live id changes nothing and emits nothing. |
| StoreSpec.AddNodeFresh | BackEnd/ForceMindMap/src/WebNodeManager.cpp:16-22 | A fresh id is stored with exactly `{id, text, parentId}`. Every other record and the links are unchanged, and exactly one `nodeAdded` with that record is emitted. |
| StoreSpec.AddNodeDefaultParent | BackEnd/ForceMindMap/include/WebNodeManager.h:17 | Omitting `parentId` stores the empty parent. |
| StoreSpec.AddNodePreserves | BackEnd/ForceMindMap/src/WebNodeManager.cpp:9-24 | `addNode` keeps the store invariant. |
| StoreSpec.RemoveNodeCascade | BackEnd/ForceMindMap/src/WebNodeManager.cpp:26-47 | On a live id, four things hold. The id is gone and the other records are unchanged. A link remains iff it was present and does not touch the id. One `connectionRemoved(s, t)` is emitted per incident link, in list order, followed by exactly one `nodeRemoved(id)`. |
| StoreSpec.RemoveNodeFilters | BackEnd/ForceMindMap/src/WebNodeManager.cpp:28-42 | On a well-formed store, removing any id leaves the map minus that key, and the link list filtered by it (`Keep`), in order. |
| StoreSpec.KeepConcat | BackEnd/ForceMindMap/src/WebNodeManager.cpp:39-42 | Filtering distributes over concatenation, so the links that survive a removal keep their relative order. |
| StoreSpec.DropIncident | BackEnd/ForceMindMap/src/WebNodeManager.cpp:32-42 | On a list without duplicates, collecting the incident links and then removing each one's first occurrence is the same as filtering the list. |
| StoreSpec.IncidentCount | BackEnd/ForceMindMap/src/WebNodeManager.cpp:32-42 | The incident links and the surviving links together account for every link exactly once. |
| StoreSpec.IncidentMembers | BackEnd/ForceMindMap/src/WebNodeManager.cpp:33-37 | A link is collected iff it is in the list and touches the id. |
| StoreSpec.KeepMembers | BackEnd/ForceMindMap/src/WebNodeManager.cpp:39-42 | A link survives iff it is in the list and does not touch the id. |
| StoreSpec.RemovedEventsAt | BackEnd/ForceMindMap/src/WebNodeManager.cpp:39-42 | The cascade emits one `connectionRemoved` per collected link, with that link's ends, at that link's position. |
| StoreSpec.DropStep | BackEnd/ForceMindMap/src/WebNodeManager.cpp:40 | On a list without duplicates, one more `removeOne` drops one more collected link. |
| StoreSpec.RemoveFirstDistinct | BackEnd/ForceMindMap/src/WebNodeManager.cpp:40 | On a list without duplicates, `removeOne(x)` removes exactly `x` and shortens the list by one when `x` was present. |
| StoreSpec.RemoveNodePreserves | BackEnd/ForceMindMap/src/WebNodeManager.cpp:26-47 | `removeNode` keeps the store invariant. In particular, no dangling link remains. |
| StoreSpec.RemoveNodeAbsent | BackEnd/ForceMindMap/src/WebNodeManager.cpp:28 | `removeNode` on an absent id changes nothing and emits nothing. |
| StoreSpec.UpdateNodeTextAbsent | BackEnd/ForceMindMap/src/WebNodeManager.cpp:51 | `updateNodeText` on an absent id changes nothing and emits nothing. |
| StoreSpec.RemoveConnectionAbsent | BackEnd/ForceMindMap/src/WebNodeManager.cpp:83-91 | `removeConnection` on an absent pair changes nothing and emits nothing. |
| StoreSpec.UpdateNodeTextEffect | BackEnd/ForceMindMap/src/WebNodeManager.cpp:49-56 | Only the node's text changes. Its id and parent, every other record and all links are unchanged. Exactly one `nodeUpdated` with the full new record is emitted. |
| StoreSpec.UpdateNodeTextPreserves | BackEnd/ForceMindMap/src/WebNodeManager.cpp:49-56 | `updateNodeText` keeps the store invariant. |
| StoreSpec.AddConnectionEffect | BackEnd/ForceMindMap/src/WebNodeManager.cpp:58-79 | The pair is appended, with exactly one `connectionAdded`, iff both ends are live and the pair is new. Otherwise nothing changes and nothing is emitted. Self-loops count as accepted. Nodes never change. |
| StoreSpec.AddConnectionTwice | BackEnd/ForceMindMap/src/WebNodeManager.cpp:65-70 | Adding the same pair twice gives one link and at most one signal. The second call is a no-op. |
| StoreSpec.AddConnectionPreserves | BackEnd/ForceMindMap/src/WebNodeManager.cpp:58-79 | `addConnection` keeps the store invariant. |
| StoreSpec.RemoveConnectionEffect | BackEnd/ForceMindMap/src/WebNodeManager.cpp:81-92 | On a well-formed store holding the pair, exactly that link is removed, the list shrinks by one, and one `connectionRemoved` is emitted. |
| StoreSpec.RemoveConnectionPreserves | BackEnd/ForceMindMap/src/WebNodeManager.cpp:81-92 | `removeConnection` keeps the store invariant. |
| StoreSpec.SnapshotContents | BackEnd/ForceMindMap/src/WebNodeManager.cpp:94-113 | The snapshot has one entry per live node, strictly ascending by id. A record is in it iff it is stored under its id. Its links are the link list. |
| StoreSpec.InKeyOrderMembers | BackEnd/ForceMindMap/src/WebNodeManager.cpp:101-103 | Walking the keys in order yields one record per key, and exactly the records stored under those keys. |
| StoreSpec.InKeyOrderAscending | BackEnd/ForceMindMap/src/WebNodeManager.cpp:101-103 | Walking the keys in order yields records in strictly ascending id order. |
| StoreSpec.InKeyOrderUnfold | BackEnd/ForceMindMap/src/WebNodeManager.cpp:101-103 | The walk starts with the least key's record, then walks the rest. |
| StoreSpec.AppReadyEffect | BackEnd/ForceMindMap/src/WebNodeManager.cpp:115-121 | `appReady` changes no state and emits exactly one signal, a `graphUpdated`. Its graph has one entry per live node, strictly ascending by id. A record is in it iff it is stored under its id. Its links are the link list, in order. |
| Window.MainWindow.constructor | BackEnd/ForceMindMap/src/MainWindow.cpp:15-33 | The five seed calls leave the manager holding exactly the seed graph. The log holds the three `nodeAdded` and two `connectionAdded` signals in call order. |
| Window.SeedReplay | BackEnd/ForceMindMap/src/MainWindow.cpp:28-32 | From an empty store, the seed calls give the three seed records (parents "", "1", "1") and links (1,2), (1,3) in that order, with the matching signals. |
| Window.RemoveRootOfSeed | BackEnd/ForceMindMap/src/MainWindow.cpp:28-32 | Removing "1" from the seed graph leaves nodes 2 and 3 with no links. It emits `connectionRemoved(1,2)`, `connectionRemoved(1,3)`, then `nodeRemoved(1)`. |
| Window.MainWindow.LoadGraph | BackEnd/ForceMindMap/src/MainWindow.cpp:133-160 | The three removals, the node loop and the link loop leave the manager in exactly `Load`'s state and log `Load`'s signals, keeping the invariant. |
| Window.MainWindow.ClearSeedNodes | BackEnd/ForceMindMap/src/MainWindow.cpp:136-138 | The three fixed `removeNode` calls give exactly `ClearSeed`'s state and signals. |
| Window.MainWindow.AddFileNodes | BackEnd/ForceMindMap/src/MainWindow.cpp:141-149 | The node loop gives exactly `AddNodes`'s state and signals, with one `addNode` per array entry in order. |
| Window.MainWindow.AddFileLinks | BackEnd/ForceMindMap/src/MainWindow.cpp:152-159 | The link loop gives exactly `AddConnections`'s state and signals, with one `addConnection` per array entry in order. |
| Window.ClearSeed | BackEnd/ForceMindMap/src/MainWindow.cpp:136-138 | The three fixed `removeNode` calls as a step. The key set loses exactly ids 1, 2 and 3, and the list never grows. |
| Window.AddNodes | BackEnd/ForceMindMap/src/MainWindow.cpp:141-149 | The node loop as a step, one `addNode` per entry in order. The links are unchanged, and at most one signal is emitted per entry. |
| Window.AddConnections | BackEnd/ForceMindMap/src/MainWindow.cpp:152-159 | The link loop as a step, one `addConnection` per entry in order. The nodes are unchanged, the list grows by at most one link per entry, and at most one signal is emitted per entry. |
| Window.Load | BackEnd/ForceMindMap/src/MainWindow.cpp:133-160 | `loadGraph` as a step: the clearing, then the node loop, then the link loop. The list ends no longer than the old list plus the file's links. |
| Window.ClearSeedEffect | BackEnd/ForceMindMap/src/MainWindow.cpp:136-138 | The clearing removes exactly ids 1, 2 and 3 and keeps every other record. The surviving links are the old list filtered by each seed id, in order. The result is well formed. |
| Window.ClearSeedLinks | BackEnd/ForceMindMap/src/MainWindow.cpp:136-138 | A link survives the clearing iff neither of its ends is a seed id. |
| Window.ClearSeedOnlySeed | BackEnd/ForceMindMap/src/MainWindow.cpp:136-138 | When only seed ids are live, the clearing empties the store. |
| Window.AddNodesKeys | BackEnd/ForceMindMap/src/MainWindow.cpp:141-149 | The node phase leaves the links alone. Afterwards an id is live iff it was live before or names a file node. |
| Window.AddNodesKeepsLive | BackEnd/ForceMindMap/src/MainWindow.cpp:141-149 | A record that was live before the node phase survives it unchanged, even when a file node has its id. |
| Window.AddNodesFirstWins | BackEnd/ForceMindMap/src/MainWindow.cpp:141-149 | A file node whose id is not live and not used earlier in the array is stored exactly as given. |
| Window.AddNodesPreserves | BackEnd/ForceMindMap/src/MainWindow.cpp:141-149 | The node phase keeps the store invariant. |
| Window.AddConnectionsEffect | BackEnd/ForceMindMap/src/MainWindow.cpp:152-159 | The link phase never changes nodes and keeps the old links as a prefix. A link is present afterwards iff it was present before, or is a file link whose ends are live. Repeated file links collapse to one, since the result is well formed. |
| Window.AddConnectionsAllNew | BackEnd/ForceMindMap/src/MainWindow.cpp:152-159 | File links that are live, new and pairwise distinct are all appended, in file order. |
| Window.LoadEffect | BackEnd/ForceMindMap/src/MainWindow.cpp:133-160 | After a load, three things hold. The live ids are the non-seed survivors plus the file ids. A surviving record is unchanged even when the file names its id. A link is present iff it is an old link with no seed end, or a file link whose ends are live after the node phase. All nodes are added before any link. |
| Window.AddNodesDistinct | BackEnd/ForceMindMap/src/MainWindow.cpp:141-149 | Nodes with distinct ids, added to an empty store, are all stored as given, with no links. |
| Window.LoadRoundTrip | BackEnd/ForceMindMap/src/MainWindow.cpp:133-160 | Loading a document with distinct ids and live, distinct links over a store whose live ids are all seed ids gives exactly the document: its ids, its records, and its links in document order. |
| Window.SnapshotIsGoodDocument | BackEnd/ForceMindMap/src/WebNodeManager.cpp:94-113 | The snapshot of a well-formed store is such a document, over the same ids. |
| Window.SaveLoadRoundTrip | BackEnd/ForceMindMap/src/MainWindow.cpp:133-160 | Saving any well-formed store and loading the file over a store whose live ids are all seed ids gives back the saved store exactly. |

## Left out

- The signals' delivery to listeners, over the web channel or otherwise, is not modelled. Emission is an append to the ghost log `events`. Listener code, and re-entrant calls from it, are out of scope.
- `qWarning` and `qDebug` logging: it has no effect on the state.
- The intermediate state between `removeNode`'s steps is not modelled. Only the final state and the signal order are stated.
- `QString` comparison: the key order compares Dafny `char`s, while `QString` compares UTF-16 code units. The two agree on every string of Basic Multilingual Plane characters.
- `QJsonObject` records are modelled as `Node` and `Link` datatypes. The duplicate scan in `addConnection` and the search in `removeConnection` compare the `source` and `target` fields with the arguments. `removeOne` in `removeNode` compares whole objects. The store builds every link object with only `source` and `target`, so both comparisons amount to comparing the pair.
- `MainWindow::loadGraph` takes an already parsed `Graph`. JSON parsing, the `toString()` of a missing or non-string field (which yields ""), and the `toArray()` of a missing array (which yields an empty array) are not modelled.
- The rest of `MainWindow.cpp` is not part of this model: the web view and channel set-up, the toolbar actions, the dialogs, file reading and writing, and the window title and size. The `m_webView` and `m_webChannel` fields are not modelled.
- The front end, the D3 rendering script, the WebEngine demo, `AppConfig.h` and the application bootstrap are not part of this model. They hold UI, layout, I/O and transport code, and none of them holds store logic.
