/**
 The records the node manager stores and the change events it emits
 (the declarations of `WebNodeManager.h`). A node's JSON object
 `{id, text, parent}` and a link's `{source, target}` become datatypes;
 two links are the same exactly when their ordered endpoint pairs are.
 */
module GraphTypes {

  /** A mind-map node. `parent` is advisory: it is never checked against the live ids. */
  datatype Node = Node(id: string, text: string, parent: string)

  /** A directed connection, identified by its ordered pair of endpoints. */
  datatype Link = Link(source: string, target: string)

  /** The full-graph object: nodes in key order, links in list order. */
  datatype Graph = Graph(nodes: seq<Node>, links: seq<Link>)

  /** The six signals of the node manager, with their payloads. */
  datatype Event =
    | NodeAdded(node: Node)
    | NodeRemoved(id: string)
    | NodeUpdated(node: Node)
    | ConnectionAdded(link: Link)
    | ConnectionRemoved(source: string, target: string)
    | GraphUpdated(graph: Graph)
}
