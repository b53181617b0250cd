/** The agents of the contact graph (src/engine.ts:4-18). */
module Nodes {

  /** Health status of an agent. The source encodes it as -1, 0 and 1 only to
      key the per-status counts; the numbers carry no ordering. */
  datatype Status = Recovered | Healthy | Sick

  /** One agent. `links` holds indices into the population array where the
      source holds references to other node objects, which keeps the graph
      free of reference cycles; `id` is the node's index in that array. */
  datatype Node = Node(
    id: nat,
    x: real,
    y: real,
    status: Status,
    sickness: real,
    links: seq<nat>,
    isBeingAttacked: bool)

  /** Every link of every node names a node of the population: the index form
      of "a link is a reference to a node of the same array". */
  predicate LinksInRange(ns: seq<Node>)
  {
    forall i, p :: 0 <= i < |ns| && 0 <= p < |ns[i].links| ==> ns[i].links[p] < |ns|
  }
}
