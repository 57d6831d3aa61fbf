/**
 * The list element and the (position, node) pair that the list's index and the
 * hash table store for every key (src/Node.java, src/IndexNodePair.java and
 * src/NodeIndexPair.java; the two pair classes are identical and are one type here).
 */
module Nodes {

  /** A doubly linked list element. Its key never changes once the node exists. */
  class Node {
    const data: string
    var prev: Node?
    var next: Node?

    constructor (data: string)
      ensures this.data == data && prev == null && next == null
    {
      this.data := data;
      prev := null;
      next := null;
    }
  }

  /** What the index records for a key: its ordinal position and its node. */
  datatype Entry = Entry(position: int, node: Node)
}
