/** The training graph: an array of nodes plus the order in which fit settles them. */
module Graph {
  import opened Constants

  /**
   * One training sample. trueLabel is its ground-truth label and idx its
   * position in the original dataset (the key into a pre-computed distance
   * matrix); cost, pred and predictedLabel are written by fit.
   */
  datatype Node = Node(
    idx: nat,
    trueLabel: int,
    features: seq<real>,
    status: Status,
    cost: real,
    pred: int,
    predictedLabel: int)

  class Subgraph {
    const nodes: array<Node>
    /** Indices of the nodes in the order fit removed them from the heap. */
    var idxNodes: seq<nat>

    /** The number of nodes (n_nodes). */
    function NNodes(): nat
      reads this
    {
      nodes.Length
    }

    /** A graph over the given nodes, with nothing settled yet. */
    constructor (nodes: seq<Node>)
      ensures fresh(this.nodes) && this.nodes[..] == nodes && idxNodes == []
    {
      this.nodes := new Node[|nodes|](i requires 0 <= i < |nodes| => nodes[i]);
      idxNodes := [];
    }
  }
}
