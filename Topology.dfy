/** The cluster topology a replication scheme is built from: the configured
    number of copies and the list of storage nodes, each with an address, a
    status and the SHA-1 ring tokens it owns. The configuration is assembled
    step by step, as the tests do with `set_dht_num_copies`, `add_dht_nodes`,
    `set_status`, `set_name`, `set_addr` and `add_sha1_tokens`. */
module Topology {

  /** 2^160: one more than the largest SHA-1 value. */
  const TokenLimit: nat := 0x1_0000000000000000000000000000000000000000

  /** A position on the hash ring: a SHA-1 value read as an unsigned 160-bit number. */
  type Token = t: nat | t < TokenLimit

  datatype Option<T> = None | Some(value: T)

  datatype NodeStatus = Live | Dead

  /** One DHT node of the cluster configuration. `status` is `None` until it is set. */
  datatype Node = Node(name: string, addr: string, status: Option<NodeStatus>, tokens: seq<Token>)

  /** The node a freshly added configuration entry holds before any field is set. */
  const EmptyNode := Node("", "", None, [])

  /** The cluster configuration. A node is referred to by its position in
      `nodes`, the position `AddDhtNode` hands back. */
  class ClusterConfig {
    var numCopies: nat
    var nodes: seq<Node>

    constructor ()
      ensures numCopies == 0 && nodes == []
    {
      numCopies := 0;
      nodes := [];
    }

    method SetDhtNumCopies(n: nat)
      modifies this
      ensures numCopies == n && nodes == old(nodes)
    {
      numCopies := n;
    }

    /** Appends an empty node and returns its position. */
    method AddDhtNode() returns (id: nat)
      modifies this
      ensures id == |old(nodes)| && nodes == old(nodes) + [EmptyNode]
      ensures numCopies == old(numCopies)
    {
      id := |nodes|;
      nodes := nodes + [EmptyNode];
    }

    method SetStatus(id: nat, status: NodeStatus)
      requires id < |nodes|
      modifies this
      ensures nodes == old(nodes)[id := old(nodes)[id].(status := Some(status))]
      ensures numCopies == old(numCopies)
    {
      nodes := nodes[id := nodes[id].(status := Some(status))];
    }

    method SetName(id: nat, name: string)
      requires id < |nodes|
      modifies this
      ensures nodes == old(nodes)[id := old(nodes)[id].(name := name)]
      ensures numCopies == old(numCopies)
    {
      nodes := nodes[id := nodes[id].(name := name)];
    }

    method SetAddr(id: nat, addr: string)
      requires id < |nodes|
      modifies this
      ensures nodes == old(nodes)[id := old(nodes)[id].(addr := addr)]
      ensures numCopies == old(numCopies)
    {
      nodes := nodes[id := nodes[id].(addr := addr)];
    }

    /** Appends one token to the node's list of tokens. */
    method AddSha1Token(id: nat, token: Token)
      requires id < |nodes|
      modifies this
      ensures nodes == old(nodes)[id := old(nodes)[id].(tokens := old(nodes)[id].tokens + [token])]
      ensures numCopies == old(numCopies)
    {
      nodes := nodes[id := nodes[id].(tokens := nodes[id].tokens + [token])];
    }
  }
}
