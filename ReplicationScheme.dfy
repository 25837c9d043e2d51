/** The DHT replication scheme: built once from a cluster configuration, it
    keeps the ring as an array sorted by token and answers, for a key hash,
    which replicas hold the key. */
module ReplicationScheme {
  import opened Topology
  import opened Ring
  import opened Placement

  /** Every token of every node, collected node by node. */
  method CollectEntries(nodes: seq<Node>) returns (es: seq<RingEntry>)
    ensures es == Entries(nodes)
  {
    es := [];
    var i := 0;
    while i < |nodes|
      invariant 0 <= i <= |nodes|
      invariant es == Entries(nodes[..i])
    {
      var n := nodes[i];
      var k := 0;
      while k < |n.tokens|
        invariant 0 <= k <= |n.tokens|
        invariant es == Entries(nodes[..i]) + NodeEntries(n, i)[..k]
      {
        es := es + [RingEntry(n.tokens[k], i, n.addr)];
        k := k + 1;
      }
      assert NodeEntries(n, i)[..k] == NodeEntries(n, i);
      assert nodes[..i + 1][..i] == nodes[..i];
      i := i + 1;
    }
    assert nodes[..i] == nodes;
  }

  method Swap(a: array<RingEntry>, i: nat, j: nat)
    requires i < a.Length && j < a.Length
    modifies a
    ensures a[..] == old(a[..])[i := old(a[j])][j := old(a[i])]
    ensures multiset(a[..]) == old(multiset(a[..]))
  {
    a[i], a[j] := a[j], a[i];
  }

  /** Sorts the ring entries in place, ascending by token (insertion sort). */
  method SortRing(a: array<RingEntry>)
    modifies a
    ensures Sorted(a[..])
    ensures multiset(a[..]) == old(multiset(a[..]))
  {
    var i := 0;
    while i < a.Length
      invariant 0 <= i <= a.Length
      invariant forall p, q :: 0 <= p < q < i ==> a[p].token <= a[q].token
      invariant multiset(a[..]) == old(multiset(a[..]))
    {
      InsertLast(a, i);
      i := i + 1;
    }
  }

  /** One insertion-sort pass: moves `a[i]` down into the sorted prefix `a[..i]`. */
  method InsertLast(a: array<RingEntry>, i: nat)
    requires i < a.Length
    requires forall p, q :: 0 <= p < q < i ==> a[p].token <= a[q].token
    modifies a
    ensures forall p, q :: 0 <= p < q <= i ==> a[p].token <= a[q].token
    ensures multiset(a[..]) == old(multiset(a[..]))
  {
    var j := i;
    while j > 0 && a[j - 1].token > a[j].token
      invariant 0 <= j <= i
      invariant forall p, q :: 0 <= p < q <= i && p != j && q != j ==> a[p].token <= a[q].token
      invariant forall q :: j < q <= i ==> a[j].token < a[q].token
      invariant multiset(a[..]) == old(multiset(a[..]))
    {
      Swap(a, j - 1, j);
      j := j - 1;
    }
  }

  class DhtReplicationScheme {
    /** The configured number of copies (`dht_num_copies`). */
    const numCopies: nat
    /** The number of nodes in the configuration. */
    const numNodes: nat
    /** The ring: every token of every node, sorted ascending. */
    const ring: array<RingEntry>
    /** The node list the scheme was built from. */
    ghost const nodes: seq<Node>

    ghost predicate Valid()
      reads this, ring
    {
      IsRingOf(ring[..], nodes) && numNodes == |nodes|
    }

    /** Builds the ring from a snapshot of the configuration. */
    constructor (cc: ClusterConfig)
      ensures Valid() && fresh(ring)
      ensures nodes == cc.nodes && numCopies == cc.numCopies
    {
      var es := CollectEntries(cc.nodes);
      var a := new RingEntry[|es|](k requires 0 <= k < |es| => es[k]);
      assert a[..] == es;
      SortRing(a);
      ring := a;
      numCopies := cc.numCopies;
      numNodes := |cc.nodes|;
      nodes := cc.nodes;
    }

    /** Binary search for the first ring position whose token is at least `key`. */
    method LowerBound(key: Token) returns (i: nat)
      requires Valid()
      ensures i == FirstAtLeast(ring[..], key)
    {
      var lo, hi := 0, ring.Length;
      while lo < hi
        invariant 0 <= lo <= hi <= ring.Length
        invariant forall k :: 0 <= k < lo ==> ring[k].token < key
        invariant forall k :: hi <= k < ring.Length ==> key <= ring[k].token
      {
        var mid := lo + (hi - lo) / 2;
        if ring[mid].token < key {
          lo := mid + 1;
        } else {
          hi := mid;
        }
      }
      i := lo;
      FirstAtLeastUnique(ring[..], key, i);
    }

    /** The replicas for `key`: walk the ring once around from the first token
        at least `key`, taking each node at the first of its tokens met, until
        min(numCopies, numNodes) replicas are taken. */
    method ReplicasFor(key: Token) returns (r: seq<Replica>)
      requires Valid()
      ensures r == Replicas(ring[..], key, Min(numCopies, numNodes))
    {
      if ring.Length == 0 {
        return [];
      }
      var start := LowerBound(key);
      if start == ring.Length {
        start := 0;
      }
      r := WalkRing(ring[..], start, Min(numCopies, numNodes));
    }
  }

  /** The walk itself: visit the ring positions start, start + 1, ... modulo
      the ring size, once around, appending a replica for every node not yet
      chosen, and stop early once `want` replicas are chosen. */
  method WalkRing(ring: seq<RingEntry>, start: nat, want: nat) returns (r: seq<Replica>)
    requires start < |ring|
    ensures r == ToReplicas(Walk(Rotated(ring, start), want, {}))
  {
    var n := |ring|;
    ghost var rot := Rotated(ring, start);
    ghost var taken: seq<RingEntry> := [];
    r := [];
    var chosen: set<nat> := {};
    var i := 0;
    assert rot[i..] == rot;
    while i < n && |r| < want
      invariant 0 <= i <= n
      invariant |taken| <= want
      invariant r == ToReplicas(taken) && |r| == |taken|
      invariant taken + Walk(rot[i..], want - |taken|, chosen) == Walk(rot, want, {})
    {
      var e := ring[(start + i) % n];
      RotatedAt(ring, start, i);
      WalkAdvance(rot, i, want, taken, chosen, Walk(rot, want, {}));
      if e.node !in chosen {
        ToReplicasAppend(taken, e);
        r := r + [Replica(e.token, e.addr)];
        taken := taken + [e];
        chosen := chosen + {e.node};
      }
      i := i + 1;
    }
    assert Walk(rot[i..], want - |taken|, chosen) == [];
  }

  // ---------------------------------------------------------------------------
  // Placement over a ring built from a configuration

  /** With no nodes the ring is empty and every key gets no replicas. */
  lemma NoNodesNoReplicas(ring: seq<RingEntry>, key: Token, want: nat)
    requires IsRingOf(ring, [])
    ensures Replicas(ring, key, want) == []
  {
    assert |ring| == |multiset(ring)| == 0;
  }

  /** Every chosen entry pairs a token of a configured node with that node's address. */
  lemma PlacementOwnedByNodes(ring: seq<RingEntry>, nodes: seq<Node>, key: Token, want: nat)
    requires IsRingOf(ring, nodes)
    ensures forall e :: e in Placement.Placement(ring, key, want) ==>
      e.node < |nodes| && e.addr == nodes[e.node].addr && e.token in nodes[e.node].tokens
  {
    PlacementFromRing(ring, key, want);
    forall e | e in Placement.Placement(ring, key, want)
      ensures e.node < |nodes| && e.addr == nodes[e.node].addr && e.token in nodes[e.node].tokens
    {
      assert e in multiset(Entries(nodes));
      EntriesMembership(nodes, e);
    }
  }

  /** The number of replicas is min(numCopies, number of nodes) whenever every
      node owns a token, and never more. */
  lemma ReplicaCount(ring: seq<RingEntry>, nodes: seq<Node>, key: Token, numCopies: nat)
    requires IsRingOf(ring, nodes)
    ensures |Replicas(ring, key, Min(numCopies, |nodes|))| <= Min(numCopies, |nodes|)
    ensures (forall i :: 0 <= i < |nodes| ==> nodes[i].tokens != []) ==>
      |Replicas(ring, key, Min(numCopies, |nodes|))| == Min(numCopies, |nodes|)
  {
    PlacementLength(ring, key, Min(numCopies, |nodes|));
    NodesOfPermutation(ring, Entries(nodes));
    NodesOfEntries(nodes);
    NodeIdsCount(|nodes|);
  }

  /** A single node that owns a token gets every key, exactly once, under one of its tokens. */
  lemma SingleNodeSingleReplica(ring: seq<RingEntry>, node: Node, key: Token, numCopies: nat)
    requires IsRingOf(ring, [node]) && node.tokens != [] && numCopies > 0
    ensures |Replicas(ring, key, Min(numCopies, 1))| == 1
    ensures Replicas(ring, key, Min(numCopies, 1))[0].addr == node.addr
    ensures Replicas(ring, key, Min(numCopies, 1))[0].uniqueId in node.tokens
  {
    ReplicaCount(ring, [node], key, numCopies);
    PlacementOwnedByNodes(ring, [node], key, Min(numCopies, 1));
    assert Placement.Placement(ring, key, Min(numCopies, 1))[0] in Placement.Placement(ring, key, Min(numCopies, 1));
  }
}
