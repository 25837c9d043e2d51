/** The clusters of the replication scheme's unit tests and the replicas they
    expect. Each expected placement is proved for every valid ring of the
    test's nodes, on the specification functions, and for the scheme built
    through the configuration API the way the test builds it. */
module ReplicationSchemeTest {
  import opened Topology
  import opened Ring
  import opened Placement
  import opened ReplicationScheme

  const T1111: Token := 0x1111111111111111111111111111111111111111
  const T2222: Token := 0x2222222222222222222222222222222222222222
  const T3333: Token := 0x3333333333333333333333333333333333333333
  const T6666: Token := 0x6666666666666666666666666666666666666666
  const T7777: Token := 0x7777777777777777777777777777777777777777
  const T8888: Token := 0x8888888888888888888888888888888888888888
  const TAAAA: Token := 0xaaaaaaaaaaaaaaaaaaaaaaaaaaaaaaaaaaaaaaaa
  const TBBBB: Token := 0xbbbbbbbbbbbbbbbbbbbbbbbbbbbbbbbbbbbbbbbb
  const TDDDD: Token := 0xdddddddddddddddddddddddddddddddddddddddd
  const TFCFC: Token := 0xfcfcfcfcfcfcfcfcfcfcfcfcfcfcfcfcfcfcfcfc
  const TFDFD: Token := 0xfdfdfdfdfdfdfdfdfdfdfdfdfdfdfdfdfdfdfdfd

  const AddrA := "1.1.1.1:1234"
  const AddrB := "2.2.2.2:1234"
  const AddrC := "3.3.3.3:1234"
  const AddrD := "4.4.4.4:1234"

  /** Every test asks for three copies. */
  const NumCopies: nat := 3

  // ---------------------------------------------------------------------------
  // The test clusters and the rings they give

  /** nodeA of the one-node test, with a single token. */
  const SoleNodeA := Node("nodeA", AddrA, Some(Live), [TAAAA])
  const NodeA := Node("nodeA", AddrA, Some(Live), [TAAAA, T6666])
  const NodeB := Node("nodeB", AddrB, Some(Live), [T3333])
  const NodeC := Node("nodeC", AddrC, Some(Live), [TBBBB, TFCFC])
  const NodeD := Node("nodeD", AddrD, Some(Live), [T1111, T7777])

  const OneNode := [SoleNodeA]
  const TwoNodes := [NodeA, NodeB]
  const ThreeNodes := [NodeA, NodeB, NodeC]
  const FourNodes := [NodeA, NodeB, NodeC, NodeD]

  /** The ring entries of the nodes above: node positions 0 to 3 are nodeA to nodeD. */
  const A1 := RingEntry(TAAAA, 0, AddrA)
  const A2 := RingEntry(T6666, 0, AddrA)
  const B1 := RingEntry(T3333, 1, AddrB)
  const C1 := RingEntry(TBBBB, 2, AddrC)
  const C2 := RingEntry(TFCFC, 2, AddrC)
  const D1 := RingEntry(T1111, 3, AddrD)
  const D2 := RingEntry(T7777, 3, AddrD)

  const OneNodeRing := [A1]
  const TwoNodeRing := [B1, A2, A1]
  const ThreeNodeRing := [B1, A2, A1, C1, C2]
  const FourNodeRing := [D1, B1, A2, D2, A1, C1, C2]

  lemma {:induction false} AscendingIsStrictlySorted(s: seq<RingEntry>)
    requires forall i :: 0 < i < |s| ==> s[i - 1].token < s[i].token
    ensures StrictlySorted(s)
  {
    if |s| > 1 {
      var t := s[1..];
      assert forall i :: 0 < i < |t| ==> t[i - 1] == s[i] && t[i] == s[i + 1];
      AscendingIsStrictlySorted(t);
      forall i, j | 0 <= i < j < |s| ensures s[i].token < s[j].token {
        if i == 0 {
          if j > 1 {
            assert t[0].token < t[j - 1].token;
          }
        } else {
          assert t[i - 1].token < t[j - 1].token;
        }
      }
    }
  }

  lemma EntriesSnoc(nodes: seq<Node>, n: Node)
    ensures Entries(nodes + [n]) == Entries(nodes) + NodeEntries(n, |nodes|)
  {
    assert (nodes + [n])[..|nodes|] == nodes;
  }

  /** Listing the entries of `e` in the order `p`, each position once, lists the same entries. */
  lemma {:induction false} Reorder(e: seq<RingEntry>, r: seq<RingEntry>, p: seq<nat>)
    requires |e| == |r| == |p|
    requires forall k :: 0 <= k < |p| ==> p[k] < |e| && r[k] == e[p[k]]
    requires forall i, j :: 0 <= i < j < |p| ==> p[i] != p[j]
    ensures multiset(r) == multiset(e)
  {
    if |r| > 0 {
      var x := p[0];
      var e' := e[..x] + e[x + 1..];
      var p' := seq(|p| - 1, k requires 0 <= k < |p| - 1 => if p[k + 1] > x then p[k + 1] - 1 else p[k + 1]);
      forall k | 0 <= k < |p'|
        ensures p'[k] < |e'| && r[1..][k] == e'[p'[k]]
      {
        assert p[k + 1] != x;
      }
      forall i, j | 0 <= i < j < |p'|
        ensures p'[i] != p'[j]
      {
        assert p[i + 1] != p[j + 1];
        assert p[i + 1] != x && p[j + 1] != x;
      }
      Reorder(e', r[1..], p');
      assert e == e[..x] + [e[x]] + e[x + 1..];
      assert r == [r[0]] + r[1..];
    }
  }

  lemma OneNodeRingIs(ring: seq<RingEntry>)
    requires IsRingOf(ring, OneNode)
    ensures ring == OneNodeRing
  {
    EntriesSnoc([], SoleNodeA);
    assert NodeEntries(SoleNodeA, 0) == [A1];
    assert Entries(OneNode) == OneNodeRing;
    SortedUnique(ring, OneNodeRing);
  }

  lemma TwoNodeEntries()
    ensures Entries(TwoNodes) == [A1, A2, B1]
  {
    EntriesSnoc([], NodeA);
    EntriesSnoc([NodeA], NodeB);
    assert NodeEntries(NodeA, 0) == [A1, A2];
    assert NodeEntries(NodeB, 1) == [B1];
  }

  lemma TwoNodeRingPermutation()
    ensures multiset(TwoNodeRing) == multiset(Entries(TwoNodes))
  {
    TwoNodeEntries();
    Reorder([A1, A2, B1], TwoNodeRing, [2, 1, 0]);
  }

  lemma TwoNodeRingAscending()
    ensures StrictlySorted(TwoNodeRing)
  {
    AscendingIsStrictlySorted(TwoNodeRing);
  }

  lemma TwoNodeRingIs(ring: seq<RingEntry>)
    requires IsRingOf(ring, TwoNodes)
    ensures ring == TwoNodeRing
  {
    TwoNodeRingPermutation();
    TwoNodeRingAscending();
    SortedUnique(ring, TwoNodeRing);
  }

  lemma ThreeNodeEntries()
    ensures Entries(ThreeNodes) == [A1, A2, B1, C1, C2]
  {
    TwoNodeEntries();
    EntriesSnoc(TwoNodes, NodeC);
    assert ThreeNodes == TwoNodes + [NodeC];
    assert NodeEntries(NodeC, 2) == [C1, C2];
  }

  lemma ThreeNodeRingPermutation()
    ensures multiset(ThreeNodeRing) == multiset(Entries(ThreeNodes))
  {
    ThreeNodeEntries();
    Reorder([A1, A2, B1, C1, C2], ThreeNodeRing, [2, 1, 0, 3, 4]);
  }

  lemma ThreeNodeRingAscending()
    ensures StrictlySorted(ThreeNodeRing)
  {
    AscendingIsStrictlySorted(ThreeNodeRing);
  }

  lemma ThreeNodeRingIs(ring: seq<RingEntry>)
    requires IsRingOf(ring, ThreeNodes)
    ensures ring == ThreeNodeRing
  {
    ThreeNodeRingPermutation();
    ThreeNodeRingAscending();
    SortedUnique(ring, ThreeNodeRing);
  }

  lemma FourNodeEntries()
    ensures Entries(FourNodes) == [A1, A2, B1, C1, C2, D1, D2]
  {
    ThreeNodeEntries();
    EntriesSnoc(ThreeNodes, NodeD);
    assert FourNodes == ThreeNodes + [NodeD];
    assert NodeEntries(NodeD, 3) == [D1, D2];
  }

  lemma FourNodeRingPermutation()
    ensures multiset(FourNodeRing) == multiset(Entries(FourNodes))
  {
    FourNodeEntries();
    Reorder([A1, A2, B1, C1, C2, D1, D2], FourNodeRing, [5, 2, 1, 6, 0, 3, 4]);
  }

  lemma FourNodeRingAscending()
    ensures StrictlySorted(FourNodeRing)
  {
    AscendingIsStrictlySorted(FourNodeRing);
  }

  lemma FourNodeRingIs(ring: seq<RingEntry>)
    requires IsRingOf(ring, FourNodes)
    ensures ring == FourNodeRing
  {
    FourNodeRingPermutation();
    FourNodeRingAscending();
    SortedUnique(ring, FourNodeRing);
  }

  // ---------------------------------------------------------------------------
  // The walks on the test rings, one step per ring position visited

  lemma Take(e: RingEntry, rest: seq<RingEntry>, want: nat, chosen: set<nat>)
    requires want > 0 && e.node !in chosen
    ensures Walk([e] + rest, want, chosen) == [e] + Walk(rest, want - 1, chosen + {e.node})
  {
    assert ([e] + rest)[1..] == rest;
  }

  lemma Skip(e: RingEntry, rest: seq<RingEntry>, want: nat, chosen: set<nat>)
    requires want > 0 && e.node in chosen
    ensures Walk([e] + rest, want, chosen) == Walk(rest, want, chosen)
  {
    assert ([e] + rest)[1..] == rest;
  }

  lemma OneNodeRingAt1111()
    ensures Replicas(OneNodeRing, T1111, 1) == [Replica(TAAAA, AddrA)]
  {
    FirstAtLeastUnique(OneNodeRing, T1111, 0);
    assert Rotated(OneNodeRing, 0) == [A1] + [];
    Take(A1, [], 1, {});
  }

  lemma OneNodeRingAt8888()
    ensures Replicas(OneNodeRing, T8888, 1) == [Replica(TAAAA, AddrA)]
  {
    FirstAtLeastUnique(OneNodeRing, T8888, 0);
    assert Rotated(OneNodeRing, 0) == [A1] + [];
    Take(A1, [], 1, {});
  }

  lemma OneNodeRingAtDDDD()
    ensures Replicas(OneNodeRing, TDDDD, 1) == [Replica(TAAAA, AddrA)]
  {
    FirstAtLeastUnique(OneNodeRing, TDDDD, 1);
    assert Rotated(OneNodeRing, 0) == [A1] + [];
    Take(A1, [], 1, {});
  }

  lemma TwoNodeRingAt1111()
    ensures Replicas(TwoNodeRing, T1111, 2) == [Replica(T3333, AddrB), Replica(T6666, AddrA)]
  {
    FirstAtLeastUnique(TwoNodeRing, T1111, 0);
    assert Rotated(TwoNodeRing, 0) == [B1] + ([A2] + [A1]);
    Take(B1, [A2] + [A1], 2, {});
    Take(A2, [A1], 1, {} + {1});
  }

  lemma TwoNodeRingAt8888()
    ensures Replicas(TwoNodeRing, T8888, 2) == [Replica(TAAAA, AddrA), Replica(T3333, AddrB)]
  {
    FirstAtLeastUnique(TwoNodeRing, T8888, 2);
    assert Rotated(TwoNodeRing, 2) == [A1] + ([B1] + [A2]);
    Take(A1, [B1] + [A2], 2, {});
    Take(B1, [A2], 1, {} + {0});
  }

  lemma TwoNodeRingAtDDDD()
    ensures Replicas(TwoNodeRing, TDDDD, 2) == [Replica(T3333, AddrB), Replica(T6666, AddrA)]
  {
    FirstAtLeastUnique(TwoNodeRing, TDDDD, 3);
    assert Rotated(TwoNodeRing, 0) == [B1] + ([A2] + [A1]);
    Take(B1, [A2] + [A1], 2, {});
    Take(A2, [A1], 1, {} + {1});
  }

  lemma ThreeNodeRingAt1111()
    ensures Replicas(ThreeNodeRing, T1111, 3) == [Replica(T3333, AddrB), Replica(T6666, AddrA), Replica(TBBBB, AddrC)]
  {
    FirstAtLeastUnique(ThreeNodeRing, T1111, 0);
    assert Rotated(ThreeNodeRing, 0) == [B1] + ([A2] + ([A1] + ([C1] + [C2])));
    Take(B1, [A2] + ([A1] + ([C1] + [C2])), 3, {});
    Take(A2, [A1] + ([C1] + [C2]), 2, {} + {1});
    Skip(A1, [C1] + [C2], 1, {} + {1} + {0});
    Take(C1, [C2], 1, {} + {1} + {0});
  }

  lemma ThreeNodeRingAt8888()
    ensures Replicas(ThreeNodeRing, T8888, 3) == [Replica(TAAAA, AddrA), Replica(TBBBB, AddrC), Replica(T3333, AddrB)]
  {
    FirstAtLeastUnique(ThreeNodeRing, T8888, 2);
    assert Rotated(ThreeNodeRing, 2) == [A1] + ([C1] + ([C2] + ([B1] + [A2])));
    Take(A1, [C1] + ([C2] + ([B1] + [A2])), 3, {});
    Take(C1, [C2] + ([B1] + [A2]), 2, {} + {0});
    Skip(C2, [B1] + [A2], 1, {} + {0} + {2});
    Take(B1, [A2], 1, {} + {0} + {2});
  }

  lemma ThreeNodeRingAtDDDD()
    ensures Replicas(ThreeNodeRing, TDDDD, 3) == [Replica(TFCFC, AddrC), Replica(T3333, AddrB), Replica(T6666, AddrA)]
  {
    FirstAtLeastUnique(ThreeNodeRing, TDDDD, 4);
    assert Rotated(ThreeNodeRing, 4) == [C2] + ([B1] + ([A2] + [A1, C1]));
    Take(C2, [B1] + ([A2] + [A1, C1]), 3, {});
    Take(B1, [A2] + [A1, C1], 2, {} + {2});
    Take(A2, [A1, C1], 1, {} + {2} + {1});
  }

  lemma ThreeNodeRingAtFDFD()
    ensures Replicas(ThreeNodeRing, TFDFD, 3) == [Replica(T3333, AddrB), Replica(T6666, AddrA), Replica(TBBBB, AddrC)]
  {
    FirstAtLeastUnique(ThreeNodeRing, TFDFD, 5);
    assert Rotated(ThreeNodeRing, 0) == [B1] + ([A2] + ([A1] + ([C1] + [C2])));
    Take(B1, [A2] + ([A1] + ([C1] + [C2])), 3, {});
    Take(A2, [A1] + ([C1] + [C2]), 2, {} + {1});
    Skip(A1, [C1] + [C2], 1, {} + {1} + {0});
    Take(C1, [C2], 1, {} + {1} + {0});
  }

  lemma FourNodeRingAt1111()
    ensures Replicas(FourNodeRing, T1111, 3) == [Replica(T1111, AddrD), Replica(T3333, AddrB), Replica(T6666, AddrA)]
  {
    FirstAtLeastUnique(FourNodeRing, T1111, 0);
    assert Rotated(FourNodeRing, 0) == [D1] + ([B1] + ([A2] + [D2, A1, C1, C2]));
    Take(D1, [B1] + ([A2] + [D2, A1, C1, C2]), 3, {});
    Take(B1, [A2] + [D2, A1, C1, C2], 2, {} + {3});
    Take(A2, [D2, A1, C1, C2], 1, {} + {3} + {1});
  }

  lemma FourNodeRingAt8888()
    ensures Replicas(FourNodeRing, T8888, 3) == [Replica(TAAAA, AddrA), Replica(TBBBB, AddrC), Replica(T1111, AddrD)]
  {
    FirstAtLeastUnique(FourNodeRing, T8888, 4);
    assert Rotated(FourNodeRing, 4) == [A1] + ([C1] + ([C2] + ([D1] + [B1, A2, D2])));
    Take(A1, [C1] + ([C2] + ([D1] + [B1, A2, D2])), 3, {});
    Take(C1, [C2] + ([D1] + [B1, A2, D2]), 2, {} + {0});
    Skip(C2, [D1] + [B1, A2, D2], 1, {} + {0} + {2});
    Take(D1, [B1, A2, D2], 1, {} + {0} + {2});
  }

  lemma FourNodeRingAtDDDD()
    ensures Replicas(FourNodeRing, TDDDD, 3) == [Replica(TFCFC, AddrC), Replica(T1111, AddrD), Replica(T3333, AddrB)]
  {
    FirstAtLeastUnique(FourNodeRing, TDDDD, 6);
    assert Rotated(FourNodeRing, 6) == [C2] + ([D1] + ([B1] + [A2, D2, A1, C1]));
    Take(C2, [D1] + ([B1] + [A2, D2, A1, C1]), 3, {});
    Take(D1, [B1] + [A2, D2, A1, C1], 2, {} + {2});
    Take(B1, [A2, D2, A1, C1], 1, {} + {2} + {3});
  }

  lemma FourNodeRingAt2222()
    ensures Replicas(FourNodeRing, T2222, 3) == [Replica(T3333, AddrB), Replica(T6666, AddrA), Replica(T7777, AddrD)]
  {
    FirstAtLeastUnique(FourNodeRing, T2222, 1);
    assert Rotated(FourNodeRing, 1) == [B1] + ([A2] + ([D2] + [A1, C1, C2, D1]));
    Take(B1, [A2] + ([D2] + [A1, C1, C2, D1]), 3, {});
    Take(A2, [D2] + [A1, C1, C2, D1], 2, {} + {1});
    Take(D2, [A1, C1, C2, D1], 1, {} + {1} + {0});
  }

  // ---------------------------------------------------------------------------
  // The expected placements, for every valid ring of each test cluster

  lemma PlacementsWithOneNode(ring: seq<RingEntry>)
    requires IsRingOf(ring, OneNode)
    ensures Replicas(ring, T1111, Min(NumCopies, |OneNode|)) == [Replica(TAAAA, AddrA)]
    ensures Replicas(ring, T8888, Min(NumCopies, |OneNode|)) == [Replica(TAAAA, AddrA)]
    ensures Replicas(ring, TDDDD, Min(NumCopies, |OneNode|)) == [Replica(TAAAA, AddrA)]
  {
    OneNodeRingIs(ring);
    OneNodeRingAt1111();
    OneNodeRingAt8888();
    OneNodeRingAtDDDD();
  }

  lemma PlacementsWithTwoNodes(ring: seq<RingEntry>)
    requires IsRingOf(ring, TwoNodes)
    ensures Replicas(ring, T1111, Min(NumCopies, |TwoNodes|)) == [Replica(T3333, AddrB), Replica(T6666, AddrA)]
    ensures Replicas(ring, T8888, Min(NumCopies, |TwoNodes|)) == [Replica(TAAAA, AddrA), Replica(T3333, AddrB)]
    ensures Replicas(ring, TDDDD, Min(NumCopies, |TwoNodes|)) == [Replica(T3333, AddrB), Replica(T6666, AddrA)]
  {
    TwoNodeRingIs(ring);
    TwoNodeRingAt1111();
    TwoNodeRingAt8888();
    TwoNodeRingAtDDDD();
  }

  lemma PlacementsWithThreeNodes(ring: seq<RingEntry>)
    requires IsRingOf(ring, ThreeNodes)
    ensures Replicas(ring, T1111, Min(NumCopies, |ThreeNodes|))
      == [Replica(T3333, AddrB), Replica(T6666, AddrA), Replica(TBBBB, AddrC)]
    ensures Replicas(ring, T8888, Min(NumCopies, |ThreeNodes|))
      == [Replica(TAAAA, AddrA), Replica(TBBBB, AddrC), Replica(T3333, AddrB)]
    ensures Replicas(ring, TDDDD, Min(NumCopies, |ThreeNodes|))
      == [Replica(TFCFC, AddrC), Replica(T3333, AddrB), Replica(T6666, AddrA)]
    ensures Replicas(ring, TFDFD, Min(NumCopies, |ThreeNodes|))
      == [Replica(T3333, AddrB), Replica(T6666, AddrA), Replica(TBBBB, AddrC)]
  {
    ThreeNodeRingIs(ring);
    ThreeNodeRingAt1111();
    ThreeNodeRingAt8888();
    ThreeNodeRingAtDDDD();
    ThreeNodeRingAtFDFD();
  }

  lemma PlacementsWithFourNodes(ring: seq<RingEntry>)
    requires IsRingOf(ring, FourNodes)
    ensures Replicas(ring, T1111, Min(NumCopies, |FourNodes|))
      == [Replica(T1111, AddrD), Replica(T3333, AddrB), Replica(T6666, AddrA)]
    ensures Replicas(ring, T8888, Min(NumCopies, |FourNodes|))
      == [Replica(TAAAA, AddrA), Replica(TBBBB, AddrC), Replica(T1111, AddrD)]
    ensures Replicas(ring, TDDDD, Min(NumCopies, |FourNodes|))
      == [Replica(TFCFC, AddrC), Replica(T1111, AddrD), Replica(T3333, AddrB)]
    ensures Replicas(ring, T2222, Min(NumCopies, |FourNodes|))
      == [Replica(T3333, AddrB), Replica(T6666, AddrA), Replica(T7777, AddrD)]
  {
    FourNodeRingIs(ring);
    FourNodeRingAt1111();
    FourNodeRingAt8888();
    FourNodeRingAtDDDD();
    FourNodeRingAt2222();
  }

  // ---------------------------------------------------------------------------
  // The tests themselves: configure, build the scheme, ask for replicas

  /** Adds a live node with the given name, address and tokens, as each block of the tests does. */
  method AddLiveNode(cc: ClusterConfig, name: string, addr: string, tokens: seq<Token>)
    modifies cc
    ensures cc.nodes == old(cc.nodes) + [Node(name, addr, Some(Live), tokens)]
    ensures cc.numCopies == old(cc.numCopies)
  {
    var id := cc.AddDhtNode();
    cc.SetStatus(id, Live);
    cc.SetName(id, name);
    cc.SetAddr(id, addr);
    var k := 0;
    while k < |tokens|
      invariant 0 <= k <= |tokens| && |cc.nodes| == id + 1
      invariant cc.nodes == old(cc.nodes) + [Node(name, addr, Some(Live), tokens[..k])]
      invariant cc.numCopies == old(cc.numCopies)
    {
      cc.AddSha1Token(id, tokens[k]);
      assert tokens[..k] + [tokens[k]] == tokens[..k + 1];
      k := k + 1;
    }
    assert tokens[..k] == tokens;
  }

  method HostAssignmentWithoutNodes() returns (r: seq<Replica>)
    ensures r == []
  {
    var cc := new ClusterConfig();
    cc.SetDhtNumCopies(NumCopies);
    var scheme := new DhtReplicationScheme(cc);
    r := scheme.ReplicasFor(T1111);
  }

  method HostAssignmentWithOneNode() returns (r1: seq<Replica>, r8: seq<Replica>, rd: seq<Replica>)
    ensures r1 == [Replica(TAAAA, AddrA)]
    ensures r8 == [Replica(TAAAA, AddrA)]
    ensures rd == [Replica(TAAAA, AddrA)]
  {
    var cc := new ClusterConfig();
    cc.SetDhtNumCopies(NumCopies);
    AddLiveNode(cc, "nodeA", AddrA, [TAAAA]);
    assert cc.nodes == OneNode;
    var scheme := new DhtReplicationScheme(cc);
    PlacementsWithOneNode(scheme.ring[..]);
    r1 := scheme.ReplicasFor(T1111);
    r8 := scheme.ReplicasFor(T8888);
    rd := scheme.ReplicasFor(TDDDD);
  }

  method HostAssignmentWithTwoNodes() returns (r1: seq<Replica>, r8: seq<Replica>, rd: seq<Replica>)
    ensures r1 == [Replica(T3333, AddrB), Replica(T6666, AddrA)]
    ensures r8 == [Replica(TAAAA, AddrA), Replica(T3333, AddrB)]
    ensures rd == [Replica(T3333, AddrB), Replica(T6666, AddrA)]
  {
    var cc := new ClusterConfig();
    cc.SetDhtNumCopies(NumCopies);
    AddLiveNode(cc, "nodeA", AddrA, [TAAAA, T6666]);
    AddLiveNode(cc, "nodeB", AddrB, [T3333]);
    assert cc.nodes == TwoNodes;
    var scheme := new DhtReplicationScheme(cc);
    PlacementsWithTwoNodes(scheme.ring[..]);
    r1 := scheme.ReplicasFor(T1111);
    r8 := scheme.ReplicasFor(T8888);
    rd := scheme.ReplicasFor(TDDDD);
  }

  method HostAssignmentWithThreeNodes() returns (r1: seq<Replica>, r8: seq<Replica>, rd: seq<Replica>, rfd: seq<Replica>)
    ensures r1 == [Replica(T3333, AddrB), Replica(T6666, AddrA), Replica(TBBBB, AddrC)]
    ensures r8 == [Replica(TAAAA, AddrA), Replica(TBBBB, AddrC), Replica(T3333, AddrB)]
    ensures rd == [Replica(TFCFC, AddrC), Replica(T3333, AddrB), Replica(T6666, AddrA)]
    ensures rfd == [Replica(T3333, AddrB), Replica(T6666, AddrA), Replica(TBBBB, AddrC)]
  {
    var cc := new ClusterConfig();
    cc.SetDhtNumCopies(NumCopies);
    AddLiveNode(cc, "nodeA", AddrA, [TAAAA, T6666]);
    AddLiveNode(cc, "nodeB", AddrB, [T3333]);
    AddLiveNode(cc, "nodeC", AddrC, [TBBBB, TFCFC]);
    assert cc.nodes == ThreeNodes;
    var scheme := new DhtReplicationScheme(cc);
    PlacementsWithThreeNodes(scheme.ring[..]);
    r1 := scheme.ReplicasFor(T1111);
    r8 := scheme.ReplicasFor(T8888);
    rd := scheme.ReplicasFor(TDDDD);
    rfd := scheme.ReplicasFor(TFDFD);
  }

  method HostAssignmentWithFourNodes() returns (r1: seq<Replica>, r8: seq<Replica>, rd: seq<Replica>, r2: seq<Replica>)
    ensures r1 == [Replica(T1111, AddrD), Replica(T3333, AddrB), Replica(T6666, AddrA)]
    ensures r8 == [Replica(TAAAA, AddrA), Replica(TBBBB, AddrC), Replica(T1111, AddrD)]
    ensures rd == [Replica(TFCFC, AddrC), Replica(T1111, AddrD), Replica(T3333, AddrB)]
    ensures r2 == [Replica(T3333, AddrB), Replica(T6666, AddrA), Replica(T7777, AddrD)]
  {
    var cc := new ClusterConfig();
    cc.SetDhtNumCopies(NumCopies);
    AddLiveNode(cc, "nodeA", AddrA, [TAAAA, T6666]);
    AddLiveNode(cc, "nodeB", AddrB, [T3333]);
    AddLiveNode(cc, "nodeC", AddrC, [TBBBB, TFCFC]);
    AddLiveNode(cc, "nodeD", AddrD, [T1111, T7777]);
    assert cc.nodes == FourNodes;
    var scheme := new DhtReplicationScheme(cc);
    PlacementsWithFourNodes(scheme.ring[..]);
    r1 := scheme.ReplicasFor(T1111);
    r8 := scheme.ReplicasFor(T8888);
    rd := scheme.ReplicasFor(TDDDD);
    r2 := scheme.ReplicasFor(T2222);
  }
}
