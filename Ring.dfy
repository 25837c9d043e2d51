/** The hash ring derived from a cluster configuration: one entry per token of
    every node, ordered by token. */
module Ring {
  import opened Topology

  /** A ring position: the token, the position of its node in the
      configuration, and that node's address. */
  datatype RingEntry = RingEntry(token: Token, node: nat, addr: string)

  /** One element of a placement result: the token that selected the node
      (`unique_id`) and the node's address (`addr`). */
  datatype Replica = Replica(uniqueId: Token, addr: string)

  /** The entries contributed by node `n`, which sits at position `id`, in the order of its tokens. */
  function NodeEntries(n: Node, id: nat): seq<RingEntry>
  {
    seq(|n.tokens|, k requires 0 <= k < |n.tokens| => RingEntry(n.tokens[k], id, n.addr))
  }

  /** Every token of every node, node by node in configuration order. */
  function Entries(nodes: seq<Node>): seq<RingEntry>
  {
    if nodes == [] then []
    else Entries(nodes[..|nodes| - 1]) + NodeEntries(nodes[|nodes| - 1], |nodes| - 1)
  }

  ghost predicate Sorted(ring: seq<RingEntry>)
  {
    forall i, j :: 0 <= i < j < |ring| ==> ring[i].token <= ring[j].token
  }

  /** Sorted with no token twice: what a ring looks like when no two tokens collide. */
  ghost predicate StrictlySorted(ring: seq<RingEntry>)
  {
    forall i, j :: 0 <= i < j < |ring| ==> ring[i].token < ring[j].token
  }

  /** `ring` is a valid ring of `nodes`: all their entries, sorted ascending by token. */
  ghost predicate IsRingOf(ring: seq<RingEntry>, nodes: seq<Node>)
  {
    Sorted(ring) && multiset(ring) == multiset(Entries(nodes))
  }

  /** The nodes that own at least one of the entries. */
  function NodesOf(es: seq<RingEntry>): set<nat>
  {
    if es == [] then {} else {es[0].node} + NodesOf(es[1..])
  }

  /** The node positions 0 .. n-1 of a configuration with n nodes. */
  function NodeIds(n: nat): (ids: set<nat>)
    ensures forall i: nat :: i in ids <==> i < n
  {
    if n == 0 then {} else NodeIds(n - 1) + {n - 1}
  }

  lemma {:induction false} NodeIdsCount(n: nat)
    ensures |NodeIds(n)| == n
  {
    if n > 0 {
      var m: nat := n - 1;
      NodeIdsCount(m);
      assert m !in NodeIds(m);
      assert NodeIds(n) == NodeIds(m) + {m};
    }
  }

  /** An entry belongs to the ring of `nodes` exactly when it pairs a token of
      some node with that node's position and address. */
  lemma EntriesMembership(nodes: seq<Node>, e: RingEntry)
    ensures e in Entries(nodes) <==>
      exists i, k :: 0 <= i < |nodes| && 0 <= k < |nodes[i].tokens| &&
        e == RingEntry(nodes[i].tokens[k], i, nodes[i].addr)
  {
    if e in Entries(nodes) {
      EntryFromNode(nodes, e);
    } else {
      forall i, k | 0 <= i < |nodes| && 0 <= k < |nodes[i].tokens|
        ensures e != RingEntry(nodes[i].tokens[k], i, nodes[i].addr)
      {
        NodeEntryIn(nodes, i, k);
      }
    }
  }

  lemma {:induction false} EntryFromNode(nodes: seq<Node>, e: RingEntry)
    requires e in Entries(nodes)
    ensures exists i, k :: 0 <= i < |nodes| && 0 <= k < |nodes[i].tokens| &&
                           e == RingEntry(nodes[i].tokens[k], i, nodes[i].addr)
  {
    assert nodes != [];
    var m := |nodes| - 1;
    var init := nodes[..m];
    if e in Entries(init) {
      EntryFromNode(init, e);
      var i, k :| 0 <= i < |init| && 0 <= k < |init[i].tokens| &&
        e == RingEntry(init[i].tokens[k], i, init[i].addr);
      assert nodes[i] == init[i];
    } else {
      assert e in NodeEntries(nodes[m], m);
      var k :| 0 <= k < |nodes[m].tokens| && NodeEntries(nodes[m], m)[k] == e;
    }
  }

  lemma {:induction false} NodeEntryIn(nodes: seq<Node>, i: nat, k: nat)
    requires i < |nodes| && k < |nodes[i].tokens|
    ensures RingEntry(nodes[i].tokens[k], i, nodes[i].addr) in Entries(nodes)
  {
    var m := |nodes| - 1;
    if i < m {
      NodeEntryIn(nodes[..m], i, k);
      assert nodes[..m][i] == nodes[i];
    } else {
      assert NodeEntries(nodes[m], m)[k] == RingEntry(nodes[i].tokens[k], i, nodes[i].addr);
    }
  }

  lemma {:induction false} NodesOfMembership(es: seq<RingEntry>, n: nat)
    ensures n in NodesOf(es) <==> exists k :: 0 <= k < |es| && es[k].node == n
  {
    if es != [] {
      NodesOfMembership(es[1..], n);
      if n in NodesOf(es[1..]) {
        var k :| 0 <= k < |es[1..]| && es[1..][k].node == n;
        assert es[k + 1].node == n;
      }
      if k :| 0 <= k < |es| && es[k].node == n {
        if k > 0 {
          assert es[1..][k - 1].node == n;
        }
      }
    }
  }

  /** The nodes of a sequence depend only on which entries it holds, not on their order. */
  lemma NodesOfPermutation(a: seq<RingEntry>, b: seq<RingEntry>)
    requires multiset(a) == multiset(b)
    ensures NodesOf(a) == NodesOf(b)
  {
    forall n ensures n in NodesOf(a) ==> n in NodesOf(b) {
      NodesOfMembership(a, n);
      NodesOfMembership(b, n);
      if n in NodesOf(a) {
        var k :| 0 <= k < |a| && a[k].node == n;
        assert a[k] in multiset(b);
      }
    }
    forall n ensures n in NodesOf(b) ==> n in NodesOf(a) {
      NodesOfMembership(a, n);
      NodesOfMembership(b, n);
      if n in NodesOf(b) {
        var k :| 0 <= k < |b| && b[k].node == n;
        assert b[k] in multiset(a);
      }
    }
  }

  /** Only configured nodes appear on the ring, and when every node owns a
      token, every configured node does. */
  lemma NodesOfEntries(nodes: seq<Node>)
    ensures NodesOf(Entries(nodes)) <= NodeIds(|nodes|)
    ensures (forall i :: 0 <= i < |nodes| ==> nodes[i].tokens != []) ==>
      NodesOf(Entries(nodes)) == NodeIds(|nodes|)
  {
    var es := Entries(nodes);
    forall n | n in NodesOf(es) ensures n < |nodes| {
      NodesOfMembership(es, n);
      var j :| 0 <= j < |es| && es[j].node == n;
      EntriesMembership(nodes, es[j]);
    }
    if forall i :: 0 <= i < |nodes| ==> nodes[i].tokens != [] {
      forall i | 0 <= i < |nodes| ensures i in NodesOf(es) {
        var e := RingEntry(nodes[i].tokens[0], i, nodes[i].addr);
        EntriesMembership(nodes, e);
        var j :| 0 <= j < |es| && es[j] == e;
        NodesOfMembership(es, i);
      }
    }
  }

  /** A sorted ring is pinned down by its entries once no two tokens collide:
      any sorted arrangement of the same entries is that very sequence. */
  lemma {:induction false} SortedUnique(a: seq<RingEntry>, b: seq<RingEntry>)
    requires Sorted(a) && StrictlySorted(b)
    requires multiset(a) == multiset(b)
    ensures a == b
  {
    if a == [] {
      assert |b| == |multiset(b)| == 0;
    } else {
      SameHead(a, b);
      SameTails(a, b);
      SortedUnique(a[1..], b[1..]);
      assert a == [a[0]] + a[1..];
      assert b == [b[0]] + b[1..];
    }
  }

  /** Once the heads agree, the tails are again a sorted and a strictly sorted arrangement of the same entries. */
  lemma SameTails(a: seq<RingEntry>, b: seq<RingEntry>)
    requires Sorted(a) && StrictlySorted(b) && multiset(a) == multiset(b)
    requires |a| > 0 && |b| > 0 && a[0] == b[0]
    ensures Sorted(a[1..]) && StrictlySorted(b[1..])
    ensures multiset(a[1..]) == multiset(b[1..])
  {
    HeadSplit(a);
    HeadSplit(b);
  }

  lemma SameHead(a: seq<RingEntry>, b: seq<RingEntry>)
    requires Sorted(a) && StrictlySorted(b)
    requires multiset(a) == multiset(b) && |a| > 0
    ensures |b| > 0 && a[0] == b[0]
  {
    assert a[0] in multiset(b);
    var j :| 0 <= j < |b| && b[j] == a[0];
    assert b[0] in multiset(a);
    var i :| 0 <= i < |a| && a[i] == b[0];
    assert j == 0;
  }

  lemma HeadSplit(s: seq<RingEntry>)
    requires |s| > 0
    ensures multiset(s[1..]) == multiset(s) - multiset{s[0]}
  {
    assert s == [s[0]] + s[1..];
  }
}
