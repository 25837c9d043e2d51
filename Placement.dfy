/** Replica placement on a sorted ring: for a key, start at the first token
    that is at least the key (wrapping to the smallest token when there is
    none), walk the ring once around, and take each node the first time one of
    its tokens is passed, until enough replicas are chosen. These are the
    specification functions the scheme's methods are proved against, and the
    properties of placement proved about them. */
module Placement {
  import opened Topology
  import opened Ring

  function Min(a: nat, b: nat): nat
  {
    if a <= b then a else b
  }

  /** The position of the first entry whose token is at least `key`, or
      `|ring|` when every token is smaller. On a sorted ring this is the lower bound of `key`. */
  function FirstAtLeast(ring: seq<RingEntry>, key: Token): (i: nat)
    ensures i <= |ring|
    ensures forall k :: 0 <= k < i ==> ring[k].token < key
    ensures i < |ring| ==> key <= ring[i].token
  {
    if ring == [] || key <= ring[0].token then 0 else 1 + FirstAtLeast(ring[1..], key)
  }

  /** The lower bound is the one position with only smaller tokens before it
      and, unless it is the end, a token at least `key` at it. */
  lemma FirstAtLeastUnique(ring: seq<RingEntry>, key: Token, i: nat)
    requires i <= |ring|
    requires forall k :: 0 <= k < i ==> ring[k].token < key
    requires i < |ring| ==> key <= ring[i].token
    ensures FirstAtLeast(ring, key) == i
  {
  }

  /** Where the walk for `key` begins: the lower bound of `key`, or position 0
      when `key` is above every token. */
  function StartIndex(ring: seq<RingEntry>, key: Token): (s: nat)
    ensures s <= |ring| && (ring != [] ==> s < |ring|)
    ensures s > 0 ==> key <= ring[s].token
  {
    var i := FirstAtLeast(ring, key);
    if i == |ring| then 0 else i
  }

  /** The ring read once around, starting at position `s`. */
  function Rotated(ring: seq<RingEntry>, s: nat): seq<RingEntry>
    requires s <= |ring|
  {
    ring[s..] + ring[..s]
  }

  /** How far clockwise token `t` lies from `key` on the ring of 2^160 positions. */
  function Distance(key: Token, t: Token): nat
  {
    if key <= t then t - key else TokenLimit - key + t
  }

  /** The walk over the entries `es`: an entry is taken when its node is not
      yet chosen, and the walk ends once `want` entries are taken or the
      entries run out. */
  function Walk(es: seq<RingEntry>, want: nat, chosen: set<nat>): (r: seq<RingEntry>)
    ensures |r| <= want && |r| <= |es|
    decreases |es|
  {
    if es == [] || want == 0 then []
    else if es[0].node in chosen then Walk(es[1..], want, chosen)
    else [es[0]] + Walk(es[1..], want - 1, chosen + {es[0].node})
  }

  /** The position of the first entry of node `n`. */
  function FirstOf(es: seq<RingEntry>, n: nat): (i: nat)
    requires n in NodesOf(es)
    ensures i < |es| && es[i].node == n
    ensures forall j :: 0 <= j < i ==> es[j].node != n
  {
    if es[0].node == n then 0 else 1 + FirstOf(es[1..], n)
  }

  /** The ring entries chosen for `key`, in walk order, when `want` replicas are wanted. */
  function Placement(ring: seq<RingEntry>, key: Token, want: nat): seq<RingEntry>
  {
    if ring == [] then [] else Walk(Rotated(ring, StartIndex(ring, key)), want, {})
  }

  function ToReplicas(p: seq<RingEntry>): seq<Replica>
  {
    seq(|p|, k requires 0 <= k < |p| => Replica(p[k].token, p[k].addr))
  }

  /** The replicas reported for `key`: each chosen entry's token and address. */
  function Replicas(ring: seq<RingEntry>, key: Token, want: nat): seq<Replica>
  {
    ToReplicas(Placement(ring, key, want))
  }

  /** Position `i` of the ring read from `s` is `s + i`, counted once around. */
  lemma RotatedIndex(ring: seq<RingEntry>, s: nat, i: nat)
    requires s <= |ring| && i < |ring|
    ensures Rotated(ring, s)[i] == if s + i < |ring| then ring[s + i] else ring[s + i - |ring|]
  {
  }

  /** Position `i` of the rotated ring is position `(s + i) mod |ring|` of the ring. */
  lemma RotatedAt(ring: seq<RingEntry>, s: nat, i: nat)
    requires s < |ring| && i < |ring|
    ensures Rotated(ring, s)[i] == ring[(s + i) % |ring|]
  {
    RotatedIndex(ring, s, i);
    WrapOnce(s + i, |ring|);
  }

  lemma WrapOnce(x: nat, n: nat)
    requires 0 < n && x < 2 * n
    ensures x % n == if x < n then x else x - n
  {
    if x >= n {
      assert x == (x - n) + n;
    }
  }

  lemma ToReplicasAppend(p: seq<RingEntry>, e: RingEntry)
    ensures ToReplicas(p + [e]) == ToReplicas(p) + [Replica(e.token, e.addr)]
  {
  }

  // ---------------------------------------------------------------------------
  // The walk

  /** One step of the walk, from position `i` of `es`. */
  lemma WalkStep(es: seq<RingEntry>, i: nat, want: nat, chosen: set<nat>)
    requires i < |es| && want > 0
    ensures Walk(es[i..], want, chosen) ==
      if es[i].node in chosen then Walk(es[i + 1..], want, chosen)
      else [es[i]] + Walk(es[i + 1..], want - 1, chosen + {es[i].node})
  {
    assert es[i..][0] == es[i] && es[i..][1..] == es[i + 1..];
  }

  lemma FirstOfTail(es: seq<RingEntry>, n: nat)
    requires es != [] && es[0].node != n && n in NodesOf(es[1..])
    ensures n in NodesOf(es) && FirstOf(es, n) == 1 + FirstOf(es[1..], n)
  {
  }

  /** Each entry of `r` is the first entry of its node in `es`, of a node not in `chosen`. */
  ghost predicate FirstEntriesOnly(es: seq<RingEntry>, chosen: set<nat>, r: seq<RingEntry>)
  {
    forall k :: 0 <= k < |r| ==>
      r[k].node in NodesOf(es) && r[k].node !in chosen && r[k] == es[FirstOf(es, r[k].node)]
  }

  /** The nodes of `r` come in the order of their first entries in `es`. */
  ghost predicate InFirstEntryOrder(es: seq<RingEntry>, r: seq<RingEntry>)
  {
    forall k, l :: 0 <= k < l < |r| ==>
      r[k].node in NodesOf(es) && r[l].node in NodesOf(es) &&
      FirstOf(es, r[k].node) < FirstOf(es, r[l].node)
  }

  /** No entry of `r` belongs to node `n`. */
  ghost predicate Misses(r: seq<RingEntry>, n: nat)
  {
    forall k :: 0 <= k < |r| ==> r[k].node != n
  }

  /** A node of `es` outside `chosen` that `r` leaves out is left out only
      because `r` already has `want` entries, all met before that node's first entry. */
  ghost predicate SkipsOnlyFartherNodes(es: seq<RingEntry>, want: nat, chosen: set<nat>, r: seq<RingEntry>)
  {
    forall n :: n in NodesOf(es) && n !in chosen && Misses(r, n) ==>
      |r| == want &&
      forall k :: 0 <= k < |r| ==> r[k].node in NodesOf(es) && FirstOf(es, r[k].node) < FirstOf(es, n)
  }

  /** The walk continued from position `i` after `taken` was taken so far:
      one more step either skips `es[i]` or takes it. */
  lemma WalkAdvance(es: seq<RingEntry>, i: nat, want: nat, taken: seq<RingEntry>, chosen: set<nat>,
                    whole: seq<RingEntry>)
    requires i < |es| && |taken| < want
    requires taken + Walk(es[i..], want - |taken|, chosen) == whole
    ensures es[i].node in chosen ==> taken + Walk(es[i + 1..], want - |taken|, chosen) == whole
    ensures es[i].node !in chosen ==>
      (taken + [es[i]]) + Walk(es[i + 1..], want - |taken + [es[i]]|, chosen + {es[i].node}) == whole
  {
    WalkStep(es, i, want - |taken|, chosen);
    if es[i].node !in chosen {
      var rest := Walk(es[i + 1..], want - |taken| - 1, chosen + {es[i].node});
      assert taken + ([es[i]] + rest) == (taken + [es[i]]) + rest;
    }
  }

  /** Every entry the walk takes is the first entry of its node, and no node
      taken was chosen before. */
  lemma {:induction false} WalkTakesFirstEntries(es: seq<RingEntry>, want: nat, chosen: set<nat>)
    ensures FirstEntriesOnly(es, chosen, Walk(es, want, chosen))
  {
    if es != [] && want != 0 {
      var x, r := es[0], Walk(es, want, chosen);
      if x.node in chosen {
        WalkTakesFirstEntries(es[1..], want, chosen);
        assert r == Walk(es[1..], want, chosen);
        forall k | 0 <= k < |r|
          ensures r[k].node in NodesOf(es) && r[k].node !in chosen && r[k] == es[FirstOf(es, r[k].node)]
        {
          FirstOfTail(es, r[k].node);
        }
      } else {
        var rest := Walk(es[1..], want - 1, chosen + {x.node});
        WalkTakesFirstEntries(es[1..], want - 1, chosen + {x.node});
        assert r == [x] + rest;
        forall k | 0 <= k < |r|
          ensures r[k].node in NodesOf(es) && r[k].node !in chosen && r[k] == es[FirstOf(es, r[k].node)]
        {
          if k > 0 {
            assert r[k] == rest[k - 1];
            FirstOfTail(es, r[k].node);
          } else {
            assert r[0] == x && x.node in NodesOf(es);
          }
        }
      }
    }
  }

  /** The walk takes nodes in the order in which their first entries occur. */
  lemma {:induction false} WalkInOrder(es: seq<RingEntry>, want: nat, chosen: set<nat>)
    ensures InFirstEntryOrder(es, Walk(es, want, chosen))
  {
    if es != [] && want != 0 {
      if es[0].node in chosen {
        WalkInOrder(es[1..], want, chosen);
        WalkTakesFirstEntries(es[1..], want, chosen);
        InOrderAfterSkip(es, chosen, Walk(es[1..], want, chosen));
        assert Walk(es, want, chosen) == Walk(es[1..], want, chosen);
      } else {
        WalkInOrder(es[1..], want - 1, chosen + {es[0].node});
        WalkTakesFirstEntries(es[1..], want - 1, chosen + {es[0].node});
        InOrderAfterTake(es, chosen + {es[0].node}, Walk(es[1..], want - 1, chosen + {es[0].node}));
      }
    }
  }

  /** The inductive step of WalkInOrder when the first entry's node is already chosen:
      entries first found in the rest of `es`, none of them of that node, keep their order. */
  lemma InOrderAfterSkip(es: seq<RingEntry>, chosen: set<nat>, r: seq<RingEntry>)
    requires es != [] && es[0].node in chosen
    requires InFirstEntryOrder(es[1..], r)
    requires FirstEntriesOnly(es[1..], chosen, r)
    ensures InFirstEntryOrder(es, r)
  {
    forall k | 0 <= k < |r|
      ensures r[k].node in NodesOf(es) && FirstOf(es, r[k].node) == 1 + FirstOf(es[1..], r[k].node)
    {
      FirstOfTail(es, r[k].node);
    }
  }

  /** The inductive step of WalkInOrder when the first entry's node is taken: that entry,
      followed by entries first found in the rest of `es` of other nodes, is in order. */
  lemma InOrderAfterTake(es: seq<RingEntry>, chosen: set<nat>, rest: seq<RingEntry>)
    requires es != [] && es[0].node in chosen
    requires InFirstEntryOrder(es[1..], rest)
    requires FirstEntriesOnly(es[1..], chosen, rest)
    ensures InFirstEntryOrder(es, [es[0]] + rest)
  {
    var r := [es[0]] + rest;
    InOrderAfterSkip(es, chosen, rest);
    assert es[0].node in NodesOf(es) && FirstOf(es, es[0].node) == 0;
    forall k, l | 0 <= k < l < |r|
      ensures r[k].node in NodesOf(es) && r[l].node in NodesOf(es) &&
        FirstOf(es, r[k].node) < FirstOf(es, r[l].node)
    {
      assert r[l] == rest[l - 1];
      if k > 0 {
        assert r[k] == rest[k - 1];
      }
    }
  }

  /** A node passed over by the walk was passed over only because `want`
      entries were taken, all of them at positions before the node's first entry. */
  lemma {:induction false} WalkTakesNearestNodes(es: seq<RingEntry>, want: nat, chosen: set<nat>)
    ensures SkipsOnlyFartherNodes(es, want, chosen, Walk(es, want, chosen))
  {
    if es != [] && want != 0 {
      if es[0].node in chosen {
        WalkTakesNearestNodes(es[1..], want, chosen);
        WalkTakesFirstEntries(es[1..], want, chosen);
        NearestAfterSkip(es, want, chosen);
      } else {
        WalkTakesNearestNodes(es[1..], want - 1, chosen + {es[0].node});
        WalkTakesFirstEntries(es[1..], want - 1, chosen + {es[0].node});
        NearestAfterTake(es, want, chosen);
      }
    }
  }

  /** The inductive step of WalkTakesNearestNodes when the first entry's node is already chosen. */
  lemma NearestAfterSkip(es: seq<RingEntry>, want: nat, chosen: set<nat>)
    requires es != [] && want != 0 && es[0].node in chosen
    requires SkipsOnlyFartherNodes(es[1..], want, chosen, Walk(es[1..], want, chosen))
    requires FirstEntriesOnly(es[1..], chosen, Walk(es[1..], want, chosen))
    ensures SkipsOnlyFartherNodes(es, want, chosen, Walk(es, want, chosen))
  {
    var r := Walk(es, want, chosen);
    assert r == Walk(es[1..], want, chosen);
    forall n | n in NodesOf(es) && n !in chosen && Misses(r, n)
      ensures |r| == want &&
        forall k :: 0 <= k < |r| ==> r[k].node in NodesOf(es) && FirstOf(es, r[k].node) < FirstOf(es, n)
    {
      FirstOfTail(es, n);
      forall k | 0 <= k < |r| ensures r[k].node in NodesOf(es) && FirstOf(es, r[k].node) < FirstOf(es, n) {
        FirstOfTail(es, r[k].node);
      }
    }
  }

  /** The inductive step of WalkTakesNearestNodes when the first entry's node is taken. */
  lemma NearestAfterTake(es: seq<RingEntry>, want: nat, chosen: set<nat>)
    requires es != [] && want != 0 && es[0].node !in chosen
    requires var c := chosen + {es[0].node};
      SkipsOnlyFartherNodes(es[1..], want - 1, c, Walk(es[1..], want - 1, c)) &&
      FirstEntriesOnly(es[1..], c, Walk(es[1..], want - 1, c))
    ensures SkipsOnlyFartherNodes(es, want, chosen, Walk(es, want, chosen))
  {
    var r := Walk(es, want, chosen);
    forall n | n in NodesOf(es) && n !in chosen && Misses(r, n)
      ensures |r| == want &&
        forall k :: 0 <= k < |r| ==> r[k].node in NodesOf(es) && FirstOf(es, r[k].node) < FirstOf(es, n)
    {
      NearestAfterTakeAt(es, want, chosen, n);
    }
  }

  lemma NearestAfterTakeAt(es: seq<RingEntry>, want: nat, chosen: set<nat>, n: nat)
    requires es != [] && want != 0 && es[0].node !in chosen
    requires SkipsOnlyFartherNodes(es[1..], want - 1, chosen + {es[0].node}, Walk(es[1..], want - 1, chosen + {es[0].node}))
    requires FirstEntriesOnly(es[1..], chosen + {es[0].node}, Walk(es[1..], want - 1, chosen + {es[0].node}))
    requires n in NodesOf(es) && n !in chosen && Misses(Walk(es, want, chosen), n)
    ensures |Walk(es, want, chosen)| == want
    ensures forall k :: 0 <= k < |Walk(es, want, chosen)| ==>
      Walk(es, want, chosen)[k].node in NodesOf(es) && FirstOf(es, Walk(es, want, chosen)[k].node) < FirstOf(es, n)
  {
    var x, r := es[0], Walk(es, want, chosen);
    var c := chosen + {x.node};
    var rest := Walk(es[1..], want - 1, c);
    assert r == [x] + rest;
    assert r[0].node != n;
    forall k | 0 <= k < |rest| ensures rest[k].node != n {
      assert rest[k] == r[k + 1];
    }
    FirstOfTail(es, n);
    forall k | 0 <= k < |r| ensures r[k].node in NodesOf(es) && FirstOf(es, r[k].node) < FirstOf(es, n) {
      if k > 0 {
        assert r[k] == rest[k - 1];
        FirstOfTail(es, r[k].node);
      } else {
        assert r[0] == x && x.node in NodesOf(es);
      }
    }
  }

  /** The walk takes as many entries as wanted, or one per unchosen node when there are fewer. */
  lemma {:induction false} WalkLength(es: seq<RingEntry>, want: nat, chosen: set<nat>)
    ensures |Walk(es, want, chosen)| == Min(want, |NodesOf(es) - chosen|)
  {
    if es != [] && want != 0 {
      if es[0].node in chosen {
        WalkLength(es[1..], want, chosen);
        UnchosenAfterSkip(es, chosen);
        assert Walk(es, want, chosen) == Walk(es[1..], want, chosen);
      } else {
        WalkLength(es[1..], want - 1, chosen + {es[0].node});
        UnchosenAfterTake(es, chosen);
        assert Walk(es, want, chosen) == [es[0]] + Walk(es[1..], want - 1, chosen + {es[0].node});
      }
    }
  }

  /** Passing over an entry of a chosen node leaves the unchosen nodes as they were. */
  lemma UnchosenAfterSkip(es: seq<RingEntry>, chosen: set<nat>)
    requires es != [] && es[0].node in chosen
    ensures NodesOf(es) - chosen == NodesOf(es[1..]) - chosen
  {
  }

  /** Taking an entry of an unchosen node leaves one unchosen node fewer. */
  lemma UnchosenAfterTake(es: seq<RingEntry>, chosen: set<nat>)
    requires es != [] && es[0].node !in chosen
    ensures |NodesOf(es) - chosen| == 1 + |NodesOf(es[1..]) - (chosen + {es[0].node})|
  {
    var rest := NodesOf(es[1..]) - (chosen + {es[0].node});
    assert NodesOf(es) - chosen == rest + {es[0].node};
    assert es[0].node !in rest;
  }

  // ---------------------------------------------------------------------------
  // The rotated ring

  lemma RotatedPermutation(ring: seq<RingEntry>, s: nat)
    requires s <= |ring|
    ensures multiset(Rotated(ring, s)) == multiset(ring)
    ensures forall e :: e in Rotated(ring, s) <==> e in ring
  {
    assert ring == ring[..s] + ring[s..];
    forall e ensures e in Rotated(ring, s) <==> e in ring {
      assert e in Rotated(ring, s) <==> e in multiset(Rotated(ring, s));
    }
  }

  lemma NodesOfConcat(a: seq<RingEntry>, b: seq<RingEntry>)
    ensures NodesOf(a + b) == NodesOf(a) + NodesOf(b)
  {
    if a != [] {
      assert (a + b)[1..] == a[1..] + b;
      NodesOfConcat(a[1..], b);
    } else {
      assert a + b == b;
    }
  }

  lemma NodesOfRotated(ring: seq<RingEntry>, s: nat)
    requires s <= |ring|
    ensures NodesOf(Rotated(ring, s)) == NodesOf(ring)
  {
    var front, back := ring[..s], ring[s..];
    assert ring == front + back;
    NodesOfConcat(front, back);
    NodesOfConcat(back, front);
  }

  /** `es` is in order of clockwise distance from `key`. */
  ghost predicate Clockwise(key: Token, es: seq<RingEntry>)
  {
    forall i, j :: 0 <= i < j < |es| ==> Distance(key, es[i].token) <= Distance(key, es[j].token)
  }

  /** Each entry of `r` is, among the entries of `es` of the same node, one nearest to `key` clockwise. */
  ghost predicate NearestTokens(key: Token, es: seq<RingEntry>, r: seq<RingEntry>)
  {
    forall k, e :: 0 <= k < |r| && e in es && e.node == r[k].node ==>
      Distance(key, r[k].token) <= Distance(key, e.token)
  }

  /** A node of `es` missing from `r` is missing only because `r` has `want`
      entries, none farther from `key` than that node's entries. */
  ghost predicate NearestNodes(key: Token, es: seq<RingEntry>, want: nat, r: seq<RingEntry>)
  {
    forall e :: e in es && Misses(r, e.node) ==>
      |r| == want && forall k :: 0 <= k < |r| ==> Distance(key, r[k].token) <= Distance(key, e.token)
  }

  ghost predicate DistinctNodes(r: seq<RingEntry>)
  {
    forall k, l :: 0 <= k < l < |r| ==> r[k].node != r[l].node
  }

  /** Read from the start of the walk for `key`, a sorted ring is in order of
      clockwise distance from `key`. */
  lemma RotatedByDistance(ring: seq<RingEntry>, key: Token)
    requires Sorted(ring) && ring != []
    ensures Clockwise(key, Rotated(ring, StartIndex(ring, key)))
  {
    var n := |ring|;
    var s := StartIndex(ring, key);
    var rot := Rotated(ring, s);
    forall i, j | 0 <= i < j < |rot|
      ensures Distance(key, rot[i].token) <= Distance(key, rot[j].token)
    {
      RotatedIndex(ring, s, i);
      RotatedIndex(ring, s, j);
    }
  }

  /** Walking entries in clockwise order keeps them in clockwise order. */
  lemma WalkClockwise(es: seq<RingEntry>, want: nat, key: Token)
    requires Clockwise(key, es)
    ensures Clockwise(key, Walk(es, want, {}))
  {
    var r := Walk(es, want, {});
    WalkInOrder(es, want, {});
    WalkTakesFirstEntries(es, want, {});
    forall k, l | 0 <= k < l < |r| ensures Distance(key, r[k].token) <= Distance(key, r[l].token) {
      assert r[k] == es[FirstOf(es, r[k].node)] && r[l] == es[FirstOf(es, r[l].node)];
    }
  }

  /** Walking entries in clockwise order, each node is taken at its nearest entry. */
  lemma WalkNearestTokens(es: seq<RingEntry>, want: nat, key: Token)
    requires Clockwise(key, es)
    ensures NearestTokens(key, es, Walk(es, want, {}))
  {
    var r := Walk(es, want, {});
    WalkTakesFirstEntries(es, want, {});
    forall k, e | 0 <= k < |r| && e in es && e.node == r[k].node
      ensures Distance(key, r[k].token) <= Distance(key, e.token)
    {
      var j :| 0 <= j < |es| && es[j] == e;
      var f := FirstOf(es, r[k].node);
      assert r[k] == es[f] && f <= j;
    }
  }

  /** Walking entries in clockwise order, the nodes taken are the nearest ones. */
  lemma WalkNearestNodes(es: seq<RingEntry>, want: nat, key: Token)
    requires Clockwise(key, es)
    ensures NearestNodes(key, es, want, Walk(es, want, {}))
  {
    var r := Walk(es, want, {});
    WalkTakesFirstEntries(es, want, {});
    WalkTakesNearestNodes(es, want, {});
    forall e | e in es && Misses(r, e.node)
      ensures |r| == want && forall k :: 0 <= k < |r| ==> Distance(key, r[k].token) <= Distance(key, e.token)
    {
      var j :| 0 <= j < |es| && es[j] == e;
      NodesOfMembership(es, e.node);
      var f := FirstOf(es, e.node);
      assert f <= j;
      forall k | 0 <= k < |r| ensures Distance(key, r[k].token) <= Distance(key, e.token) {
        assert r[k] == es[FirstOf(es, r[k].node)] && FirstOf(es, r[k].node) < f;
      }
    }
  }

  // ---------------------------------------------------------------------------
  // Properties of placement

  /** Every chosen entry is an entry of the ring, and no more are chosen than wanted. */
  lemma PlacementFromRing(ring: seq<RingEntry>, key: Token, want: nat)
    ensures |Placement(ring, key, want)| <= want
    ensures forall e :: e in Placement(ring, key, want) ==> e in ring
  {
    if ring != [] {
      var rot := Rotated(ring, StartIndex(ring, key));
      RotatedPermutation(ring, StartIndex(ring, key));
      WalkTakesFirstEntries(rot, want, {});
    }
  }

  /** No node is chosen twice. */
  lemma PlacementDistinctNodes(ring: seq<RingEntry>, key: Token, want: nat)
    ensures DistinctNodes(Placement(ring, key, want))
  {
    if ring != [] {
      WalkInOrder(Rotated(ring, StartIndex(ring, key)), want, {});
    }
  }

  /** As many replicas as wanted, or one per node on the ring when there are fewer nodes. */
  lemma PlacementLength(ring: seq<RingEntry>, key: Token, want: nat)
    ensures |Placement(ring, key, want)| == Min(want, |NodesOf(ring)|)
  {
    if ring != [] {
      var s := StartIndex(ring, key);
      WalkLength(Rotated(ring, s), want, {});
      NodesOfRotated(ring, s);
    }
  }

  /** The first replica is the ring's first token at or above the key (equal counts). */
  lemma PlacementStartsAtKey(ring: seq<RingEntry>, key: Token, want: nat)
    requires Sorted(ring) && want > 0
    requires exists e :: e in ring && key <= e.token
    ensures |Placement(ring, key, want)| > 0
    ensures key <= Placement(ring, key, want)[0].token
    ensures forall e :: e in ring && key <= e.token ==> Placement(ring, key, want)[0].token <= e.token
  {
    var e :| e in ring && key <= e.token;
    var s := FirstAtLeast(ring, key);
    assert s < |ring| && StartIndex(ring, key) == s;
    var rot := Rotated(ring, s);
    assert rot[0] == ring[s];
    WalkStep(rot, 0, want, {});
    assert rot[0..] == rot;
    forall e | e in ring && key <= e.token ensures ring[s].token <= e.token {
      var j :| 0 <= j < |ring| && ring[j] == e;
    }
  }

  /** A key above every token wraps around: the first replica is the ring's smallest token. */
  lemma PlacementWrapsAround(ring: seq<RingEntry>, key: Token, want: nat)
    requires Sorted(ring) && ring != [] && want > 0
    requires forall e :: e in ring ==> e.token < key
    ensures |Placement(ring, key, want)| > 0 && Placement(ring, key, want)[0] == ring[0]
    ensures forall e :: e in ring ==> Placement(ring, key, want)[0].token <= e.token
  {
    assert FirstAtLeast(ring, key) == |ring|;
    assert Rotated(ring, 0)[0] == ring[0];
  }

  /** Replicas come in clockwise order from the key, not in the order nodes were configured. */
  lemma PlacementClockwiseOrder(ring: seq<RingEntry>, key: Token, want: nat)
    requires Sorted(ring)
    ensures Clockwise(key, Placement(ring, key, want))
  {
    if ring != [] {
      RotatedByDistance(ring, key);
      WalkClockwise(Rotated(ring, StartIndex(ring, key)), want, key);
    }
  }

  /** A replica's id is the token of its node that lies nearest the key clockwise:
      the node's token that selected it, not a fixed per-node id. */
  lemma PlacementNearestTokens(ring: seq<RingEntry>, key: Token, want: nat)
    requires Sorted(ring)
    ensures NearestTokens(key, ring, Placement(ring, key, want))
  {
    if ring != [] {
      var rot := Rotated(ring, StartIndex(ring, key));
      RotatedByDistance(ring, key);
      RotatedPermutation(ring, StartIndex(ring, key));
      WalkNearestTokens(rot, want, key);
    }
  }

  /** A node on the ring that is not chosen lies no nearer the key than any
      chosen replica, and is left out only because enough replicas were chosen. */
  lemma PlacementNearestNodes(ring: seq<RingEntry>, key: Token, want: nat)
    requires Sorted(ring)
    ensures NearestNodes(key, ring, want, Placement(ring, key, want))
  {
    if ring != [] {
      var rot := Rotated(ring, StartIndex(ring, key));
      RotatedByDistance(ring, key);
      RotatedPermutation(ring, StartIndex(ring, key));
      WalkNearestNodes(rot, want, key);
    }
  }
}
