# DHT replica placement (EventQL `DHTReplicationScheme`)

This project models how EventQL's `DHTReplicationScheme` decides which storage
nodes hold a key. A cluster configuration (`ClusterConfig`) holds the number of
copies wanted (`dht_num_copies`) and a list of DHT nodes. Each node has a name,
an address, a status and one or more SHA-1 ring tokens. The scheme is built from
a configuration. It collects every token of every node into a ring sorted by
token. `replicasFor(key)` does the following:

- It starts at the first ring token that is at least the key. If every token is
  smaller than the key, it wraps around to the smallest token.
- It walks the ring once around.
- It reports a replica (the token that selected the node, and the node's
  address) for each node the first time one of its tokens is passed.
- It stops after min(number of copies, number of nodes) replicas.

The behaviour is the one fixed by the unit tests in
`src/eventql/db/ReplicationScheme_test.cc`. The scheme's own header and
implementation (`ReplicationScheme.h`/`.cc`) are not part of this model. Every
rule below is read off the expected results of those tests, and every expected
result is proved.

The files:

- `Topology.dfy`: tokens (naturals below 2^160), nodes, and the mutable
  `ClusterConfig` class with the setters the tests call.
- `Ring.dfy`: ring entries, the entries a configuration contributes, sortedness,
  and facts about which nodes a ring holds.
- `Placement.dfy`: the placement specification.
  - `Walk` walks the ring once around, and `Placement`/`Replicas` start it at
    the right position.
  - Its properties are proved against an independent reading: clockwise
    distance from the key on the ring of 2^160 positions.
- `ReplicationScheme.dfy`: the `DhtReplicationScheme` class.
  - Its constructor collects the entries and insertion-sorts them in an array.
  - `LowerBound` is a binary search.
  - `ReplicasFor` and `WalkRing` are the walk loop. It tracks the set of chosen
    nodes and is proved equal to the specification.
  - The module also holds the configuration-level properties.
- `ReplicationSchemeTest.dfy`: the five test cases.
  - Each test configuration's ring is pinned down.
  - Every expected result is proved for that ring.
  - Each test is replayed as a method that builds the configuration and calls
    the scheme.

## Model

| member | source | states |
|---|---|---|
| Topology.ClusterConfig.constructor | src/eventql/db/ReplicationScheme_test.cc:34 | a new configuration has no nodes and zero copies |
| Topology.ClusterConfig.SetDhtNumCopies | src/eventql/db/ReplicationScheme_test.cc:35 | sets the number of copies and leaves the nodes unchanged |
| Topology.ClusterConfig.AddDhtNode | src/eventql/db/ReplicationScheme_test.cc:52 | appends an empty node and returns its position, leaving the others unchanged |
| Topology.ClusterConfig.SetStatus | src/eventql/db/ReplicationScheme_test.cc:53 | only that node's status changes |
| Topology.ClusterConfig.SetName | src/eventql/db/ReplicationScheme_test.cc:54 | only that node's name changes |
| Topology.ClusterConfig.SetAddr | src/eventql/db/ReplicationScheme_test.cc:55 | only that node's address changes |
| Topology.ClusterConfig.AddSha1Token | src/eventql/db/ReplicationScheme_test.cc:104-105 | appends the token to that node's tokens; nothing else changes |
| ReplicationScheme.CollectEntries | src/eventql/db/ReplicationScheme_test.cc:117 | collects exactly the entries of every token of every node, node by node |
| ReplicationScheme.SortRing | src/eventql/db/ReplicationScheme_test.cc:117 | the ring array ends up sorted by token and is a permutation of what it held |
| ReplicationScheme.InsertLast | src/eventql/db/ReplicationScheme_test.cc:117 | one insertion pass extends the sorted prefix by one and keeps the multiset of entries |
| ReplicationScheme.DhtReplicationScheme.constructor | src/eventql/db/ReplicationScheme_test.cc:196 | the scheme's ring is a sorted permutation of all entries of the configuration, and the scheme keeps its number of copies and nodes |
| ReplicationScheme.DhtReplicationScheme.LowerBound | src/eventql/db/ReplicationScheme_test.cc:317-319 | the binary search returns the first ring position whose token is at least the key, or the ring size |
| ReplicationScheme.DhtReplicationScheme.ReplicasFor | src/eventql/db/ReplicationScheme_test.cc:218-219 | the result is exactly the specified placement for the key with min(copies, nodes) replicas wanted |
| ReplicationScheme.WalkRing | src/eventql/db/ReplicationScheme_test.cc:217-234 | the loop that walks the ring modulo its size, skipping chosen nodes, yields the replicas of the specified walk from the start position |
| ReplicationScheme.NoNodesNoReplicas | src/eventql/db/ReplicationScheme_test.cc:33-44 | a configuration without nodes yields no replicas for any key |
| ReplicationScheme.SingleNodeSingleReplica | src/eventql/db/ReplicationScheme_test.cc:47-93 | one node with a token yields exactly one replica for every key, with that node's address and one of its tokens as id |
| ReplicationScheme.ReplicaCount | src/eventql/db/ReplicationScheme_test.cc:123 | never more than min(copies, nodes) replicas, and exactly that many when every node owns a token |
| ReplicationScheme.PlacementOwnedByNodes | src/eventql/db/ReplicationScheme_test.cc:119-147 | every replica pairs a token of a configured node with that same node's address |
| Placement.PlacementFromRing | src/eventql/db/ReplicationScheme_test.cc:198-215 | every chosen entry is a ring entry, and no more are chosen than wanted |
| Placement.PlacementDistinctNodes | src/eventql/db/ReplicationScheme_test.cc:217-234 | no node is chosen twice |
| Placement.PlacementLength | src/eventql/db/ReplicationScheme_test.cc:202 | the number chosen is min(wanted, number of distinct nodes on the ring) |
| Placement.PlacementStartsAtKey | src/eventql/db/ReplicationScheme_test.cc:317-334 | when some token is at least the key, the first replica is the smallest such token, and equality counts |
| Placement.PlacementWrapsAround | src/eventql/db/ReplicationScheme_test.cc:255-272 | when every token is below the key, the first replica is the ring's smallest token |
| Placement.PlacementClockwiseOrder | src/eventql/db/ReplicationScheme_test.cc:119-132 | replicas come in order of clockwise distance from the key, not in the order nodes were configured |
| Placement.PlacementNearestTokens | src/eventql/db/ReplicationScheme_test.cc:119-147 | each replica's id is the token of its node nearest the key clockwise, so a node's id depends on the key |
| Placement.PlacementNearestNodes | src/eventql/db/ReplicationScheme_test.cc:217-234 | a node left out lies no nearer the key than any replica, and is left out only because enough replicas were chosen |
| Placement.WalkTakesFirstEntries | src/eventql/db/ReplicationScheme_test.cc:217-234 | each entry taken by the walk is the first entry of its node met on the way, and its node was not chosen before |
| Placement.WalkTakesNearestNodes | src/eventql/db/ReplicationScheme_test.cc:217-234 | a node passed over entirely is passed over only because `want` entries were already taken, all before its first entry |
| Placement.WalkInOrder | src/eventql/db/ReplicationScheme_test.cc:217-234 | the walk takes nodes in the order their first entries are met |
| Placement.WalkLength | src/eventql/db/ReplicationScheme_test.cc:221 | the walk takes min(want, number of nodes not chosen yet) entries |
| Placement.WalkClockwise | src/eventql/db/ReplicationScheme_test.cc:119-132 | walking entries in clockwise order yields replicas in clockwise order |
| Placement.WalkNearestTokens | src/eventql/db/ReplicationScheme_test.cc:134-147 | walking entries in clockwise order takes each node at its nearest entry |
| Placement.WalkNearestNodes | src/eventql/db/ReplicationScheme_test.cc:236-253 | walking entries in clockwise order takes the nearest nodes |
| Placement.RotatedByDistance | src/eventql/db/ReplicationScheme_test.cc:149-162 | a sorted ring read from the start position for the key is in order of clockwise distance from the key |
| Placement.RotatedPermutation | src/eventql/db/ReplicationScheme_test.cc:149-162 | reading the ring from any position visits each entry once |
| Placement.FirstAtLeastUnique | src/eventql/db/ReplicationScheme_test.cc:317-319 | the lower bound is the only position with smaller tokens before it and a token at least the key at it |
| Ring.SortedUnique | src/eventql/db/ReplicationScheme_test.cc:196 | when no two tokens collide, the sorted ring of a configuration is unique |
| Ring.NodesOfEntries | src/eventql/db/ReplicationScheme_test.cc:315 | only configured nodes are on the ring, and all of them are when every node owns a token |
| Ring.NodesOfPermutation | src/eventql/db/ReplicationScheme_test.cc:315 | which nodes a ring holds does not depend on the order of its entries |
| Ring.EntriesMembership | src/eventql/db/ReplicationScheme_test.cc:100-114 | an entry is on the ring exactly when it is a token of a configured node, paired with that node's position and address |
| ReplicationSchemeTest.PlacementsWithOneNode | src/eventql/db/ReplicationScheme_test.cc:47-93 | for keys 1111…, 8888… and dddd… the single node answers with its token aaaa… and address 1.1.1.1:1234 |
| ReplicationSchemeTest.PlacementsWithTwoNodes | src/eventql/db/ReplicationScheme_test.cc:95-163 | the expected two replicas, ids and addresses, for keys 1111…, 8888… and dddd… |
| ReplicationSchemeTest.PlacementsWithThreeNodes | src/eventql/db/ReplicationScheme_test.cc:165-273 | the expected three replicas, ids and addresses, for keys 1111…, 8888…, dddd… and fdfd… |
| ReplicationSchemeTest.PlacementsWithFourNodes | src/eventql/db/ReplicationScheme_test.cc:275-392 | the expected three replicas, ids and addresses, for keys 1111…, 8888…, dddd… and 2222… |
| ReplicationSchemeTest.AddLiveNode | src/eventql/db/ReplicationScheme_test.cc:99-106 | adding a node and setting its status, name, address and tokens appends exactly that node |
| ReplicationSchemeTest.HostAssignmentWithoutNodes | src/eventql/db/ReplicationScheme_test.cc:33-44 | the scheme built from a configuration without nodes returns no replica |
| ReplicationSchemeTest.HostAssignmentWithOneNode | src/eventql/db/ReplicationScheme_test.cc:47-93 | the scheme built as in the test returns the expected replicas for every key asked |
| ReplicationSchemeTest.HostAssignmentWithTwoNodes | src/eventql/db/ReplicationScheme_test.cc:95-163 | the scheme built as in the test returns the expected replicas for every key asked |
| ReplicationSchemeTest.HostAssignmentWithThreeNodes | src/eventql/db/ReplicationScheme_test.cc:165-273 | the scheme built as in the test returns the expected replicas for every key asked |
| ReplicationSchemeTest.HostAssignmentWithFourNodes | src/eventql/db/ReplicationScheme_test.cc:275-392 | the scheme built as in the test returns the expected replicas for every key asked |

## Left out

- The implementation of `DHTReplicationScheme` (`src/eventql/db/ReplicationScheme.h` and its `.cc`) is not part of this model. The rule modelled is the one the tests' expected results fix, and internal details such as the exact data structures are chosen here.
- SHA-1 hashing, `SHA1Hash::fromHexString` and `toString` are left out. Tokens and keys are naturals below 2^160, which order exactly as the fixed-width 40-digit hex strings in the tests do.
- `addr.ipAndPort()` formatting is left out: addresses are opaque strings.
- A node's status is carried in the configuration but placement does not consult it. Every test node is live, and no test shows what a non-live node would do.
- Node identity is the node's position in the configuration (what `add_dht_nodes` hands back). Names are carried but not used for placement.
- Tokens shared by two nodes are allowed on the ring. Every property is proved for any sorted arrangement of the entries, so the order among equal tokens is not pinned down.
- ReplicaCount: it states the exact count min(copies, nodes) only when every node owns at least one token. A node without tokens is not on the ring, and no test shows how the scheme counts such a node.
- Rebuilding or publishing the scheme concurrently with configuration changes is left out.
- The JavaScript runtime wrapper, the rebalance command-line tool, the MySQL table adapter, the tracked-query declarations and the stemmer interface are outside the placement logic and are not modelled.
