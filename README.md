# ZKReplicationQueueStorage, modelled in Dafny

HBase keeps its replication bookkeeping in ZooKeeper, through
`ZKReplicationQueueStorage`. Under the queues root each region server (a
*replicator*) has a node. Under it each replication queue has a node, and each
WAL waiting in that queue has a node whose data is the position replicated so
far. Serial replication keeps, under the regions root, one node per (region,
peer), holding the last sequence id pushed. The node sits in a bucket named
after the low 16 bits of the region name's hash. Bulk-loaded files (hfile
references) waiting to be replicated are kept under the hfile-refs root, one
node per peer and one child per file.

This project models that class against an abstract coordination store and
proves what each operation does to the store.

- `ZNodeTree` (znode_tree.dfy) is the store. It is a map from path to node; a
  path is the sequence of its name components. Each node holds its data and its
  child-change counter (ZooKeeper's cversion). The module defines:
  - single operations: create, create-if-absent, set-data, delete and
    delete-if-present;
  - `Multi`, an all-or-nothing transaction over a list of them;
  - `CreateWithParents`, `DeleteRecursive` and `Children`, which stand for
    `ZKUtil.createWithParents`, `ZKUtil.deleteNodeRecursively` and
    `ZKUtil.listChildrenNoWatch`.

  As `ZKUtil.multiOrSequential` sends them to ZooKeeper, create-and-fail-silent
  and delete-fail-silent become plain create and delete inside a transaction.
- `Layout` (layout.dfy) holds the path builders `getRsNode`, `getQueueNode`,
  `getFileNode`, `getSerialReplicationRegionPeerNode`, `getHFileRefsPeerNode`
  and `getHFileNode`. It also has Java's `String.hashCode` in 32-bit
  arithmetic, the `& 0xFFFF` bucket, and the configuration's default roots.
- `Codec` and `Numerals` (codec.dfy, numerals.dfy) are a decimal stand-in for
  the position payload, with its round trip proved.
- `Snapshot` (snapshot.dfy) defines the sets `getAllWALs` and
  `getAllHFileRefs` enumerate: the names three levels under the queues root,
  and two levels under the hfile-refs root.
- `Claim` (claim.dfy) holds the step-by-step proof of the transaction
  `claimQueue` builds.
- `QueueStorage` (queue_storage.dfy) holds the class
  `ReplicationQueueStorage`. Its field `tree` is the store. Each method is one
  operation of the source:
  - writers assign `tree`, and their contracts state the new tree in terms of
    the old one: which nodes exist, what data each holds, and which
    child-change counters move (the exceptions are listed under "Left out");
  - readers leave `tree` alone, and their contracts state what they return.
- `Scenarios` (scenarios.dfy) states two traces from an empty store, a
  failover claim and an add-then-remove of hfile references, and proves what
  each read returns at the end.

## Model

| member | source | states |
|---|---|---|
| `Layout.DefaultRoots` | hbase-replication/src/main/java/org/apache/hadoop/hbase/replication/ZKReplicationQueueStorage.java:106-117 | with no configured names, the roots are `rs`, `hfile-refs` and `regions` under the replication node, and no root lies in or above another |
| `Layout.RegionBucket` | hbase-replication/src/main/java/org/apache/hadoop/hbase/replication/ZKReplicationQueueStorage.java:151-152 | `encodedRegionName.hashCode() & 0xFFFF`, with the hash overflowing as a Java `int`, always lies in [0, 65535] |
| `Layout.RegionBucketIsHash16` | hbase-replication/src/main/java/org/apache/hadoop/hbase/replication/ZKReplicationQueueStorage.java:152 | the bucket equals the same polynomial hash taken modulo 65536 throughout, whatever the 32-bit overflow and the sign |
| `Layout.BucketNodeOfBucket` | hbase-replication/src/main/java/org/apache/hadoop/hbase/replication/ZKReplicationQueueStorage.java:151-153 | two regions share a bucket node exactly when their buckets are equal, because distinct numbers print as distinct decimal names |
| `Layout.RegionPeerNodeInjective` | hbase-replication/src/main/java/org/apache/hadoop/hbase/replication/ZKReplicationQueueStorage.java:151-155 | for one peer, two regions never share a region-peer node |
| `Layout.RegionPeerLeafInjective` | hbase-replication/src/main/java/org/apache/hadoop/hbase/replication/ZKReplicationQueueStorage.java:154 | the leaf `region-peer` gives back both the region and the peer when the region name has no `-` |
| `Codec.DecodeEncode` | hbase-replication/src/main/java/org/apache/hadoop/hbase/replication/ZKReplicationQueueStorage.java:197-198 | a position or sequence id written as a payload decodes to itself |
| `ZNodeTree.Children` | hbase-replication/src/main/java/org/apache/hadoop/hbase/replication/ZKReplicationQueueStorage.java:355 | a name is listed under a node exactly when the node has a child of that name |
| `ZNodeTree.CreateWithParents` | hbase-replication/src/main/java/org/apache/hadoop/hbase/replication/ZKReplicationQueueStorage.java:171 | afterwards the node and all its ancestors exist; nothing else is added and no existing data changes; new ancestors are empty |
| `ZNodeTree.CreateCounters` | hbase-replication/src/main/java/org/apache/hadoop/hbase/replication/ZKReplicationQueueStorage.java:171 | when the node was missing, only its deepest existing ancestor gains one child in its counter; each created ancestor counts one child and the node itself none; no other counter moves |
| `ZNodeTree.DeleteRecursive` | hbase-replication/src/main/java/org/apache/hadoop/hbase/replication/ZKReplicationQueueStorage.java:160 | the node and its whole subtree are gone; every other node is unchanged except the parent's counter, which rises by exactly one; a missing node changes nothing |
| `ZNodeTree.MultiCreateChildren` | hbase-replication/src/main/java/org/apache/hadoop/hbase/replication/ZKReplicationQueueStorage.java:467-475 | a batch of fail-silent creates under one node commits exactly when the node exists or the batch is empty, and adds exactly the named children, empty |
| `ZNodeTree.MultiDeleteChildren` | hbase-replication/src/main/java/org/apache/hadoop/hbase/replication/ZKReplicationQueueStorage.java:489-496 | a batch of fail-silent deletes under one node commits exactly when no named child has children, and removes exactly the named children |
| `Snapshot.WalsOfAllServers` | hbase-replication/src/main/java/org/apache/hadoop/hbase/replication/ZKReplicationQueueStorage.java:402-406 | collecting the WALs of every queue of every listed replicator gives exactly the WAL nodes of the tree |
| `Snapshot.RefsOfAllPeers` | hbase-replication/src/main/java/org/apache/hadoop/hbase/replication/ZKReplicationQueueStorage.java:553-555 | collecting the references of every listed peer gives exactly the reference nodes of the tree |
| `Snapshot.WalsAfterServerCreated` | hbase-replication/src/main/java/org/apache/hadoop/hbase/replication/ZKReplicationQueueStorage.java:270 | creating the destination server node adds no WAL |
| `Claim.ClaimStep` | hbase-replication/src/main/java/org/apache/hadoop/hbase/replication/ZKReplicationQueueStorage.java:292-302 | adding one WAL's create-copy and delete-original to the batch keeps the batch's outcome described: abort if the new queue exists or a moved WAL has children, else every WAL moved so far is copied with its data and gone from the old queue |
| `Claim.ClaimEnd` | hbase-replication/src/main/java/org/apache/hadoop/hbase/replication/ZKReplicationQueueStorage.java:304-309 | with the final delete of the old queue, the whole batch aborts with NodeExists when the new queue exists, with NotEmpty when a WAL has children, and otherwise commits, leaving exactly the claimed tree |
| `Claim.WalsAfterClaim` | hbase-replication/src/main/java/org/apache/hadoop/hbase/replication/ZKReplicationQueueStorage.java:286-313 | a committed claim neither loses nor invents a WAL name |
| `Claim.EmptyQueueRemoved` | hbase-replication/src/main/java/org/apache/hadoop/hbase/replication/ZKReplicationQueueStorage.java:281-282 | deleting an empty queue node commits and removes just that node, moves only the server node's counter (by one when the queue existed), and changes no WAL |
| `QueueStorage.BaseName` | hbase-replication/src/main/java/org/apache/hadoop/hbase/replication/ZKReplicationQueueStorage.java:467 | `Path.getName`: the text after the last `/`, a suffix of the path without `/` |
| `QueueStorage.RefNames` | hbase-replication/src/main/java/org/apache/hadoop/hbase/replication/ZKReplicationQueueStorage.java:467-468 | one reference name per pair, in order: the base name of the pair's second path |
| `QueueStorage.ReadPosition` | hbase-replication/src/main/java/org/apache/hadoop/hbase/replication/ZKReplicationQueueStorage.java:235-241 | a missing node or an undecodable payload reads as the default; an encoded value reads as itself; empty data reads as 0 |
| `QueueStorage.PositionOutcome` | hbase-replication/src/main/java/org/apache/hadoop/hbase/replication/ZKReplicationQueueStorage.java:196-217 | the batch of set-data operations commits exactly when the WAL node exists, and then writes the WAL node and every named region node; it aborts with NoNode otherwise |
| `QueueStorage.PositionReadBack` | hbase-replication/src/main/java/org/apache/hadoop/hbase/replication/ZKReplicationQueueStorage.java:192-222 | after a committed setWALPosition, the WAL position and each region's sequence id read back as written |
| `QueueStorage.PositionAbortKeepsReads` | hbase-replication/src/main/java/org/apache/hadoop/hbase/replication/ZKReplicationQueueStorage.java:217 | after a failed setWALPosition, every node that existed reads as before, and a region node the call created reads as sequence id 0 |
| `QueueStorage.ClaimOps` | hbase-replication/src/main/java/org/apache/hadoop/hbase/replication/ZKReplicationQueueStorage.java:287-302 | the loop builds the create-queue, copy-WAL and delete-WAL operations, and the batch's outcome is the one described by ClaimProgress for all the WALs |
| `QueueStorage.ClaimConditions` | hbase-replication/src/main/java/org/apache/hadoop/hbase/replication/ZKReplicationQueueStorage.java:270-279 | creating the destination server node first changes none of the claim's conditions: the WAL list, the new queue's existence, busy WALs, WAL data, and the set of all WALs |
| `QueueStorage.ClaimedPositions` | hbase-replication/src/main/java/org/apache/hadoop/hbase/replication/ZKReplicationQueueStorage.java:293-299 | after the move, every WAL reads in the new queue the position it had in the old one, and the old queue is gone |
| `QueueStorage.ClaimOfEmptyQueue` | hbase-replication/src/main/java/org/apache/hadoop/hbase/replication/ZKReplicationQueueStorage.java:281-285 | an empty queue is deleted and the claim yields the new id and no WAL; besides the destination server node, only the source server node's counter moves |
| `QueueStorage.ClaimOfQueue` | hbase-replication/src/main/java/org/apache/hadoop/hbase/replication/ZKReplicationQueueStorage.java:286-313 | a committed move yields the new id and the old queue's WALs, each in the new queue with its old data, the old queue gone, no WAL lost |
| `QueueStorage.ClaimLost` | hbase-replication/src/main/java/org/apache/hadoop/hbase/replication/ZKReplicationQueueStorage.java:314-321 | an aborted move yields null and leaves the store as it was after the destination server node was created |
| `QueueStorage.RefsAdded` | hbase-replication/src/main/java/org/apache/hadoop/hbase/replication/ZKReplicationQueueStorage.java:459-479 | after addHFileRefs commits, the peer's references are the old ones plus the names added |
| `QueueStorage.RefsRemoved` | hbase-replication/src/main/java/org/apache/hadoop/hbase/replication/ZKReplicationQueueStorage.java:481-500 | after removeHFileRefs commits, the peer's references are the old ones less the names removed |
| `QueueStorage.ReplicationQueueStorage.constructor` | hbase-replication/src/main/java/org/apache/hadoop/hbase/replication/ZKReplicationQueueStorage.java:106-117 | the storage works on the given roots and store |
| `QueueStorage.ReplicationQueueStorage.RemoveQueue` | hbase-replication/src/main/java/org/apache/hadoop/hbase/replication/ZKReplicationQueueStorage.java:157-165 | the queue node and its WALs are gone; no other node changes except the server node's counter, which rises by one when the queue existed; a missing queue changes nothing |
| `QueueStorage.ReplicationQueueStorage.AddWAL` | hbase-replication/src/main/java/org/apache/hadoop/hbase/replication/ZKReplicationQueueStorage.java:167-176 | the WAL node exists afterwards, with any missing server or queue node created empty; nothing else is added and no existing data changes; only the deepest existing ancestor's counter moves, by one |
| `QueueStorage.ReplicationQueueStorage.RemoveWAL` | hbase-replication/src/main/java/org/apache/hadoop/hbase/replication/ZKReplicationQueueStorage.java:178-190 | a missing WAL is not an error and changes nothing; a WAL with children fails with NotEmpty and changes nothing; otherwise just that node is deleted and the queue node's counter rises by one |
| `QueueStorage.ReplicationQueueStorage.PositionBatch` | hbase-replication/src/main/java/org/apache/hadoop/hbase/replication/ZKReplicationQueueStorage.java:196-214 | the batch holds the WAL node's new position and one sequence-id write per region and nothing else; every region node exists in the store afterwards, each node created empty, no existing node's data changed and no counter outside the regions subtree moved |
| `QueueStorage.ReplicationQueueStorage.SetWALPosition` | hbase-replication/src/main/java/org/apache/hadoop/hbase/replication/ZKReplicationQueueStorage.java:192-222 | region nodes are created first, empty, whatever the outcome; the update commits exactly when the WAL node exists and then sets the position and every sequence id; otherwise it fails with NoNode, no existing node's data changes and the created nodes stay empty |
| `QueueStorage.ReplicationQueueStorage.GetWALPosition` | hbase-replication/src/main/java/org/apache/hadoop/hbase/replication/ZKReplicationQueueStorage.java:244-262 | the stored position, or 0 when the node is missing or its payload does not decode |
| `QueueStorage.ReplicationQueueStorage.GetLastSequenceId` | hbase-replication/src/main/java/org/apache/hadoop/hbase/replication/ZKReplicationQueueStorage.java:224-242 | the stored sequence id, or NO_SEQNUM (-1) when the node is missing or its payload does not decode |
| `QueueStorage.ReplicationQueueStorage.ClaimQueue` | hbase-replication/src/main/java/org/apache/hadoop/hbase/replication/ZKReplicationQueueStorage.java:264-326 | the claim is lost (null) exactly when the queue has WALs and the new queue node exists or a WAL has children; otherwise it yields `queueId-sourceServer` and the old queue's WALs, which sit in the new queue with their positions while the old queue is gone; in every case no WAL is lost or invented |
| `QueueStorage.ReplicationQueueStorage.RemoveReplicatorIfQueueIsEmpty` | hbase-replication/src/main/java/org/apache/hadoop/hbase/replication/ZKReplicationQueueStorage.java:328-337 | a server node without queues is deleted, the queues root's counter rising by one and nothing else changing; a missing one or one with queues is left, silently |
| `QueueStorage.ReplicationQueueStorage.GetListOfReplicators` | hbase-replication/src/main/java/org/apache/hadoop/hbase/replication/ZKReplicationQueueStorage.java:339-351 | exactly the servers that have a node under the queues root |
| `QueueStorage.ReplicationQueueStorage.GetWALsInQueue` | hbase-replication/src/main/java/org/apache/hadoop/hbase/replication/ZKReplicationQueueStorage.java:353-368 | exactly the WALs with a node in the queue |
| `QueueStorage.ReplicationQueueStorage.GetAllQueues` | hbase-replication/src/main/java/org/apache/hadoop/hbase/replication/ZKReplicationQueueStorage.java:370-381 | exactly the queues with a node under the server |
| `QueueStorage.ReplicationQueueStorage.GetQueuesZNodeCversion` | hbase-replication/src/main/java/org/apache/hadoop/hbase/replication/ZKReplicationQueueStorage.java:383-389 | the queues root's child-change counter, 0 when the root is missing |
| `QueueStorage.ReplicationQueueStorage.WalsOfServer` | hbase-replication/src/main/java/org/apache/hadoop/hbase/replication/ZKReplicationQueueStorage.java:403-405 | the inner loop collects exactly the WALs of every queue of one server |
| `QueueStorage.ReplicationQueueStorage.GetAllWALs` | hbase-replication/src/main/java/org/apache/hadoop/hbase/replication/ZKReplicationQueueStorage.java:391-417 | exactly the names of all WAL nodes of all replicators, empty when there are none |
| `QueueStorage.ReplicationQueueStorage.AddPeerToHFileRefs` | hbase-replication/src/main/java/org/apache/hadoop/hbase/replication/ZKReplicationQueueStorage.java:427-439 | the peer node exists afterwards, created empty with its ancestors when missing, with only the deepest existing ancestor's counter moving by one; an existing one leaves the store unchanged |
| `QueueStorage.ReplicationQueueStorage.RemovePeerFromHFileRefs` | hbase-replication/src/main/java/org/apache/hadoop/hbase/replication/ZKReplicationQueueStorage.java:441-457 | the peer node and all its references are gone and the hfile-refs root's counter rises by one; a missing peer node changes nothing |
| `QueueStorage.ReplicationQueueStorage.AddHFileRefs` | hbase-replication/src/main/java/org/apache/hadoop/hbase/replication/ZKReplicationQueueStorage.java:459-479 | succeeds exactly when the peer node exists or there is nothing to add; then every named reference exists, existing ones untouched and new ones empty, and nothing else changes but the peer node's counter; otherwise it fails with NoNode and changes nothing |
| `QueueStorage.ReplicationQueueStorage.RemoveHFileRefs` | hbase-replication/src/main/java/org/apache/hadoop/hbase/replication/ZKReplicationQueueStorage.java:481-500 | succeeds exactly when no named reference has children; then none of the named references remains, missing ones are ignored, and nothing else changes but the peer node's counter |
| `QueueStorage.ReplicationQueueStorage.GetAllPeersFromHFileRefsQueue` | hbase-replication/src/main/java/org/apache/hadoop/hbase/replication/ZKReplicationQueueStorage.java:502-514 | exactly the peers with a node under the hfile-refs root |
| `QueueStorage.ReplicationQueueStorage.GetReplicableHFiles` | hbase-replication/src/main/java/org/apache/hadoop/hbase/replication/ZKReplicationQueueStorage.java:516-528 | exactly the references with a node under the peer |
| `QueueStorage.ReplicationQueueStorage.GetHFileRefsZNodeCversion` | hbase-replication/src/main/java/org/apache/hadoop/hbase/replication/ZKReplicationQueueStorage.java:530-540 | the hfile-refs root's child-change counter, 0 when the root is missing |
| `QueueStorage.ReplicationQueueStorage.GetAllHFileRefs` | hbase-replication/src/main/java/org/apache/hadoop/hbase/replication/ZKReplicationQueueStorage.java:542-567 | exactly the names of all reference nodes of all peers, empty when there are none |
| `Scenarios.ClaimOfOnlyQueue` | hbase-replication/src/main/java/org/apache/hadoop/hbase/replication/ZKReplicationQueueStorage.java:278-313 | claiming a dead server's only queue, holding one WAL, succeeds under the new id; the WAL keeps its position and the dead server has no queue left |
| `Scenarios.ClaimExample` | hbase-replication/src/main/java/org/apache/hadoop/hbase/replication/ZKReplicationQueueStorage.java:264-326 | rs1 queues `log.1` for peer 2 at position 100, then rs2 claims the queue: the claim returns `2-rs1` with `{log.1}`, rs2 reads position 100 there, and rs1 has no queue left |
| `Scenarios.HFileRefsExample` | hbase-replication/src/main/java/org/apache/hadoop/hbase/replication/ZKReplicationQueueStorage.java:542-567 | after adding f1 and f2 to a peer and removing f1, getAllHFileRefs returns exactly `{f2}` |

## Left out

- ZooKeeper itself is not part of this model: sessions, watches, connection
  loss and `ZKUtil`'s internals. Connection-level `KeeperException`s, and the
  `ReplicationException`s the source wraps them in, are left out, and so is
  `InterruptedException`. Store-level errors the source rethrows are modelled
  as a `Failed(e)` status: `NotEmpty` from `removeWAL` (lines 186-188) and
  `removeHFileRefs` (lines 497-499), `NoNode` from `setWALPosition` (lines
  218-221) and `addHFileRefs` (lines 476-478).
- A `Name` stands for a single path component. The source joins names into
  paths with `joinZNode`, so a name containing `/` would address a deeper
  node; the model treats every name as one component and does not capture
  that.
- `ZKUtil.createWithParents` (lines 171, 211, 270, 433) never fails in the
  model: it can fail only on connection-level errors, which are left out as
  above.
- `ZKUtil.positionToByteArray` and `ZKUtil.parseWALPositionFrom` are not part
  of this model. The protobuf payload is replaced by decimal text. What the
  storage relies on is kept: a written value reads back unchanged, empty data
  reads as 0, and some payloads do not decode.
- `ReplicationUtils.parsePeerIdFromQueueId` (line 202) is not part of this
  model. `SetWALPosition` takes the peer id as a parameter.
- `ServerName` is modelled as its string form, so `parseServerName`
  (line 341) is the identity.
- The roots come from configuration in the source (lines 110-116). Here they
  are constructor parameters, and `DefaultRoots` gives the default names. The
  configured roots are assumed to be separate subtrees (none lies in or above
  another), which the constructor requires; the defaults are proved to be.
- Positions and sequence ids are Java `long`s. The model uses unbounded
  integers, so overflow at 2^63 is not modelled.
- `JavaStringHash` takes each character's code point. Java hashes UTF-16 code
  units, so the two agree only on text within the Basic Multilingual Plane.
  Encoded region names are hex digests, so the difference never arises for
  them.
- The retry loops of `getAllWALs` and `getAllHFileRefs` (lines 394 and 545)
  are modelled as one pass. In a sequential model nothing changes the counter
  during the walk, so the loop's exit test holds on the first pass; the
  methods return only the collected set. Progress under concurrent writers is
  not modelled.
- Concurrent claimants are not modelled. A claim is lost only when the store
  already shows another claimant's marks (the new queue exists, or a WAL has
  children). `BadVersion` cannot arise, because no operation is versioned.
- `QueueStorage.ReplicationQueueStorage.ClaimQueue` returns a `set` of WAL
  names, not the `SortedSet` of the source. The elements are stated; their
  iteration order is not.
- `QueueStorage.ReplicationQueueStorage.AddHFileRefs` models the batch as one
  transaction of fail-silent creates. When the transaction fails, the source
  retries the operations one by one (`runSequentialOnMultiFailure` is true at
  line 475). The one-by-one run reaches the same end, except that on a hard
  error it keeps the operations already applied.
- `QueueStorage.ReplicationQueueStorage.RemoveHFileRefs` models the batch as
  one transaction of fail-silent deletes. When some named reference has
  children, the source's one-by-one retry (line 496) has already deleted the
  references before it in the list. The model instead fails with the store
  unchanged.
- `QueueStorage.ReplicationQueueStorage.SetWALPosition` states no counter
  inside the regions subtree. `ZNodeTree.CreateCounters` describes the
  counters of a single `createWithParents` call; they are not gathered over
  all regions of the call.
- `QueueStorage.ReplicationQueueStorage.ClaimQueue`, when the move commits,
  does not state the counters of the two server nodes or of the new queue and
  WAL nodes; every other counter is stated unchanged.
- `QueueStorage.ReplicationQueueStorage.AddHFileRefs` and
  `QueueStorage.ReplicationQueueStorage.RemoveHFileRefs` do not state the
  peer node's own counter; every other node is stated unchanged, and new
  references are stated empty with a zero counter.
- Logging, and the text of exception messages, are not modelled.
