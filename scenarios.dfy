/** Two traces of the storage from an empty store under the default layout, and
    what each read returns at the end. */
module Scenarios {
  import opened Codec
  import opened Layout
  import opened ZNodeTree
  import opened Snapshot
  import opened Claim
  import opened QueueStorage

  /** /hbase/replication. */
  const REPLICATION: Path := ["hbase", "replication"]

  /** A store holding nothing but its root. */
  const EMPTY_STORE: Tree := map[[] := Znode(EMPTY, 0)]

  /** The store holds the line down to one peer node and, under it, exactly the
      references `refs`. */
  ghost predicate PeerWithRefs(t: Tree, peerNode: Path, refs: set<Name>)
  {
    forall q :: q in t <==> IsPrefix(q, peerNode) || (IsChildOf(q, peerNode) && q[|peerNode|] in refs)
  }

  /** The store holds one node and its ancestors, and nothing else. */
  ghost predicate OnlyLine(t: Tree, p: Path)
  {
    forall q :: q in t <==> IsPrefix(q, p)
  }

  /** Creating a node with its ancestors in the empty store. */
  lemma LineCreated(t0: Tree, t: Tree, p: Path)
    requires t0 == EMPTY_STORE
    requires forall q :: q in t <==> q in t0 || IsPrefix(q, p)
    ensures OnlyLine(t, p) && PeerWithRefs(t, p, {})
  {
    assert IsPrefix([], p);
  }

  lemma RefsAddedTo(t0: Tree, t: Tree, peerNode: Path, refs: set<Name>, names: seq<Name>)
    requires PeerWithRefs(t0, peerNode, refs)
    requires forall q :: q in t <==> q in t0 || (IsChildOf(q, peerNode) && q[|peerNode|] in names)
    ensures PeerWithRefs(t, peerNode, refs + set n | n in names)
  {
  }

  /** No reference has children of its own. */
  lemma RefsAreLeaves(t: Tree, peerNode: Path, refs: set<Name>)
    requires PeerWithRefs(t, peerNode, refs)
    ensures forall n :: !HasChildren(t, HFileNode(peerNode, n))
  {
  }

  lemma RefsRemovedFrom(t0: Tree, t: Tree, peerNode: Path, refs: set<Name>, files: seq<Name>)
    requires PeerWithRefs(t0, peerNode, refs)
    requires forall q :: q in t <==> q in t0 && !(IsChildOf(q, peerNode) && q[|peerNode|] in files)
    ensures PeerWithRefs(t, peerNode, refs - set f | f in files)
  {
    forall q
      ensures q in t <==> IsPrefix(q, peerNode) || (IsChildOf(q, peerNode) && q[|peerNode|] in refs - set f | f in files)
    {
      if IsPrefix(q, peerNode) {
        assert !IsChildOf(q, peerNode);
      }
    }
  }

  /** With a single peer, getAllHFileRefs reports its references. */
  lemma AllRefsOfOnePeer(t: Tree, hfileRefsRoot: Path, peerId: Name, refs: set<Name>)
    requires PeerWithRefs(t, hfileRefsRoot + [peerId], refs)
    ensures AllHFileRefs(t, hfileRefsRoot) == refs
  {
    var peerNode := hfileRefsRoot + [peerId];
    forall n | n in refs
      ensures n in AllHFileRefs(t, hfileRefsRoot)
    {
      var q := peerNode + [n];
      assert q in t && q[..|hfileRefsRoot|] == hfileRefsRoot && q[|hfileRefsRoot| + 1] == n;
    }
  }

  lemma RefNamesOfExample()
    ensures RefNames([HFilePair("staging/a", "data/f1"), HFilePair("staging/b", "data/f2")]) == ["f1", "f2"]
  {
    assert BaseName("data/f1") == "f1" && BaseName("data/f2") == "f2";
  }

  lemma RefSetsOfExample()
    ensures ({} + set n | n in ["f1", "f2"]) == {"f1", "f2"}
    ensures ({"f1", "f2"} - set f | f in ["f1"]) == {"f2"}
  {
  }

  /** addHFileRefs of two files, named by the last component of each pair's
      second path, on a peer with no references yet. */
  method AddTwoRefs(storage: ReplicationQueueStorage, peerNode: Path)
    requires storage.Valid() && peerNode == HFileRefsPeerNode(storage.roots, "2")
    requires PeerWithRefs(storage.tree, peerNode, {})
    modifies storage
    ensures storage.Valid() && PeerWithRefs(storage.tree, peerNode, {"f1", "f2"})
  {
    ghost var t0 := storage.tree;
    var pairs := [HFilePair("staging/a", "data/f1"), HFilePair("staging/b", "data/f2")];
    RefNamesOfExample();
    assert IsPrefix(peerNode, peerNode);
    var added := storage.AddHFileRefs("2", pairs);
    RefsAddedTo(t0, storage.tree, peerNode, {}, ["f1", "f2"]);
    RefSetsOfExample();
  }

  /** removeHFileRefs of f1 from a peer holding f1 and f2. */
  method RemoveOneRef(storage: ReplicationQueueStorage, peerNode: Path)
    requires storage.Valid() && peerNode == HFileRefsPeerNode(storage.roots, "2")
    requires PeerWithRefs(storage.tree, peerNode, {"f1", "f2"})
    modifies storage
    ensures storage.Valid() && PeerWithRefs(storage.tree, peerNode, {"f2"})
  {
    ghost var t1 := storage.tree;
    RefsAreLeaves(t1, peerNode, {"f1", "f2"});
    var removed := storage.RemoveHFileRefs("2", ["f1"]);
    RefsRemovedFrom(t1, storage.tree, peerNode, {"f1", "f2"}, ["f1"]);
    RefSetsOfExample();
  }

  /** Peer "2" gets the references f1 and f2, then f1 is removed: getAllHFileRefs
      reports just f2. */
  method HFileRefsExample() returns (refs: set<Name>)
    ensures refs == {"f2"}
  {
    var r := DefaultRoots(REPLICATION);
    var storage := new ReplicationQueueStorage(r, EMPTY_STORE);
    var peerNode := HFileRefsPeerNode(r, "2");
    storage.AddPeerToHFileRefs("2");
    LineCreated(EMPTY_STORE, storage.tree, peerNode);
    AddTwoRefs(storage, peerNode);
    RemoveOneRef(storage, peerNode);
    refs := storage.GetAllHFileRefs();
    AllRefsOfOnePeer(storage.tree, r.hfileRefs, "2", {"f2"});
  }

  /** setWALPosition without region ids on a store holding just one WAL node. */
  lemma PositionStored(r: Roots, serverName: Name, queueId: Name, fileName: Name, position: int, peerId: Name,
                       t0: Tree, status: Status, t: Tree)
    requires OnlyLine(t0, FileNode(r, serverName, queueId, fileName))
    requires PositionSet(r, serverName, queueId, fileName, position, peerId, map[], t0, status, t)
    ensures status == Done && WellFormed(t)
    ensures OnlyLine(t, FileNode(r, serverName, queueId, fileName))
    ensures ReadPosition(t, FileNode(r, serverName, queueId, fileName), 0) == position
  {
    var fileNode := FileNode(r, serverName, queueId, fileName);
    assert IsPrefix(fileNode, fileNode);
    PositionReadBack(r, serverName, queueId, fileName, position, peerId, map[], t0, t);
  }

  /** What claimQueue checks, on a store holding just one WAL in one queue: the
      queue lists that WAL, the new queue does not exist and the WAL has no
      children. */
  lemma OnlyQueueClaimable(r: Roots, sourceServer: Name, queueId: Name, fileName: Name, destServer: Name, t0: Tree)
    requires sourceServer != destServer
    requires OnlyLine(t0, FileNode(r, sourceServer, queueId, fileName))
    ensures var srcQ := QueueNode(r, sourceServer, queueId);
      && Children(t0, srcQ) == {fileName}
      && QueueNode(r, destServer, queueId + "-" + sourceServer) !in t0
      && !SomeBusy(t0, srcQ, {fileName})
  {
    var fileNode := FileNode(r, sourceServer, queueId, fileName);
    var srcQ := QueueNode(r, sourceServer, queueId);
    var dstQ := QueueNode(r, destServer, queueId + "-" + sourceServer);
    var k := |r.queues|;
    forall n
      ensures n in Children(t0, srcQ) <==> n == fileName
    {
      assert (srcQ + [n])[k + 2] == n;
      assert IsPrefix(fileNode, fileNode);
    }
    assert dstQ[k] != fileNode[k];
  }

  /** After that claim the dead server has no queue left. */
  lemma SourceServerEmptied(r: Roots, sourceServer: Name, queueId: Name, fileName: Name, destServer: Name,
                            t0: Tree, t: Tree)
    requires sourceServer != destServer
    requires WellFormed(t0) && OnlyLine(t0, FileNode(r, sourceServer, queueId, fileName))
    requires ClaimedTree(CreateWithParents(t0, RsNode(r, destServer), EMPTY), t,
                         QueueNode(r, sourceServer, queueId), QueueNode(r, destServer, queueId + "-" + sourceServer),
                         {fileName})
    ensures Children(t, RsNode(r, sourceServer)) == {}
  {
    var rsNode := RsNode(r, sourceServer);
    forall n
      ensures rsNode + [n] !in t
    {
      var q := rsNode + [n];
      OutsideDestination(r, sourceServer, queueId, destServer, n);
      assert q in t0 ==> q == QueueNode(r, sourceServer, queueId);
    }
  }

  /** A queue node of the source server lies nowhere on or under the destination
      server's new queue. */
  lemma OutsideDestination(r: Roots, sourceServer: Name, queueId: Name, destServer: Name, n: Name)
    requires sourceServer != destServer
    ensures var q := RsNode(r, sourceServer) + [n];
      var dstQ := QueueNode(r, destServer, queueId + "-" + sourceServer);
      !IsPrefix(q, RsNode(r, destServer)) && q != dstQ && !IsChildOf(q, dstQ)
  {
    var k := |r.queues|;
    var q := RsNode(r, sourceServer) + [n];
    var dstQ := QueueNode(r, destServer, queueId + "-" + sourceServer);
    assert q[k] != dstQ[k] && q[k] != RsNode(r, destServer)[k];
  }

  /** claimQueue on a store holding just one WAL in one queue of the dead server:
      the claim succeeds, the WAL keeps its position under the new queue, and the
      dead server has no queue left. */
  lemma ClaimOfOnlyQueue(r: Roots, sourceServer: Name, queueId: Name, fileName: Name, destServer: Name,
                         t0: Tree, result: ClaimResult, t: Tree)
    requires sourceServer != destServer
    requires WellFormed(t0) && OnlyLine(t0, FileNode(r, sourceServer, queueId, fileName))
    requires ClaimOutcome(r, sourceServer, queueId, destServer, t0, result, t)
    ensures result == Claimed(queueId + "-" + sourceServer, {fileName})
    ensures ReadPosition(t, FileNode(r, destServer, queueId + "-" + sourceServer, fileName), 0)
         == ReadPosition(t0, FileNode(r, sourceServer, queueId, fileName), 0)
    ensures Children(t, RsNode(r, sourceServer)) == {}
  {
    OnlyQueueClaimable(r, sourceServer, queueId, fileName, destServer, t0);
    SourceServerEmptied(r, sourceServer, queueId, fileName, destServer, t0, t);
  }

  lemma NewQueueIdOfExample()
    ensures "2" + "-" + "rs1" == "2-rs1"
  {
  }

  /** Server rs1 queues log.1 for peer 2 and replicates it up to position 100, then
      dies; rs2 claims the queue. rs2 now has queue 2-rs1 holding log.1 at position
      100, and rs1 has no queue left. */
  method ClaimExample() returns (result: ClaimResult, position: int, leftOver: set<Name>)
    ensures result == Claimed("2-rs1", {"log.1"})
    ensures position == 100
    ensures leftOver == {}
  {
    var r := DefaultRoots(REPLICATION);
    var storage := new ReplicationQueueStorage(r, EMPTY_STORE);
    storage.AddWAL("rs1", "2", "log.1");
    LineCreated(EMPTY_STORE, storage.tree, FileNode(r, "rs1", "2", "log.1"));
    ghost var t0 := storage.tree;
    var status := storage.SetWALPosition("rs1", "2", "log.1", 100, "2", map[]);
    PositionStored(r, "rs1", "2", "log.1", 100, "2", t0, status, storage.tree);
    ghost var t1 := storage.tree;
    result := storage.ClaimQueue("rs1", "2", "rs2");
    ClaimOfOnlyQueue(r, "rs1", "2", "log.1", "rs2", t1, result, storage.tree);
    NewQueueIdOfExample();
    position := storage.GetWALPosition("rs2", "2-rs1", "log.1");
    leftOver := storage.GetAllQueues("rs1");
  }
}
