/** ZKReplicationQueueStorage: replication queues, WAL positions, serial-replication
    progress and hfile references kept in the coordination tree. The tree is the
    field `tree` of the storage object; every operation that writes to ZooKeeper in
    the source assigns it, and every operation that only reads leaves it alone. */
module QueueStorage {
  import opened Codec
  import opened Layout
  import opened ZNodeTree
  import opened Snapshot
  import opened Claim

  /** HConstants.NO_SEQNUM. */
  const NO_SEQNUM: int := -1

  /** How a storage call ends: normally, or with a ReplicationException wrapping the
      store's error. */
  datatype Status = Done | Failed(error: ZkError)

  /** claimQueue's result: the pair (new queue id, WALs moved), or null when another
      claimant got there first. */
  datatype ClaimResult = Claimed(newQueueId: Name, wals: set<Name>) | LostRace

  /** Pair<Path, Path> as addHFileRefs receives it, each path given as its text. */
  datatype HFilePair = HFilePair(first: string, second: string)

  /** Hadoop's Path.getName: the text after the last '/'. */
  function BaseName(path: string): (name: string)
    ensures '/' !in name
    ensures |name| <= |path| && path[|path| - |name|..] == name
    ensures |name| < |path| ==> path[|path| - |name| - 1] == '/'
    decreases |path|
  {
    if |path| == 0 || path[|path| - 1] == '/' then ""
    else BaseName(path[..|path| - 1]) + [path[|path| - 1]]
  }

  /** The reference names addHFileRefs derives from its pairs, in order. */
  function RefNames(pairs: seq<HFilePair>): (names: seq<Name>)
    ensures |names| == |pairs|
    ensures forall i :: 0 <= i < |pairs| ==> names[i] == BaseName(pairs[i].second) && '/' !in names[i]
  {
    seq(|pairs|, i requires 0 <= i < |pairs| => BaseName(pairs[i].second))
  }

  /** The value a position read returns: the decoded payload, or `default` when the
      node is missing or its payload does not decode. */
  function ReadPosition(t: Tree, p: Path, default: int): (v: int)
    ensures p !in t ==> v == default
    ensures p in t && DecodePosition(t[p].data).None? ==> v == default
    ensures forall n :: p in t && t[p].data == EncodePosition(n) ==> v == n
    ensures p in t && t[p].data == EMPTY ==> v == 0
  {
    DecodeEncodeAll();
    if p in t then
      match DecodePosition(t[p].data)
      case Some(n) => n
      case None => default
    else default
  }

  /** A WAL node never lies on the line of the regions root. */
  lemma FileNodeOutsideRegions(r: Roots, serverName: Name, queueId: Name, fileName: Name)
    requires Disjoint(r)
    ensures var f := FileNode(r, serverName, queueId, fileName);
      && !IsPrefix(f, r.regions) && !IsPrefix(r.regions, f)
      && forall region, peerId :: !IsPrefix(f, RegionPeerNode(r, region, peerId))
  {
    var f := FileNode(r, serverName, queueId, fileName);
    assert IsPrefix(r.queues, f);
    Separate(r.queues, r.regions, f);
    // a prefix of f that is as long as the queues root is the queues root
    assert IsPrefix(f, r.regions) ==> IsPrefix(r.queues, r.regions);
    forall region, peerId
      ensures !IsPrefix(f, RegionPeerNode(r, region, peerId))
    {
      Separate(r.queues, r.regions, RegionPeerNode(r, region, peerId));
    }
  }

  /** The tree as setWALPosition leaves it after creating the nodes of the regions in
      `done` (with their ancestors): nothing existing changed its data, nor, outside the
      regions subtree, its counter. */
  ghost predicate RegionsCreated(roots: Roots, peerId: Name, t0: Tree, t: Tree, done: set<string>)
  {
    && WellFormed(t)
    && (forall p :: p in t <==> p in t0 || exists r :: r in done && IsPrefix(p, RegionPeerNode(roots, r, peerId)))
    && (forall p :: p in t0 ==> t[p].data == t0[p].data)
    // createWithParents leaves every node it creates empty
    && (forall p :: p in t && p !in t0 ==> t[p].data == EMPTY)
    && (forall p :: p in t0 && !IsPrefix(p, roots.regions) && !IsPrefix(roots.regions, p) ==>
          t[p].cversion == t0[p].cversion)
  }

  /** The batch setWALPosition has built after the regions in `done`: it sets the WAL
      node and the node of each region in `done`, which are exactly `doneNodes`. */
  ghost predicate PositionWrites(roots: Roots, peerId: Name, ids: map<string, int>, ops: seq<Op>,
                                 fileNode: Path, position: int, done: set<string>, doneNodes: set<Path>)
  {
    && done <= ids.Keys
    && AllSetData(ops)
    && Writes(ops).Keys == {fileNode} + doneNodes
    && Writes(ops)[fileNode] == EncodePosition(position)
    && (forall r :: r in done ==>
          RegionPeerNode(roots, r, peerId) in doneNodes
          && Writes(ops)[RegionPeerNode(roots, r, peerId)] == EncodePosition(ids[r]))
    && (forall p :: p in doneNodes ==> exists r :: r in done && p == RegionPeerNode(roots, r, peerId))
  }

  lemma RegionsCreatedStep(roots: Roots, peerId: Name, t0: Tree, t: Tree, done: set<string>, region: string)
    requires RegionsCreated(roots, peerId, t0, t, done)
    ensures RegionsCreated(roots, peerId, t0, CreateWithParents(t, RegionPeerNode(roots, region, peerId), EMPTY),
                           done + {region})
  {
    var path := RegionPeerNode(roots, region, peerId);
    RegionsCreatedKeys(roots, peerId, t0, t, done, region);
    CreatedStayEmpty(t0, t, path);
    RegionCountersOnly(roots, t0, t, path);
  }

  /** A node created empty on top of a tree whose new nodes are empty. */
  lemma CreatedStayEmpty(t0: Tree, t: Tree, path: Path)
    requires WellFormed(t)
    requires forall p :: p in t0 ==> p in t && t[p].data == t0[p].data
    requires forall p :: p in t && p !in t0 ==> t[p].data == EMPTY
    ensures var t2 := CreateWithParents(t, path, EMPTY);
      && (forall p :: p in t0 ==> t2[p].data == t0[p].data)
      && (forall p :: p in t2 && p !in t0 ==> t2[p].data == EMPTY)
  {
    var t2 := CreateWithParents(t, path, EMPTY);
    forall p | p in t2 && p !in t0
      ensures t2[p].data == EMPTY
    {
      if p in t {
        assert t2[p].data == t[p].data;
      }
    }
  }

  /** Creating a region node moves no counter outside the regions subtree. */
  lemma RegionCountersOnly(roots: Roots, t0: Tree, t: Tree, path: Path)
    requires WellFormed(t) && IsPrefix(roots.regions, path)
    requires forall p :: p in t0 ==> p in t
    requires forall p :: p in t0 && !IsPrefix(p, roots.regions) && !IsPrefix(roots.regions, p) ==>
      t[p].cversion == t0[p].cversion
    ensures forall p :: p in t0 && !IsPrefix(p, roots.regions) && !IsPrefix(roots.regions, p) ==>
      CreateWithParents(t, path, EMPTY)[p].cversion == t0[p].cversion
  {
    forall p | p in t0 && !IsPrefix(p, roots.regions) && !IsPrefix(roots.regions, p)
      ensures CreateWithParents(t, path, EMPTY)[p].cversion == t0[p].cversion
    {
      Separate(p, roots.regions, path);
    }
  }

  lemma RegionsCreatedKeys(roots: Roots, peerId: Name, t0: Tree, t: Tree, done: set<string>, region: string)
    requires WellFormed(t)
    requires forall p :: p in t <==> p in t0 || exists r :: r in done && IsPrefix(p, RegionPeerNode(roots, r, peerId))
    ensures var t2 := CreateWithParents(t, RegionPeerNode(roots, region, peerId), EMPTY);
      forall p :: p in t2 <==> p in t0 || exists r :: r in done + {region} && IsPrefix(p, RegionPeerNode(roots, r, peerId))
  {
    var path := RegionPeerNode(roots, region, peerId);
    var t2 := CreateWithParents(t, path, EMPTY);
    forall p
      ensures p in t2 <==> p in t0 || exists r :: r in done + {region} && IsPrefix(p, RegionPeerNode(roots, r, peerId))
    {
      if IsPrefix(p, path) {
        assert region in done + {region};
      }
      if exists r :: r in done + {region} && IsPrefix(p, RegionPeerNode(roots, r, peerId)) {
        var r :| r in done + {region} && IsPrefix(p, RegionPeerNode(roots, r, peerId));
        assert r in done || r == region;
      }
    }
  }

  lemma PositionWritesStep(roots: Roots, peerId: Name, ids: map<string, int>, ops: seq<Op>,
                           fileNode: Path, position: int, done: set<string>, doneNodes: set<Path>, region: string)
    requires PositionWrites(roots, peerId, ids, ops, fileNode, position, done, doneNodes)
    requires region in ids && region !in done
    requires !IsPrefix(roots.regions, fileNode)
    ensures var path := RegionPeerNode(roots, region, peerId);
      PositionWrites(roots, peerId, ids, ops + [SetData(path, EncodePosition(ids[region]))], fileNode, position,
                     done + {region}, doneNodes + {path})
  {
    var path := RegionPeerNode(roots, region, peerId);
    var ops1 := ops + [SetData(path, EncodePosition(ids[region]))];
    assert ops1[..|ops1| - 1] == ops;
    assert IsPrefix(roots.regions, path);
    forall r | r in done
      ensures RegionPeerNode(roots, r, peerId) != path
    {
      if RegionPeerNode(roots, r, peerId) == path {
        RegionPeerNodeInjective(roots, r, region, peerId);
      }
    }
  }

  /** The loop state of setWALPosition after the regions in `done`. */
  ghost predicate BatchBuilt(roots: Roots, peerId: Name, ids: map<string, int>, fileNode: Path, position: int,
                             t0: Tree, t: Tree, ops: seq<Op>, done: set<string>, doneNodes: set<Path>)
  {
    && RegionsCreated(roots, peerId, t0, t, done)
    && PositionWrites(roots, peerId, ids, ops, fileNode, position, done, doneNodes)
    && doneNodes <= t.Keys
  }

  lemma BatchStart(roots: Roots, peerId: Name, ids: map<string, int>, fileNode: Path, position: int, t: Tree)
    requires WellFormed(t)
    ensures BatchBuilt(roots, peerId, ids, fileNode, position, t, t, [SetData(fileNode, EncodePosition(position))], {}, {})
  {
    assert [SetData(fileNode, EncodePosition(position))][..0] == [];
  }

  lemma BatchStep(roots: Roots, peerId: Name, ids: map<string, int>, fileNode: Path, position: int,
                  t0: Tree, t: Tree, ops: seq<Op>, done: set<string>, doneNodes: set<Path>, region: string)
    requires BatchBuilt(roots, peerId, ids, fileNode, position, t0, t, ops, done, doneNodes)
    requires region in ids && region !in done
    requires !IsPrefix(roots.regions, fileNode)
    ensures var path := RegionPeerNode(roots, region, peerId);
      BatchBuilt(roots, peerId, ids, fileNode, position, t0, CreateWithParents(t, path, EMPTY),
                 ops + [SetData(path, EncodePosition(ids[region]))], done + {region}, doneNodes + {path})
  {
    RegionsCreatedStep(roots, peerId, t0, t, done, region);
    PositionWritesStep(roots, peerId, ids, ops, fileNode, position, done, doneNodes, region);
  }

  /** What setWALPosition promises, for a tree t0 before the call and t after it. */
  ghost predicate PositionSet(r: Roots, serverName: Name, queueId: Name, fileName: Name, position: int,
                              peerId: Name, ids: map<string, int>, t0: Tree, status: Status, t: Tree)
  {
    var fileNode := FileNode(r, serverName, queueId, fileName);
    && WellFormed(t)
    // the transaction commits exactly when the WAL node exists
    && (status == Done <==> fileNode in t0)
    && (status == Done || status == Failed(NoNode))
    // the region nodes exist afterwards, whatever the outcome
    && (forall p :: p in t <==> p in t0 || exists g :: g in ids && IsPrefix(p, RegionPeerNode(r, g, peerId)))
    && (status == Done ==>
          && t[fileNode].data == EncodePosition(position)
          && forall g :: g in ids ==> t[RegionPeerNode(r, g, peerId)].data == EncodePosition(ids[g]))
    // no other node's data changes, and none at all if the transaction aborts
    && (forall p :: p in t0 && p != fileNode && (forall g :: g in ids ==> p != RegionPeerNode(r, g, peerId)) ==>
          t[p].data == t0[p].data)
    && (status != Done ==> forall p :: p in t0 ==> t[p].data == t0[p].data)
    // the nodes created before the transaction are empty unless it wrote them
    && (forall p :: p in t && p !in t0 && (status != Done || forall g :: g in ids ==> p != RegionPeerNode(r, g, peerId)) ==>
          t[p].data == EMPTY)
    // outside the regions subtree no counter changes
    && (forall p :: p in t0 && !IsPrefix(p, r.regions) && !IsPrefix(r.regions, p) ==>
          t[p].cversion == t0[p].cversion)
  }

  /** The transaction setWALPosition sends commits exactly when the WAL node exists,
      and then writes the WAL node and every region node and nothing else. */
  lemma PositionOutcome(r: Roots, serverName: Name, queueId: Name, fileName: Name, position: int,
                        peerId: Name, ids: map<string, int>, t0: Tree, t: Tree, ops: seq<Op>, doneNodes: set<Path>)
    requires Disjoint(r)
    requires BatchBuilt(r, peerId, ids, FileNode(r, serverName, queueId, fileName), position, t0, t, ops, ids.Keys, doneNodes)
    ensures var m := Multi(t, ops);
      && (m.Committed? ==> PositionSet(r, serverName, queueId, fileName, position, peerId, ids, t0, Done, m.tree))
      && (m.Aborted? ==> m.error == NoNode && PositionSet(r, serverName, queueId, fileName, position, peerId, ids, t0, Failed(NoNode), t))
  {
    var fileNode := FileNode(r, serverName, queueId, fileName);
    FileNodeOutsideRegions(r, serverName, queueId, fileName);
    MultiSetData(t, ops);
    assert fileNode in t <==> fileNode in t0;
    if Writes(ops).Keys <= t.Keys {
      PositionCommitted(r, serverName, queueId, fileName, position, peerId, ids, t0, t, ops, doneNodes);
    }
  }

  lemma PositionCommitted(r: Roots, serverName: Name, queueId: Name, fileName: Name, position: int,
                          peerId: Name, ids: map<string, int>, t0: Tree, t: Tree, ops: seq<Op>, doneNodes: set<Path>)
    requires BatchBuilt(r, peerId, ids, FileNode(r, serverName, queueId, fileName), position, t0, t, ops, ids.Keys, doneNodes)
    requires FileNode(r, serverName, queueId, fileName) in t0
    ensures PositionSet(r, serverName, queueId, fileName, position, peerId, ids, t0, Done, Overwrite(t, Writes(ops)))
  {
    var w := Writes(ops);
    var f := Overwrite(t, w);
    assert WellFormed(f) by {
      assert f.Keys == t.Keys;
    }
    UnwrittenStayEmpty(r, serverName, queueId, fileName, position, peerId, ids, t0, t, ops, doneNodes);
  }

  /** A node the batch does not write keeps the data it was created with. */
  lemma UnwrittenStayEmpty(r: Roots, serverName: Name, queueId: Name, fileName: Name, position: int,
                           peerId: Name, ids: map<string, int>, t0: Tree, t: Tree, ops: seq<Op>, doneNodes: set<Path>)
    requires BatchBuilt(r, peerId, ids, FileNode(r, serverName, queueId, fileName), position, t0, t, ops, ids.Keys, doneNodes)
    requires FileNode(r, serverName, queueId, fileName) in t0
    ensures var f := Overwrite(t, Writes(ops));
      forall p :: p in f && p !in t0 && (forall g :: g in ids ==> p != RegionPeerNode(r, g, peerId)) ==> f[p].data == EMPTY
  {
    var w := Writes(ops);
    forall p | p in t && p !in t0 && (forall g :: g in ids ==> p != RegionPeerNode(r, g, peerId))
      ensures p !in w
    {
      assert p !in doneNodes;
    }
  }

  /** The operations of claimQueue's transaction before the final delete of the old
      queue: create the new queue, then for each WAL create its copy with the
      original's data and delete the original. */
  method ClaimOps(t1: Tree, srcQ: Path, dstQ: Path, wals: set<Name>) returns (ops: seq<Op>)
    requires ClaimSetting(t1, srcQ, dstQ) && wals == Children(t1, srcQ)
    ensures ClaimProgress(t1, ops, srcQ, dstQ, wals)
  {
    ops := [Create(dstQ, EMPTY)];
    ClaimBegin(t1, srcQ, dstQ);
    var pending := wals;
    ghost var done: set<Name> := {};
    while pending != {}
      invariant done !! pending && done + pending == wals
      invariant ClaimProgress(t1, ops, srcQ, dstQ, done)
      decreases pending
    {
      var w :| w in pending;
      ClaimStep(t1, ops, srcQ, dstQ, done, w);
      ops := ops + MoveOps(t1, srcQ, dstQ, w);
      pending := pending - {w};
      done := done + {w};
    }
  }

  /** claimQueue's conditions read the same before and after the destination server
      node is created: that node lies above every queue and WAL node. */
  lemma ClaimConditions(t0: Tree, r: Roots, sourceServer: Name, queueId: Name, destServer: Name)
    requires WellFormed(t0)
    ensures var t1 := CreateWithParents(t0, RsNode(r, destServer), EMPTY);
      var srcQ := QueueNode(r, sourceServer, queueId);
      var dstQ := QueueNode(r, destServer, queueId + "-" + sourceServer);
      && WellFormed(t1)
      && Children(t1, srcQ) == Children(t0, srcQ)
      && (dstQ in t1 <==> dstQ in t0)
      && (SomeBusy(t1, srcQ, Children(t0, srcQ)) <==> SomeBusy(t0, srcQ, Children(t0, srcQ)))
      && (forall w :: srcQ + [w] in t0 ==> srcQ + [w] in t1 && t1[srcQ + [w]] == t0[srcQ + [w]])
      && (Children(t0, srcQ) != {} ==> ClaimSetting(t1, srcQ, dstQ))
      && AllWals(t1, r.queues) == AllWals(t0, r.queues)
  {
    var rsNode := RsNode(r, destServer);
    var t1 := CreateWithParents(t0, rsNode, EMPTY);
    var srcQ := QueueNode(r, sourceServer, queueId);
    WalsAfterServerCreated(t0, r.queues, destServer);
    DeepNodesKept(t0, rsNode);
    BusyKept(t0, t1, srcQ, Children(t0, srcQ));
    if Children(t0, srcQ) != {} {
      ClaimSettingHolds(t0, r, sourceServer, queueId, destServer);
    }
  }

  lemma BusyKept(t0: Tree, t1: Tree, srcQ: Path, wals: set<Name>)
    requires forall w :: w in wals ==> Children(t1, srcQ + [w]) == Children(t0, srcQ + [w])
    ensures SomeBusy(t1, srcQ, wals) <==> SomeBusy(t0, srcQ, wals)
  {
    forall w | w in wals
      ensures HasChildren(t1, srcQ + [w]) <==> HasChildren(t0, srcQ + [w])
    {
      HasChildrenIff(t1, srcQ + [w]);
      HasChildrenIff(t0, srcQ + [w]);
    }
  }

  lemma ClaimSettingHolds(t0: Tree, r: Roots, sourceServer: Name, queueId: Name, destServer: Name)
    requires WellFormed(t0) && Children(t0, QueueNode(r, sourceServer, queueId)) != {}
    ensures ClaimSetting(CreateWithParents(t0, RsNode(r, destServer), EMPTY),
                         QueueNode(r, sourceServer, queueId), QueueNode(r, destServer, queueId + "-" + sourceServer))
  {
    var rsNode := RsNode(r, destServer);
    var t1 := CreateWithParents(t0, rsNode, EMPTY);
    var srcQ := QueueNode(r, sourceServer, queueId);
    var newQueueId := queueId + "-" + sourceServer;
    var dstQ := QueueNode(r, destServer, newQueueId);
    assert srcQ in t0 by {
      var w :| w in Children(t0, srcQ);
      assert Parent(srcQ + [w]) == srcQ;
    }
    assert |newQueueId| > |queueId|;
    assert dstQ != srcQ by {
      assert dstQ[|dstQ| - 1] != srcQ[|srcQ| - 1];
    }
    assert Parent(dstQ) == rsNode;
  }

  /** After a successful claim the old queue is gone and every moved WAL reads back
      the position it had in the old queue. */
  lemma ClaimedPositions(t0: Tree, t1: Tree, f: Tree, srcQ: Path, dstQ: Path, wals: set<Name>)
    requires ClaimSetting(t1, srcQ, dstQ) && ClaimedTree(t1, f, srcQ, dstQ, wals)
    requires forall w :: srcQ + [w] in t0 ==> srcQ + [w] in t1 && t1[srcQ + [w]] == t0[srcQ + [w]]
    requires wals == Children(t0, srcQ)
    ensures srcQ !in f
    ensures forall w :: w in wals ==>
      ReadPosition(f, FileNodeIn(dstQ, w), 0) == ReadPosition(t0, FileNodeIn(srcQ, w), 0)
  {
  }

  /** What claimQueue promises, for a tree t0 before the call and t after it. t1 is
      t0 with the destination server node created. */
  ghost predicate ClaimOutcome(r: Roots, sourceServer: Name, queueId: Name, destServer: Name,
                               t0: Tree, result: ClaimResult, t: Tree)
    requires WellFormed(t0)
  {
    && WellFormed(t)
    && ClaimVerdict(r, sourceServer, queueId, destServer, t0, result, t)
    && ClaimEffect(r, sourceServer, queueId, destServer, t0, result, t)
    && ClaimKeepsWals(r, sourceServer, queueId, destServer, t0, result, t)
  }

  /** The claim is lost exactly when the old queue has WALs and the new queue exists
      or some WAL has children; a lost claim leaves t1. A claim yields the new queue
      id and the WALs of the old queue. */
  ghost predicate ClaimVerdict(r: Roots, sourceServer: Name, queueId: Name, destServer: Name,
                               t0: Tree, result: ClaimResult, t: Tree)
    requires WellFormed(t0)
  {
    var srcQ := QueueNode(r, sourceServer, queueId);
    var newQueueId := queueId + "-" + sourceServer;
    var dstQ := QueueNode(r, destServer, newQueueId);
    var wals := Children(t0, srcQ);
    && (result == LostRace <==> wals != {} && (dstQ in t0 || SomeBusy(t0, srcQ, wals)))
    && (result == LostRace ==> t == CreateWithParents(t0, RsNode(r, destServer), EMPTY))
    && (result.Claimed? ==> result == Claimed(newQueueId, wals))
  }

  /** After a claim, an empty old queue is simply gone; otherwise its WALs have
      moved as ClaimedTree describes. */
  ghost predicate ClaimEffect(r: Roots, sourceServer: Name, queueId: Name, destServer: Name,
                              t0: Tree, result: ClaimResult, t: Tree)
    requires WellFormed(t0)
  {
    var t1 := CreateWithParents(t0, RsNode(r, destServer), EMPTY);
    var srcQ := QueueNode(r, sourceServer, queueId);
    var dstQ := QueueNode(r, destServer, queueId + "-" + sourceServer);
    var wals := Children(t0, srcQ);
    var rsNode := RsNode(r, sourceServer);
    && (result.Claimed? && wals == {} ==>
          && (forall q :: q in t <==> q in t1 && q != srcQ)
          && (forall q :: q in t ==> t[q].data == t1[q].data)
          // deleteNodeFailSilent moves only the server node's counter
          && (forall q :: q in t && q != rsNode ==> t[q] == t1[q])
          && (rsNode in t1 ==> t[rsNode] == t1[rsNode].(cversion := t1[rsNode].cversion + if srcQ in t1 then 1 else 0)))
    && (result.Claimed? && wals != {} ==> ClaimedTree(t1, t, srcQ, dstQ, wals))
    && (result.Claimed? ==> srcQ !in t)
  }

  /** Every moved WAL keeps its replication position, and no WAL is lost or
      invented, whatever the outcome. */
  ghost predicate ClaimKeepsWals(r: Roots, sourceServer: Name, queueId: Name, destServer: Name,
                                 t0: Tree, result: ClaimResult, t: Tree)
  {
    var srcQ := QueueNode(r, sourceServer, queueId);
    var dstQ := QueueNode(r, destServer, queueId + "-" + sourceServer);
    && (result.Claimed? ==> forall w :: w in Children(t0, srcQ) ==>
          ReadPosition(t, FileNodeIn(dstQ, w), 0) == ReadPosition(t0, FileNodeIn(srcQ, w), 0))
    && AllWals(t, r.queues) == AllWals(t0, r.queues)
  }

  lemma ClaimOfEmptyQueue(r: Roots, sourceServer: Name, queueId: Name, destServer: Name, t0: Tree, t: Tree)
    requires WellFormed(t0)
    requires var t1 := CreateWithParents(t0, RsNode(r, destServer), EMPTY);
      var srcQ := QueueNode(r, sourceServer, queueId);
      && Children(t0, srcQ) == {}
      && ApplyOp(t1, DeleteIfPresent(srcQ)).Committed?
      && t == ApplyOp(t1, DeleteIfPresent(srcQ)).tree
    ensures ClaimOutcome(r, sourceServer, queueId, destServer, t0, Claimed(queueId + "-" + sourceServer, {}), t)
  {
    var t1 := CreateWithParents(t0, RsNode(r, destServer), EMPTY);
    var srcQ := QueueNode(r, sourceServer, queueId);
    ClaimConditions(t0, r, sourceServer, queueId, destServer);
    assert Parent(srcQ) == RsNode(r, sourceServer);
    EmptyQueueRemoved(t1, srcQ, r.queues);
  }

  lemma ClaimOfQueue(r: Roots, sourceServer: Name, queueId: Name, destServer: Name, t0: Tree, f: Tree)
    requires WellFormed(t0)
    requires var t1 := CreateWithParents(t0, RsNode(r, destServer), EMPTY);
      var srcQ := QueueNode(r, sourceServer, queueId);
      var dstQ := QueueNode(r, destServer, queueId + "-" + sourceServer);
      && Children(t0, srcQ) != {}
      && dstQ !in t1 && !SomeBusy(t1, srcQ, Children(t1, srcQ))
      && ClaimedTree(t1, f, srcQ, dstQ, Children(t1, srcQ))
    ensures ClaimOutcome(r, sourceServer, queueId, destServer, t0,
                         Claimed(queueId + "-" + sourceServer, Children(t0, QueueNode(r, sourceServer, queueId))), f)
  {
    ClaimOfQueueVerdict(r, sourceServer, queueId, destServer, t0, f);
    ClaimOfQueueEffect(r, sourceServer, queueId, destServer, t0, f);
    ClaimOfQueueKeepsWals(r, sourceServer, queueId, destServer, t0, f);
  }

  lemma ClaimOfQueueVerdict(r: Roots, sourceServer: Name, queueId: Name, destServer: Name, t0: Tree, f: Tree)
    requires WellFormed(t0)
    requires var t1 := CreateWithParents(t0, RsNode(r, destServer), EMPTY);
      var srcQ := QueueNode(r, sourceServer, queueId);
      var dstQ := QueueNode(r, destServer, queueId + "-" + sourceServer);
      && Children(t0, srcQ) != {}
      && dstQ !in t1 && !SomeBusy(t1, srcQ, Children(t1, srcQ))
      && ClaimedTree(t1, f, srcQ, dstQ, Children(t1, srcQ))
    ensures ClaimVerdict(r, sourceServer, queueId, destServer, t0, Claimed(queueId + "-" + sourceServer, Children(t0, QueueNode(r, sourceServer, queueId))), f)
  {
    ClaimConditions(t0, r, sourceServer, queueId, destServer);
  }

  lemma ClaimOfQueueEffect(r: Roots, sourceServer: Name, queueId: Name, destServer: Name, t0: Tree, f: Tree)
    requires WellFormed(t0)
    requires var t1 := CreateWithParents(t0, RsNode(r, destServer), EMPTY);
      var srcQ := QueueNode(r, sourceServer, queueId);
      var dstQ := QueueNode(r, destServer, queueId + "-" + sourceServer);
      && Children(t0, srcQ) != {}
      && dstQ !in t1 && !SomeBusy(t1, srcQ, Children(t1, srcQ))
      && ClaimedTree(t1, f, srcQ, dstQ, Children(t1, srcQ))
    ensures ClaimEffect(r, sourceServer, queueId, destServer, t0, Claimed(queueId + "-" + sourceServer, Children(t0, QueueNode(r, sourceServer, queueId))), f)
  {
    ClaimConditions(t0, r, sourceServer, queueId, destServer);
  }

  lemma ClaimOfQueueKeepsWals(r: Roots, sourceServer: Name, queueId: Name, destServer: Name, t0: Tree, f: Tree)
    requires WellFormed(t0)
    requires var t1 := CreateWithParents(t0, RsNode(r, destServer), EMPTY);
      var srcQ := QueueNode(r, sourceServer, queueId);
      var dstQ := QueueNode(r, destServer, queueId + "-" + sourceServer);
      && Children(t0, srcQ) != {}
      && dstQ !in t1 && !SomeBusy(t1, srcQ, Children(t1, srcQ))
      && ClaimedTree(t1, f, srcQ, dstQ, Children(t1, srcQ))
    ensures ClaimKeepsWals(r, sourceServer, queueId, destServer, t0,
                           Claimed(queueId + "-" + sourceServer, Children(t0, QueueNode(r, sourceServer, queueId))), f)
  {
    ClaimOfQueueWals(r, sourceServer, queueId, destServer, t0, f);
    ClaimOfQueuePositions(r, sourceServer, queueId, destServer, t0, f);
  }

  lemma ClaimOfQueueWals(r: Roots, sourceServer: Name, queueId: Name, destServer: Name, t0: Tree, f: Tree)
    requires WellFormed(t0)
    requires var t1 := CreateWithParents(t0, RsNode(r, destServer), EMPTY);
      var srcQ := QueueNode(r, sourceServer, queueId);
      var dstQ := QueueNode(r, destServer, queueId + "-" + sourceServer);
      && Children(t0, srcQ) != {}
      && dstQ !in t1 && !SomeBusy(t1, srcQ, Children(t1, srcQ))
      && ClaimedTree(t1, f, srcQ, dstQ, Children(t1, srcQ))
    ensures AllWals(f, r.queues) == AllWals(t0, r.queues)
  {
    WalsAfterServerCreated(t0, r.queues, destServer);
    ClaimSettingHolds(t0, r, sourceServer, queueId, destServer);
    WalsAfterClaim(CreateWithParents(t0, RsNode(r, destServer), EMPTY), f, QueueNode(r, sourceServer, queueId),
                   QueueNode(r, destServer, queueId + "-" + sourceServer), r.queues);
  }

  lemma ClaimOfQueuePositions(r: Roots, sourceServer: Name, queueId: Name, destServer: Name, t0: Tree, f: Tree)
    requires WellFormed(t0)
    requires var t1 := CreateWithParents(t0, RsNode(r, destServer), EMPTY);
      var srcQ := QueueNode(r, sourceServer, queueId);
      var dstQ := QueueNode(r, destServer, queueId + "-" + sourceServer);
      && Children(t0, srcQ) != {}
      && dstQ !in t1 && !SomeBusy(t1, srcQ, Children(t1, srcQ))
      && ClaimedTree(t1, f, srcQ, dstQ, Children(t1, srcQ))
    ensures var srcQ := QueueNode(r, sourceServer, queueId);
      var dstQ := QueueNode(r, destServer, queueId + "-" + sourceServer);
      forall w :: w in Children(t0, srcQ) ==>
        ReadPosition(f, FileNodeIn(dstQ, w), 0) == ReadPosition(t0, FileNodeIn(srcQ, w), 0)
  {
    var t1 := CreateWithParents(t0, RsNode(r, destServer), EMPTY);
    var srcQ := QueueNode(r, sourceServer, queueId);
    DeepNodesKept(t0, RsNode(r, destServer));
    ClaimSettingHolds(t0, r, sourceServer, queueId, destServer);
    ClaimedPositions(t0, t1, f, srcQ, QueueNode(r, destServer, queueId + "-" + sourceServer), Children(t0, srcQ));
  }

  lemma ClaimLost(r: Roots, sourceServer: Name, queueId: Name, destServer: Name, t0: Tree)
    requires WellFormed(t0)
    requires var t1 := CreateWithParents(t0, RsNode(r, destServer), EMPTY);
      var srcQ := QueueNode(r, sourceServer, queueId);
      var dstQ := QueueNode(r, destServer, queueId + "-" + sourceServer);
      && Children(t0, srcQ) != {}
      && (dstQ in t1 || SomeBusy(t1, srcQ, Children(t1, srcQ)))
    ensures ClaimOutcome(r, sourceServer, queueId, destServer, t0, LostRace,
                         CreateWithParents(t0, RsNode(r, destServer), EMPTY))
  {
    ClaimConditions(t0, r, sourceServer, queueId, destServer);
  }

  /** After setWALPosition commits, getWALPosition reads the new position back and
      getLastSequenceId the new sequence id of every region named. */
  lemma PositionReadBack(r: Roots, serverName: Name, queueId: Name, fileName: Name, position: int,
                         peerId: Name, ids: map<string, int>, t0: Tree, t: Tree)
    requires PositionSet(r, serverName, queueId, fileName, position, peerId, ids, t0, Done, t)
    ensures ReadPosition(t, FileNode(r, serverName, queueId, fileName), 0) == position
    ensures forall g :: g in ids ==> ReadPosition(t, RegionPeerNode(r, g, peerId), NO_SEQNUM) == ids[g]
  {
    var fileNode := FileNode(r, serverName, queueId, fileName);
    assert fileNode in t && t[fileNode].data == EncodePosition(position);
    ReadEncoded(t, fileNode, 0, position);
    forall g | g in ids
      ensures ReadPosition(t, RegionPeerNode(r, g, peerId), NO_SEQNUM) == ids[g]
    {
      var p := RegionPeerNode(r, g, peerId);
      assert IsPrefix(p, p);
      assert p in t && t[p].data == EncodePosition(ids[g]);
      ReadEncoded(t, p, NO_SEQNUM, ids[g]);
    }
  }

  lemma ReadEncoded(t: Tree, p: Path, default: int, n: int)
    requires p in t && t[p].data == EncodePosition(n)
    ensures ReadPosition(t, p, default) == n
  {
    DecodeEncode(n);
  }

  /** After setWALPosition fails, every node that existed reads as before. */
  lemma PositionAbortKeepsReads(r: Roots, serverName: Name, queueId: Name, fileName: Name, position: int,
                                peerId: Name, ids: map<string, int>, t0: Tree, error: ZkError, t: Tree)
    requires PositionSet(r, serverName, queueId, fileName, position, peerId, ids, t0, Failed(error), t)
    ensures forall p, default :: p in t0 ==> ReadPosition(t, p, default) == ReadPosition(t0, p, default)
    // a region node the call created holds no sequence id yet, which reads as 0
    ensures forall g :: g in ids && RegionPeerNode(r, g, peerId) !in t0 ==>
      ReadPosition(t, RegionPeerNode(r, g, peerId), NO_SEQNUM) == 0
  {
    forall g | g in ids && RegionPeerNode(r, g, peerId) !in t0
      ensures ReadPosition(t, RegionPeerNode(r, g, peerId), NO_SEQNUM) == 0
    {
      assert IsPrefix(RegionPeerNode(r, g, peerId), RegionPeerNode(r, g, peerId));
    }
  }

  /** The references of a peer after addHFileRefs commits: the old ones and the
      names added. */
  lemma RefsAdded(t0: Tree, t: Tree, peerNode: Path, names: seq<Name>)
    requires forall q :: q in t <==> q in t0 || (IsChildOf(q, peerNode) && q[|peerNode|] in names)
    ensures Children(t, peerNode) == Children(t0, peerNode) + set n | n in names
  {
    forall n
      ensures n in Children(t, peerNode) <==> n in Children(t0, peerNode) || n in names
    {
      assert IsChildOf(peerNode + [n], peerNode) && (peerNode + [n])[|peerNode|] == n;
    }
  }

  /** The references of a peer after removeHFileRefs commits: the old ones less the
      names removed. */
  lemma RefsRemoved(t0: Tree, t: Tree, peerNode: Path, files: seq<Name>)
    requires forall q :: q in t <==> q in t0 && !(IsChildOf(q, peerNode) && q[|peerNode|] in files)
    ensures Children(t, peerNode) == Children(t0, peerNode) - set f | f in files
  {
    forall n
      ensures n in Children(t, peerNode) <==> n in Children(t0, peerNode) && n !in files
    {
      assert IsChildOf(peerNode + [n], peerNode) && (peerNode + [n])[|peerNode|] == n;
    }
  }

  class ReplicationQueueStorage {
    const roots: Roots
    var tree: Tree

    ghost predicate Valid()
      reads this
    {
      WellFormed(tree) && Disjoint(roots)
    }

    constructor (roots: Roots, store: Tree)
      requires Disjoint(roots) && WellFormed(store)
      ensures Valid() && this.roots == roots && tree == store
    {
      this.roots := roots;
      tree := store;
    }

    // ---- queues and WALs --------------------------------------------------------

    /** removeQueue: the queue node and everything under it are gone; nothing else
        changes except the server node's counter. */
    method RemoveQueue(serverName: Name, queueId: Name)
      requires Valid()
      modifies this
      ensures Valid()
      ensures var queueNode := QueueNode(roots, serverName, queueId);
        && (forall p :: p in tree <==> p in old(tree) && !IsPrefix(queueNode, p))
        && (forall p :: p in tree && p != RsNode(roots, serverName) ==> tree[p] == old(tree)[p])
        && (forall p :: p in tree ==> tree[p].data == old(tree)[p].data)
        // the server node counts the deletion of the queue once; a missing queue changes nothing
        && (queueNode !in old(tree) ==> tree == old(tree))
        && (queueNode in old(tree) ==>
              RsNode(roots, serverName) in tree &&
              tree[RsNode(roots, serverName)].cversion == old(tree)[RsNode(roots, serverName)].cversion + 1)
    {
      assert Parent(QueueNode(roots, serverName, queueId)) == RsNode(roots, serverName);
      tree := DeleteRecursive(tree, QueueNode(roots, serverName, queueId));
    }

    /** addWAL: the WAL node exists afterwards, with any missing server or queue node
        created; no existing node's data changes, and every new node is an ancestor
        of the WAL node (or the WAL node itself) with empty data. */
    method AddWAL(serverName: Name, queueId: Name, fileName: Name)
      requires Valid()
      modifies this
      ensures Valid()
      ensures var fileNode := FileNode(roots, serverName, queueId, fileName);
        && (forall p :: p in tree <==> p in old(tree) || IsPrefix(p, fileNode))
        && (forall p :: p in old(tree) ==> tree[p].data == old(tree)[p].data)
        && (forall p :: p in tree && p !in old(tree) ==> tree[p].data == EMPTY)
        // createWithParents counts one new child at the deepest existing ancestor only
        && (forall p :: p in old(tree) ==>
              tree[p].cversion - old(tree)[p].cversion ==
              if fileNode !in old(tree) && IsPrefix(p, fileNode) && p != fileNode && fileNode[..|p| + 1] !in old(tree) then 1 else 0)
        && (forall p :: p in tree && p !in old(tree) ==> tree[p].cversion == if p == fileNode then 0 else 1)
    {
      CreateCounters(tree, FileNode(roots, serverName, queueId, fileName), EMPTY);
      tree := CreateWithParents(tree, FileNode(roots, serverName, queueId, fileName), EMPTY);
    }

    /** removeWAL: a missing WAL node is not an error and changes nothing; otherwise
        the node is deleted, unless it has children, which fails without change. */
    method RemoveWAL(serverName: Name, queueId: Name, fileName: Name) returns (status: Status)
      requires Valid()
      modifies this
      ensures Valid()
      ensures var fileNode := FileNode(roots, serverName, queueId, fileName);
        && (fileNode !in old(tree) ==> status == Done && tree == old(tree))
        && (fileNode in old(tree) && HasChildren(old(tree), fileNode) ==> status == Failed(NotEmpty) && tree == old(tree))
        && (fileNode in old(tree) && !HasChildren(old(tree), fileNode) ==>
              && status == Done
              && (forall p :: p in tree <==> p in old(tree) && p != fileNode)
              && (forall p :: p in tree && p != QueueNode(roots, serverName, queueId) ==> tree[p] == old(tree)[p])
              && (forall p :: p in tree ==> tree[p].data == old(tree)[p].data)
              // the queue node counts the deletion once
              && QueueNode(roots, serverName, queueId) in tree
              && tree[QueueNode(roots, serverName, queueId)].cversion ==
                 old(tree)[QueueNode(roots, serverName, queueId)].cversion + 1)
    {
      var fileNode := FileNode(roots, serverName, queueId, fileName);
      assert Parent(fileNode) == QueueNode(roots, serverName, queueId);
      var result := DeleteNode(tree, fileNode);
      ApplyOpWellFormed(tree, Delete(fileNode));
      match result
      case Committed(t) =>
        tree := t;
        status := Done;
      case Aborted(e) =>
        // a missing node has already been deleted: logged and swallowed
        status := if e == NoNode then Done else Failed(e);
    }

    /** setWALPosition: one transaction sets the WAL position and the last pushed
        sequence id of every region in lastSeqIds (a null map is the empty map).
        The region-peer nodes are created beforehand, outside the transaction, so
        they exist afterwards whatever the outcome. The transaction commits exactly
        when the WAL node exists; then the WAL node and every named region-peer node
        hold the new values. If it aborts, no existing node's data changes. Nodes
        outside the regions subtree keep their counters either way. The peer id is
        ReplicationUtils.parsePeerIdFromQueueId(queueId), which is not part of this
        model and is passed in. */
    method SetWALPosition(serverName: Name, queueId: Name, fileName: Name, position: int,
                          peerId: Name, lastSeqIds: map<string, int>) returns (status: Status)
      requires Valid()
      modifies this
      ensures Valid()
      ensures PositionSet(roots, serverName, queueId, fileName, position, peerId, lastSeqIds, old(tree), status, tree)
    {
      var fileNode := FileNode(roots, serverName, queueId, fileName);
      ghost var t0 := tree;
      FileNodeOutsideRegions(roots, serverName, queueId, fileName);
      var ops;
      ghost var doneNodes;
      ops, doneNodes := PositionBatch(fileNode, position, peerId, lastSeqIds);
      PositionOutcome(roots, serverName, queueId, fileName, position, peerId, lastSeqIds, t0, tree, ops, doneNodes);
      match Multi(tree, ops)
      case Committed(t) =>
        tree := t;
        status := Done;
      case Aborted(e) =>
        status := Failed(e);
    }

    /** The loop of setWALPosition: the batch starts with the WAL node's new
        position; then, for each region, the region-peer node is created in the
        store with its ancestors and a write of its sequence id joins the batch. */
    method PositionBatch(fileNode: Path, position: int, peerId: Name, lastSeqIds: map<string, int>)
        returns (ops: seq<Op>, ghost doneNodes: set<Path>)
      requires Valid() && !IsPrefix(roots.regions, fileNode)
      modifies this
      ensures Valid()
      ensures BatchBuilt(roots, peerId, lastSeqIds, fileNode, position, old(tree), tree, ops, lastSeqIds.Keys, doneNodes)
    {
      ops := [SetData(fileNode, EncodePosition(position))];
      ghost var t0 := tree;
      ghost var done: set<string> := {};
      doneNodes := {};
      BatchStart(roots, peerId, lastSeqIds, fileNode, position, tree);
      var pending := lastSeqIds.Keys;
      while pending != {}
        invariant Valid()
        invariant done !! pending && done + pending == lastSeqIds.Keys
        invariant BatchBuilt(roots, peerId, lastSeqIds, fileNode, position, t0, tree, ops, done, doneNodes)
        decreases pending
      {
        var region :| region in pending;
        var path := RegionPeerNode(roots, region, peerId);
        BatchStep(roots, peerId, lastSeqIds, fileNode, position, t0, tree, ops, done, doneNodes, region);
        // make sure the node exists: a create inside the transaction would abort it
        tree := CreateWithParents(tree, path, EMPTY);
        ops := ops + [SetData(path, EncodePosition(lastSeqIds[region]))];
        pending := pending - {region};
        done, doneNodes := done + {region}, doneNodes + {path};
      }
    }

    /** getWALPosition: the stored position, or 0 when the node is missing or its
        payload does not decode. */
    method GetWALPosition(serverName: Name, queueId: Name, fileName: Name) returns (position: int)
      requires Valid()
      ensures position == ReadPosition(tree, FileNode(roots, serverName, queueId, fileName), 0)
    {
      var fileNode := FileNode(roots, serverName, queueId, fileName);
      if fileNode in tree {
        match DecodePosition(tree[fileNode].data)
        case Some(n) =>
          return n;
        case None =>
      }
      // if the position cannot be read, start at the beginning of the WAL again
      return 0;
    }

    /** getLastSequenceId: the stored sequence id of the region for the peer, or
        NO_SEQNUM when the node is missing or its payload does not decode. */
    method GetLastSequenceId(encodedRegionName: string, peerId: Name) returns (seqId: int)
      requires Valid()
      ensures seqId == ReadPosition(tree, RegionPeerNode(roots, encodedRegionName, peerId), NO_SEQNUM)
    {
      var path := RegionPeerNode(roots, encodedRegionName, peerId);
      if path in tree {
        match DecodePosition(tree[path].data)
        case Some(n) =>
          return n;
        case None =>
      }
      return NO_SEQNUM;
    }

    /** claimQueue: move queue `queueId` of a dead server to `destServer`, under the
        new id queueId + "-" + sourceServer. The destination server node is created
        first, with its ancestors. A queue without WALs is just deleted, and the
        claim yields the new id and no WAL. Otherwise one transaction moves every
        WAL, with its data, to the new queue and deletes the old queue. The
        transaction fails, and the claim yields LostRace (null), exactly when the
        new queue node already exists or some WAL node has children: in a
        concurrent store, the marks of another claimant. Either way no WAL is lost. */
    method ClaimQueue(sourceServer: Name, queueId: Name, destServer: Name) returns (result: ClaimResult)
      requires Valid()
      modifies this
      ensures Valid()
      ensures ClaimOutcome(roots, sourceServer, queueId, destServer, old(tree), result, tree)
    {
      ghost var t0 := tree;
      tree := CreateWithParents(tree, RsNode(roots, destServer), EMPTY);
      ghost var t1 := tree;
      ClaimConditions(t0, roots, sourceServer, queueId, destServer);
      var srcQ := QueueNode(roots, sourceServer, queueId);
      var wals := Children(tree, srcQ);
      var newQueueId := queueId + "-" + sourceServer;
      if wals == {} {
        // deleteNodeFailSilent on the old queue node
        EmptyQueueRemoved(tree, srcQ, roots.queues);
        tree := ApplyOp(tree, DeleteIfPresent(srcQ)).tree;
        ClaimOfEmptyQueue(roots, sourceServer, queueId, destServer, t0, tree);
        return Claimed(newQueueId, {});
      }
      var dstQ := QueueNode(roots, destServer, newQueueId);
      var ops := ClaimOps(tree, srcQ, dstQ, wals);
      ClaimEnd(tree, ops, srcQ, dstQ);
      ops := ops + [Delete(srcQ)];
      match Multi(tree, ops)
      case Committed(t) =>
        ClaimOfQueue(roots, sourceServer, queueId, destServer, t0, t);
        tree := t;
        result := Claimed(newQueueId, wals);
      case Aborted(_) =>
        // NoNode, NodeExists, NotEmpty, BadVersion: someone else took the queue
        ClaimLost(roots, sourceServer, queueId, destServer, t0);
        result := LostRace;
    }

    /** removeReplicatorIfQueueIsEmpty: the server node is deleted when it has no
        queues; a missing node or one that still has queues is left silently. */
    method RemoveReplicatorIfQueueIsEmpty(serverName: Name)
      requires Valid()
      modifies this
      ensures Valid()
      ensures var rsNode := RsNode(roots, serverName);
        && (rsNode in old(tree) && !HasChildren(old(tree), rsNode) ==>
              && (forall p :: p in tree <==> p in old(tree) && p != rsNode)
              && (forall p :: p in tree && p != roots.queues ==> tree[p] == old(tree)[p])
              && (forall p :: p in tree ==> tree[p].data == old(tree)[p].data)
              // the queues root counts the deletion once, as getAllWALs observes
              && roots.queues in tree
              && tree[roots.queues].cversion == old(tree)[roots.queues].cversion + 1)
        && (rsNode !in old(tree) || HasChildren(old(tree), rsNode) ==> tree == old(tree))
    {
      var rsNode := RsNode(roots, serverName);
      assert Parent(rsNode) == roots.queues;
      var result := ApplyOp(tree, DeleteIfPresent(rsNode));
      ApplyOpWellFormed(tree, DeleteIfPresent(rsNode));
      if result.Committed? {
        tree := result.tree;
      }
      // NotEmptyException: kept silent
    }

    /** getListOfReplicators: the servers that have a node under the queues root. */
    method GetListOfReplicators() returns (servers: set<Name>)
      requires Valid()
      ensures forall s :: s in servers <==> RsNode(roots, s) in tree
    {
      servers := Children(tree, roots.queues);
    }

    /** getAllQueues: the queues of one server. */
    method GetAllQueues(serverName: Name) returns (queueIds: set<Name>)
      requires Valid()
      ensures forall q :: q in queueIds <==> QueueNode(roots, serverName, q) in tree
    {
      queueIds := Children(tree, RsNode(roots, serverName));
    }

    /** getWALsInQueue: the WALs of one queue. */
    method GetWALsInQueue(serverName: Name, queueId: Name) returns (wals: set<Name>)
      requires Valid()
      ensures forall w :: w in wals <==> FileNode(roots, serverName, queueId, w) in tree
    {
      wals := Children(tree, QueueNode(roots, serverName, queueId));
    }
  
    /** getQueuesZNodeCversion: the child-change counter of the queues root, as a
        stat read reports it (0 when the node is missing). */
    method GetQueuesZNodeCversion() returns (v: nat)
      requires Valid()
      ensures roots.queues in tree ==> v == tree[roots.queues].cversion
      ensures roots.queues !in tree ==> v == 0
    {
      v := Cversion(tree, roots.queues);
    }

    /** The inner loop of getAllWALs: the WALs in all queues of one server. */
    method WalsOfServer(rs: Name) returns (wals: set<Name>)
      requires Valid()
      ensures wals == WalsOfServers(tree, roots.queues, {rs})
    {
      var queueIds := Children(tree, RsNode(roots, rs));
      WalsOfAllQueues(tree, roots.queues, rs);
      wals := {};
      var pending := queueIds;
      ghost var done: set<Name> := {};
      while pending != {}
        invariant done + pending == queueIds
        invariant wals == WalsOfQueues(tree, roots.queues, rs, done)
        decreases pending
      {
        var queueId :| queueId in pending;
        WalsOfQueuesAdd(tree, roots.queues, rs, done, queueId);
        wals := wals + Children(tree, QueueNode(roots, rs, queueId));
        pending := pending - {queueId};
        done := done + {queueId};
      }
    }

    /** getAllWALs: every WAL in every queue of every replicator. The walk is
        bracketed by two reads of the queues root's counter and is repeated until
        they agree; with no concurrent writer they always agree at once. */
    method GetAllWALs() returns (wals: set<Name>)
      requires Valid()
      ensures wals == AllWals(tree, roots.queues)
    {
      var v0 := GetQueuesZNodeCversion();
      var rss := Children(tree, roots.queues);
      WalsOfAllServers(tree, roots.queues);
      if rss == {} {
        return {};
      }
      wals := {};
      var pendingServers := rss;
      ghost var done: set<Name> := {};
      while pendingServers != {}
        invariant done + pendingServers == rss
        invariant wals == WalsOfServers(tree, roots.queues, done)
        decreases pendingServers
      {
        var rs :| rs in pendingServers;
        WalsOfServersAdd(tree, roots.queues, done, rs);
        var found := WalsOfServer(rs);
        wals := wals + found;
        pendingServers := pendingServers - {rs};
        done := done + {rs};
      }
      var v1 := GetQueuesZNodeCversion();
      // nothing changed the tree in between, so the check passes on the first try
      assert v0 == v1;
    }

    // ---- hfile references -------------------------------------------------------

    /** addPeerToHFileRefs: the peer node exists afterwards, created with its
        ancestors when it was missing; no existing node's data changes. */
    method AddPeerToHFileRefs(peerId: Name)
      requires Valid()
      modifies this
      ensures Valid()
      ensures var peerNode := HFileRefsPeerNode(roots, peerId);
        && (peerNode in old(tree) ==> tree == old(tree))
        && (forall p :: p in tree <==> p in old(tree) || IsPrefix(p, peerNode))
        && (forall p :: p in old(tree) ==> tree[p].data == old(tree)[p].data)
        && (forall p :: p in tree && p !in old(tree) ==> tree[p].data == EMPTY)
        // createWithParents counts one new child at the deepest existing ancestor only
        && (forall p :: p in old(tree) ==>
              tree[p].cversion - old(tree)[p].cversion ==
              if peerNode !in old(tree) && IsPrefix(p, peerNode) && p != peerNode && peerNode[..|p| + 1] !in old(tree) then 1 else 0)
        && (forall p :: p in tree && p !in old(tree) ==> tree[p].cversion == if p == peerNode then 0 else 1)
    {
      var peerNode := HFileRefsPeerNode(roots, peerId);
      if peerNode !in tree {
        CreateCounters(tree, peerNode, EMPTY);
        tree := CreateWithParents(tree, peerNode, EMPTY);
      } else {
        AncestorsOf(tree, peerNode);
      }
    }

    /** removePeerFromHFileRefs: the peer node and all its references are gone; a
        missing peer node changes nothing. */
    method RemovePeerFromHFileRefs(peerId: Name)
      requires Valid()
      modifies this
      ensures Valid()
      ensures var peerNode := HFileRefsPeerNode(roots, peerId);
        && (peerNode !in old(tree) ==> tree == old(tree))
        && (forall p :: p in tree <==> p in old(tree) && !IsPrefix(peerNode, p))
        && (forall p :: p in tree && p != roots.hfileRefs ==> tree[p] == old(tree)[p])
        && (forall p :: p in tree ==> tree[p].data == old(tree)[p].data)
        // the hfile-refs root counts the deletion once, as getAllHFileRefs observes
        && (peerNode in old(tree) ==>
              roots.hfileRefs in tree && tree[roots.hfileRefs].cversion == old(tree)[roots.hfileRefs].cversion + 1)
    {
      var peerNode := HFileRefsPeerNode(roots, peerId);
      if peerNode in tree {
        assert Parent(peerNode) == roots.hfileRefs;
        tree := DeleteRecursive(tree, peerNode);
      } else {
        NoDescendants(tree, peerNode);
      }
    }

    /** addHFileRefs: one fail-silent create per pair, named by the base name of the
        pair's second path, sent as one batch. The batch fails, changing nothing,
        exactly when the peer node is missing and there is something to add; else
        every named reference exists afterwards, the new ones empty, and nothing
        else changes but the peer node's counter. */
    method AddHFileRefs(peerId: Name, pairs: seq<HFilePair>) returns (status: Status)
      requires Valid()
      modifies this
      ensures Valid()
      ensures var peerNode := HFileRefsPeerNode(roots, peerId);
        var names := RefNames(pairs);
        && (status == Done <==> peerNode in old(tree) || pairs == [])
        && (status != Done ==> status == Failed(NoNode) && tree == old(tree))
        && (status == Done ==>
              && (forall q :: q in tree <==> q in old(tree) || (IsChildOf(q, peerNode) && q[|peerNode|] in names))
              && (forall q :: q in old(tree) && q != peerNode ==> tree[q] == old(tree)[q])
              && (peerNode in old(tree) ==> tree[peerNode].data == old(tree)[peerNode].data)
              && (forall q :: q in tree && q !in old(tree) ==> tree[q] == Znode(EMPTY, 0)))
    {
      var peerNode := HFileRefsPeerNode(roots, peerId);
      var names := RefNames(pairs);
      var ops := CreateChildOps(peerNode, names);
      MultiCreateChildren(tree, peerNode, names);
      MultiWellFormed(tree, ops);
      match Multi(tree, ops)
      case Committed(t) =>
        tree := t;
        status := Done;
      case Aborted(e) =>
        status := Failed(e);
    }

    /** removeHFileRefs: one fail-silent delete per file name, sent as one batch.
        Missing references are ignored; the batch fails, changing nothing, exactly
        when some named reference has children of its own. Otherwise the named
        references are gone and nothing else changes but the peer node's counter. */
    method RemoveHFileRefs(peerId: Name, files: seq<Name>) returns (status: Status)
      requires Valid()
      modifies this
      ensures Valid()
      ensures var peerNode := HFileRefsPeerNode(roots, peerId);
        && (status == Done <==> forall f :: f in files ==> !HasChildren(old(tree), HFileNode(peerNode, f)))
        && (status != Done ==> status == Failed(NotEmpty) && tree == old(tree))
        && (status == Done ==>
              && (forall q :: q in tree <==> q in old(tree) && !(IsChildOf(q, peerNode) && q[|peerNode|] in files))
              && (forall q :: q in tree && q != peerNode ==> tree[q] == old(tree)[q])
              && (peerNode in tree ==> tree[peerNode].data == old(tree)[peerNode].data))
    {
      var peerNode := HFileRefsPeerNode(roots, peerId);
      var ops := DeleteChildOps(peerNode, files);
      MultiDeleteChildren(tree, peerNode, files);
      MultiWellFormed(tree, ops);
      match Multi(tree, ops)
      case Committed(t) =>
        tree := t;
        status := Done;
      case Aborted(e) =>
        status := Failed(e);
    }

    /** getAllPeersFromHFileRefsQueue: the peers with a node under the hfile-refs root. */
    method GetAllPeersFromHFileRefsQueue() returns (peers: set<Name>)
      requires Valid()
      ensures forall p :: p in peers <==> HFileRefsPeerNode(roots, p) in tree
    {
      peers := Children(tree, roots.hfileRefs);
    }

    /** getReplicableHFiles: the references queued for one peer. */
    method GetReplicableHFiles(peerId: Name) returns (files: set<Name>)
      requires Valid()
      ensures forall f :: f in files <==> HFileNode(HFileRefsPeerNode(roots, peerId), f) in tree
    {
      files := Children(tree, HFileRefsPeerNode(roots, peerId));
    }

    /** getHFileRefsZNodeCversion: the child-change counter of the hfile-refs root. */
    method GetHFileRefsZNodeCversion() returns (v: nat)
      requires Valid()
      ensures roots.hfileRefs in tree ==> v == tree[roots.hfileRefs].cversion
      ensures roots.hfileRefs !in tree ==> v == 0
    {
      v := Cversion(tree, roots.hfileRefs);
    }

    /** getAllHFileRefs: every reference of every peer, read between two agreeing
        reads of the hfile-refs root's counter. */
    method GetAllHFileRefs() returns (refs: set<Name>)
      requires Valid()
      ensures refs == AllHFileRefs(tree, roots.hfileRefs)
    {
      var v0 := GetHFileRefsZNodeCversion();
      var peers := Children(tree, roots.hfileRefs);
      RefsOfAllPeers(tree, roots.hfileRefs);
      if peers == {} {
        return {};
      }
      refs := {};
      var pending := peers;
      ghost var done: set<Name> := {};
      while pending != {}
        invariant done + pending == peers
        invariant refs == RefsOfPeers(tree, roots.hfileRefs, done)
        decreases pending
      {
        var peer :| peer in pending;
        RefsOfPeersAdd(tree, roots.hfileRefs, done, peer);
        refs := refs + Children(tree, HFileRefsPeerNode(roots, peer));
        pending := pending - {peer};
        done := done + {peer};
      }
      var v1 := GetHFileRefsZNodeCversion();
      assert v0 == v1;
    }
  }
}
