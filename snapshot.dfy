/** What the enumerations getAllWALs and getAllHFileRefs collect: the names of the
    nodes at a fixed depth under a root. */
module Snapshot {
  import opened Codec
  import opened Layout
  import opened ZNodeTree

  /** The names of all WAL nodes: the nodes three levels under the queues root
      (server, queue, WAL). */
  function AllWals(t: Tree, queuesRoot: Path): set<Name>
  {
    set p | p in t && |p| == |queuesRoot| + 3 && p[..|queuesRoot|] == queuesRoot :: p[|queuesRoot| + 2]
  }

  /** The names of all hfile references: the nodes two levels under the hfile-refs
      root (peer, file). */
  function AllHFileRefs(t: Tree, hfileRefsRoot: Path): set<Name>
  {
    set p | p in t && |p| == |hfileRefsRoot| + 2 && p[..|hfileRefsRoot|] == hfileRefsRoot :: p[|hfileRefsRoot| + 1]
  }

  /** Creating a server node, with its ancestors, adds no WAL. */
  lemma {:induction false} WalsAfterServerCreated(t: Tree, queuesRoot: Path, serverName: Name)
    requires WellFormed(t)
    ensures AllWals(CreateWithParents(t, queuesRoot + [serverName], EMPTY), queuesRoot) == AllWals(t, queuesRoot)
  {
    var t1 := CreateWithParents(t, queuesRoot + [serverName], EMPTY);
    forall n | n in AllWals(t1, queuesRoot)
      ensures n in AllWals(t, queuesRoot)
    {
      var p :| p in t1 && |p| == |queuesRoot| + 3 && p[..|queuesRoot|] == queuesRoot && p[|queuesRoot| + 2] == n;
      assert p in t;
    }
  }

  /** Creating the ancestors of p leaves every node deeper than p as it was. */
  lemma DeepNodesKept(t: Tree, p: Path)
    requires WellFormed(t)
    ensures var t1 := CreateWithParents(t, p, EMPTY);
      && (forall q :: |q| > |p| ==> (q in t1 <==> q in t))
      && (forall q :: |q| > |p| && q in t ==> t1[q] == t[q])
      && (forall q :: |q| >= |p| ==> Children(t1, q) == Children(t, q))
  {
  }

  // ---- the enumeration, server by server and queue by queue ----------------------

  /** The WALs in the queues of the servers in `servers`. */
  function WalsOfServers(t: Tree, queuesRoot: Path, servers: set<Name>): set<Name>
  {
    set p | p in t && |p| == |queuesRoot| + 3 && p[..|queuesRoot|] == queuesRoot && p[|queuesRoot|] in servers
      :: p[|queuesRoot| + 2]
  }

  /** The WALs in the queues `queues` of one server. */
  function WalsOfQueues(t: Tree, queuesRoot: Path, server: Name, queues: set<Name>): set<Name>
  {
    set p | p in t && |p| == |queuesRoot| + 3 && p[..|queuesRoot|] == queuesRoot && p[|queuesRoot|] == server
      && p[|queuesRoot| + 1] in queues :: p[|queuesRoot| + 2]
  }

  /** Every WAL node hangs under a server node, so walking the servers finds all WALs. */
  lemma WalsOfAllServers(t: Tree, queuesRoot: Path)
    requires WellFormed(t)
    ensures WalsOfServers(t, queuesRoot, Children(t, queuesRoot)) == AllWals(t, queuesRoot)
  {
    var k := |queuesRoot|;
    forall p | p in t && |p| == k + 3 && p[..k] == queuesRoot
      ensures p[k] in Children(t, queuesRoot)
    {
      var rs := p[..k + 1];
      AncestorPresent(t, p, rs);
      assert rs == queuesRoot + [p[k]];
    }
  }

  /** Every WAL node of a server hangs under one of its queue nodes. */
  lemma WalsOfAllQueues(t: Tree, queuesRoot: Path, server: Name)
    requires WellFormed(t)
    ensures WalsOfQueues(t, queuesRoot, server, Children(t, queuesRoot + [server]))
         == WalsOfServers(t, queuesRoot, {server})
  {
    var k := |queuesRoot|;
    forall p | p in t && |p| == k + 3 && p[..k] == queuesRoot && p[k] == server
      ensures p[k + 1] in Children(t, queuesRoot + [server])
    {
      var q := p[..k + 2];
      AncestorPresent(t, p, q);
      assert q == queuesRoot + [server] + [p[k + 1]];
    }
  }

  lemma WalsOfServersAdd(t: Tree, queuesRoot: Path, servers: set<Name>, server: Name)
    ensures WalsOfServers(t, queuesRoot, servers + {server})
         == WalsOfServers(t, queuesRoot, servers) + WalsOfServers(t, queuesRoot, {server})
  {
  }

  lemma WalsOfQueuesAdd(t: Tree, queuesRoot: Path, server: Name, queues: set<Name>, queue: Name)
    ensures WalsOfQueues(t, queuesRoot, server, queues + {queue})
         == WalsOfQueues(t, queuesRoot, server, queues) + Children(t, queuesRoot + [server] + [queue])
  {
    var k := |queuesRoot|;
    var qn := queuesRoot + [server] + [queue];
    forall w | w in Children(t, qn)
      ensures w in WalsOfQueues(t, queuesRoot, server, queues + {queue})
    {
      var p := qn + [w];
      assert p[..k] == queuesRoot && p[k] == server && p[k + 1] == queue && p[k + 2] == w;
    }
    forall p | p in t && |p| == k + 3 && p[..k] == queuesRoot && p[k] == server && p[k + 1] == queue
      ensures p[k + 2] in Children(t, qn)
    {
      assert p == qn + [p[k + 2]];
    }
  }

  /** The hfile references of the peers in `peers`. */
  function RefsOfPeers(t: Tree, hfileRefsRoot: Path, peers: set<Name>): set<Name>
  {
    set p | p in t && |p| == |hfileRefsRoot| + 2 && p[..|hfileRefsRoot|] == hfileRefsRoot
      && p[|hfileRefsRoot|] in peers :: p[|hfileRefsRoot| + 1]
  }

  /** Every reference hangs under a peer node, so walking the peers finds them all. */
  lemma RefsOfAllPeers(t: Tree, hfileRefsRoot: Path)
    requires WellFormed(t)
    ensures RefsOfPeers(t, hfileRefsRoot, Children(t, hfileRefsRoot)) == AllHFileRefs(t, hfileRefsRoot)
  {
    var k := |hfileRefsRoot|;
    forall p | p in t && |p| == k + 2 && p[..k] == hfileRefsRoot
      ensures p[k] in Children(t, hfileRefsRoot)
    {
      var peer := p[..k + 1];
      AncestorPresent(t, p, peer);
      assert peer == hfileRefsRoot + [p[k]];
    }
  }

  lemma RefsOfPeersAdd(t: Tree, hfileRefsRoot: Path, peers: set<Name>, peer: Name)
    ensures RefsOfPeers(t, hfileRefsRoot, peers + {peer})
         == RefsOfPeers(t, hfileRefsRoot, peers) + Children(t, hfileRefsRoot + [peer])
  {
    var k := |hfileRefsRoot|;
    var pn := hfileRefsRoot + [peer];
    forall f | f in Children(t, pn)
      ensures f in RefsOfPeers(t, hfileRefsRoot, peers + {peer})
    {
      var p := pn + [f];
      assert p[..k] == hfileRefsRoot && p[k] == peer && p[k + 1] == f;
    }
    forall p | p in t && |p| == k + 2 && p[..k] == hfileRefsRoot && p[k] == peer
      ensures p[k + 1] in Children(t, pn)
    {
      assert p == pn + [p[k + 1]];
    }
  }
}
