/** Where the replication bookkeeping lives in the tree. A path is the sequence of its
    name components, so ZNodePaths.joinZNode(p, c) is p + [c]. The three roots
    (queues, hfile references, region progress) come from configuration in the source
    and are parameters here. */
module Layout {
  import opened Numerals

  type Name = string
  type Path = seq<Name>

  /** p is p itself or an ancestor of q. */
  predicate IsPrefix(p: Path, q: Path)
  {
    |p| <= |q| && q[..|p|] == p
  }

  /** queuesZNode, hfileRefsZNode and regionsZNode. */
  datatype Roots = Roots(queues: Path, hfileRefs: Path, regions: Path)

  /** The three subtrees are separate: no root lies in or above another. */
  predicate Disjoint(r: Roots)
  {
    && !IsPrefix(r.queues, r.hfileRefs) && !IsPrefix(r.hfileRefs, r.queues)
    && !IsPrefix(r.queues, r.regions) && !IsPrefix(r.regions, r.queues)
    && !IsPrefix(r.hfileRefs, r.regions) && !IsPrefix(r.regions, r.hfileRefs)
  }

  /** The roots under the replication node when the configuration names none:
      "rs", "hfile-refs" and "regions". */
  function DefaultRoots(replicationZNode: Path): (r: Roots)
    ensures Disjoint(r)
    ensures r.queues == replicationZNode + ["rs"]
    ensures r.hfileRefs == replicationZNode + ["hfile-refs"]
    ensures r.regions == replicationZNode + ["regions"]
  {
    var r := Roots(replicationZNode + ["rs"], replicationZNode + ["hfile-refs"], replicationZNode + ["regions"]);
    SiblingsSeparate(replicationZNode, "rs", "hfile-refs");
    SiblingsSeparate(replicationZNode, "rs", "regions");
    SiblingsSeparate(replicationZNode, "hfile-refs", "regions");
    r
  }

  /** Two distinct children of one node are not on one line. */
  lemma SiblingsSeparate(p: Path, a: Name, b: Name)
    requires a != b
    ensures !IsPrefix(p + [a], p + [b]) && !IsPrefix(p + [b], p + [a])
  {
    assert (p + [a])[|p|] == a && (p + [b])[|p|] == b;
  }

  /** Two paths that are not on one line have no common descendant. */
  lemma Separate(x: Path, y: Path, p: Path)
    requires !IsPrefix(x, y) && !IsPrefix(y, x)
    ensures !(IsPrefix(x, p) && IsPrefix(y, p))
  {
  }

  // ---- WAL queues -------------------------------------------------------------

  /** getRsNode: the node of one region server (a replicator). */
  function RsNode(r: Roots, serverName: Name): Path
  {
    r.queues + [serverName]
  }

  /** getQueueNode. */
  function QueueNode(r: Roots, serverName: Name, queueId: Name): Path
  {
    RsNode(r, serverName) + [queueId]
  }

  /** getFileNode(queueNode, fileName). */
  function FileNodeIn(queueNode: Path, fileName: Name): Path
  {
    queueNode + [fileName]
  }

  /** getFileNode(serverName, queueId, fileName). */
  function FileNode(r: Roots, serverName: Name, queueId: Name, fileName: Name): Path
  {
    FileNodeIn(QueueNode(r, serverName, queueId), fileName)
  }

  // ---- hfile references -------------------------------------------------------

  /** getHFileRefsPeerNode. */
  function HFileRefsPeerNode(r: Roots, peerId: Name): Path
  {
    r.hfileRefs + [peerId]
  }

  /** getHFileNode. */
  function HFileNode(peerNode: Path, fileName: Name): Path
  {
    peerNode + [fileName]
  }

  // ---- region progress (serial replication) ------------------------------------

  const TWO_TO_32: int := 0x1_0000_0000
  const BUCKETS: int := 0x1_0000

  /** String.hashCode(): h = 31 * h + c over the characters, in 32-bit arithmetic.
      The result is the int's bit pattern read as an unsigned number. */
  function JavaStringHash(s: string): (h: int)
    ensures 0 <= h < TWO_TO_32
    decreases |s|
  {
    if |s| == 0 then 0 else (31 * JavaStringHash(s[..|s| - 1]) + s[|s| - 1] as int) % TWO_TO_32
  }

  /** The signed Java int with bit pattern u. */
  function AsJavaInt(u: int): int
    requires 0 <= u < TWO_TO_32
  {
    if u < 0x8000_0000 then u else u - TWO_TO_32
  }

  /** x & 0x0000FFFF for a two's-complement int x: its low 16 bits. */
  function LowBits16(x: int): int
  {
    x % BUCKETS
  }

  /** The bucket of a region: encodedRegionName.hashCode() & 0xFFFF. */
  function RegionBucket(encodedRegionName: string): (b: int)
    ensures 0 <= b < BUCKETS
  {
    LowBits16(AsJavaInt(JavaStringHash(encodedRegionName)))
  }

  /** The leaf name String.format("%s-%s", encodedRegionName, peerId). */
  function RegionPeerLeaf(encodedRegionName: string, peerId: Name): Name
  {
    encodedRegionName + "-" + peerId
  }

  /** getSerialReplicationRegionPeerNode: regionsZNode / bucket / region-peer. */
  function RegionPeerNode(r: Roots, encodedRegionName: string, peerId: Name): Path
  {
    r.regions + [DecimalString(RegionBucket(encodedRegionName)), RegionPeerLeaf(encodedRegionName, peerId)]
  }

  /** The same hash taken in 16-bit arithmetic all along. */
  function Hash16(s: string): (h: int)
    ensures 0 <= h < BUCKETS
    decreases |s|
  {
    if |s| == 0 then 0 else (31 * Hash16(s[..|s| - 1]) + s[|s| - 1] as int) % BUCKETS
  }

  lemma ModOfMultiple(a: int, k: int)
    ensures (a + BUCKETS * k) % BUCKETS == a % BUCKETS
  {
  }

  /** The bucket is the low 16 bits of the hash whatever the 32-bit overflow and the
      sign: it can be computed modulo 65536 throughout. */
  lemma {:induction false} RegionBucketIsHash16(s: string)
    ensures RegionBucket(s) == Hash16(s)
    decreases |s|
  {
    var u := JavaStringHash(s);
    // the sign adjustment subtracts a multiple of 65536
    ModOfMultiple(u, -BUCKETS);
    assert RegionBucket(s) == u % BUCKETS;
    if |s| > 0 {
      var init, c := s[..|s| - 1], s[|s| - 1] as int;
      RegionBucketIsHash16(init);
      var h := JavaStringHash(init);
      ModOfMultiple(h, -BUCKETS);
      assert RegionBucket(init) == h % BUCKETS;
      var x := 31 * h + c;
      // reducing modulo 2^32 first does not change the value modulo 2^16
      ModOfMultiple(x % TWO_TO_32, BUCKETS * (x / TWO_TO_32));
      assert x == x % TWO_TO_32 + BUCKETS * (BUCKETS * (x / TWO_TO_32));
      assert u % BUCKETS == x % BUCKETS;
      // and reducing h modulo 2^16 does not either
      ModOfMultiple(31 * (h % BUCKETS) + c, 31 * (h / BUCKETS));
      assert x == 31 * (h % BUCKETS) + c + BUCKETS * (31 * (h / BUCKETS));
    }
  }

  /** Two regions share a bucket node exactly when they hash to the same bucket. */
  lemma BucketNodeOfBucket(r: Roots, a: string, b: string, peerIdA: Name, peerIdB: Name)
    ensures RegionPeerNode(r, a, peerIdA)[..|r.regions| + 1] == RegionPeerNode(r, b, peerIdB)[..|r.regions| + 1]
        <==> RegionBucket(a) == RegionBucket(b)
  {
    var na, nb := RegionPeerNode(r, a, peerIdA), RegionPeerNode(r, b, peerIdB);
    var k := |r.regions|;
    assert na[..k + 1] == r.regions + [DecimalString(RegionBucket(a))];
    assert nb[..k + 1] == r.regions + [DecimalString(RegionBucket(b))];
    if na[..k + 1] == nb[..k + 1] {
      assert na[k] == nb[k];
      DecimalStringInjective(RegionBucket(a), RegionBucket(b));
    }
  }

  /** For one peer, the region-peer node tells regions apart. */
  lemma RegionPeerNodeInjective(r: Roots, a: string, b: string, peerId: Name)
    requires RegionPeerNode(r, a, peerId) == RegionPeerNode(r, b, peerId)
    ensures a == b
  {
    var la, lb := RegionPeerLeaf(a, peerId), RegionPeerLeaf(b, peerId);
    assert la == RegionPeerNode(r, a, peerId)[|r.regions| + 1];
    assert lb == RegionPeerNode(r, b, peerId)[|r.regions| + 1];
    assert |a| == |b|;
    assert a == la[..|a|] == lb[..|b|] == b;
  }

  /** Encoded region names are hex digests and contain no '-'; then the leaf name
      determines both the region and the peer. */
  lemma RegionPeerLeafInjective(a: string, p: Name, b: string, q: Name)
    requires '-' !in a && '-' !in b
    requires RegionPeerLeaf(a, p) == RegionPeerLeaf(b, q)
    ensures a == b && p == q
  {
    var l := RegionPeerLeaf(a, p);
    assert l == RegionPeerLeaf(b, q);
    assert l[|a|] == '-' && l[|b|] == '-';
    assert a == l[..|a|] == b;
    assert p == l[|a| + 1..] == q;
  }
}
