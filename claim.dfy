/** The transaction claimQueue sends: create the new queue node, then for every WAL of
    the old queue create its copy under the new queue and delete the original, then
    delete the old queue node. In one transaction (multiOrSequential with the fallback
    off) ZKUtil sends its fail-silent creates and deletes as plain ones, so a node that
    already exists or still has children aborts the whole claim. */
module Claim {
  import opened Codec
  import opened Layout
  import opened ZNodeTree
  import opened Snapshot

  /** What the claim relies on: the old queue exists, the new queue's parent exists,
      and the two queue nodes are different nodes at the same depth. */
  ghost predicate ClaimSetting(t1: Tree, srcQ: Path, dstQ: Path)
  {
    && WellFormed(t1)
    && srcQ != [] && |dstQ| == |srcQ| && dstQ != srcQ
    && srcQ in t1 && Parent(dstQ) in t1
  }

  /** The tree once the WALs in `done` have moved from srcQ to dstQ. */
  ghost predicate Moved(t1: Tree, s: Tree, srcQ: Path, dstQ: Path, done: set<Name>)
  {
    && dstQ != [] && WellFormed(s)
    && MovedKeys(t1, s, srcQ, dstQ, done)
    && MovedData(t1, s, srcQ, dstQ, done)
    && (forall q :: q in t1 && q in s && q != srcQ && q != Parent(dstQ) ==> s[q].cversion == t1[q].cversion)
  }

  /** The nodes: the moved WALs' originals are gone, the new queue and the copies exist. */
  ghost predicate MovedKeys(t1: Tree, s: Tree, srcQ: Path, dstQ: Path, done: set<Name>)
  {
    forall q :: q in s <==>
      || (q in t1 && !(IsChildOf(q, srcQ) && q[|srcQ|] in done))
      || q == dstQ
      || (IsChildOf(q, dstQ) && q[|dstQ|] in done)
  }

  /** The data: unchanged where a node survives, empty for the new queue, and each
      copy holds its original's data. */
  ghost predicate MovedData(t1: Tree, s: Tree, srcQ: Path, dstQ: Path, done: set<Name>)
  {
    && (forall q :: q in t1 && q in s ==> s[q].data == t1[q].data)
    && dstQ in s && s[dstQ].data == EMPTY
    && (forall w :: w in done ==>
          srcQ + [w] in t1 && dstQ + [w] in s && s[dstQ + [w]].data == t1[srcQ + [w]].data)
  }

  /** Some WAL in `done` has children of its own. */
  ghost predicate SomeBusy(t1: Tree, srcQ: Path, done: set<Name>)
  {
    exists w :: w in done && HasChildren(t1, srcQ + [w])
  }

  /** The outcome of the transaction built so far: an existing new queue node aborts it
      at the first operation, a WAL with children at its delete. */
  ghost predicate ClaimProgress(t1: Tree, ops: seq<Op>, srcQ: Path, dstQ: Path, done: set<Name>)
  {
    var r := Multi(t1, ops);
    if dstQ in t1 then r == Aborted(NodeExists)
    else if SomeBusy(t1, srcQ, done) then r == Aborted(NotEmpty)
    else r.Committed? && Moved(t1, r.tree, srcQ, dstQ, done)
  }

  /** The operations that move one WAL. */
  function MoveOps(t1: Tree, srcQ: Path, dstQ: Path, w: Name): (ops: seq<Op>)
    requires srcQ + [w] in t1
    ensures ops == [Create(dstQ + [w], t1[srcQ + [w]].data), Delete(srcQ + [w])]
  {
    [Create(dstQ + [w], t1[srcQ + [w]].data), Delete(srcQ + [w])]
  }

  lemma ClaimBegin(t1: Tree, srcQ: Path, dstQ: Path)
    requires ClaimSetting(t1, srcQ, dstQ)
    ensures ClaimProgress(t1, [Create(dstQ, EMPTY)], srcQ, dstQ, {})
  {
    var ops := [Create(dstQ, EMPTY)];
    assert ops[..0] == [];
    assert Multi(t1, ops) == CreateNode(t1, dstQ, EMPTY);
    if dstQ !in t1 {
      var s := Multi(t1, ops).tree;
      ApplyOpWellFormed(t1, Create(dstQ, EMPTY));
      assert s == Bump(t1, Parent(dstQ))[dstQ := Znode(EMPTY, 0)];
      NoDescendants(t1, dstQ);
    }
  }

  /** Creating the copy of WAL w under the new queue. */
  lemma MovedCreate(t1: Tree, s: Tree, srcQ: Path, dstQ: Path, done: set<Name>, w: Name)
    requires ClaimSetting(t1, srcQ, dstQ) && dstQ !in t1
    requires Moved(t1, s, srcQ, dstQ, done)
    requires w in Children(t1, srcQ) && w !in done
    ensures var src, dst := srcQ + [w], dstQ + [w];
      var s1 := Bump(s, dstQ)[dst := Znode(t1[src].data, 0)];
      && ApplyOp(s, Create(dst, t1[src].data)) == Committed(s1)
      && WellFormed(s1)
      && src in s1
      && (forall q :: IsChildOf(q, src) ==> (q in s1 <==> q in t1))
  {
    var src, dst := srcQ + [w], dstQ + [w];
    var d := t1[src].data;
    NoDescendants(t1, dstQ);
    assert dst !in s;
    assert Parent(dst) == dstQ;
    ApplyOpWellFormed(s, Create(dst, d));
    var s1 := Bump(s, dstQ)[dst := Znode(d, 0)];
    forall q | IsChildOf(q, src)
      ensures q in s1 <==> q in t1
    {
      assert !IsChildOf(q, srcQ) && !IsChildOf(q, dstQ) && q != dstQ && q != dst;
    }
  }

  /** The tree after moving WAL w: its copy created, its original deleted. */
  function MoveOne(t1: Tree, s: Tree, srcQ: Path, dstQ: Path, w: Name): Tree
    requires srcQ + [w] in t1
  {
    RemoveLeaf(Bump(s, dstQ)[dstQ + [w] := Znode(t1[srcQ + [w]].data, 0)], srcQ + [w])
  }

  lemma MoveOneKeys(t1: Tree, s: Tree, srcQ: Path, dstQ: Path, done: set<Name>, w: Name)
    requires ClaimSetting(t1, srcQ, dstQ) && dstQ !in t1
    requires MovedKeys(t1, s, srcQ, dstQ, done)
    requires w in Children(t1, srcQ)
    ensures MovedKeys(t1, MoveOne(t1, s, srcQ, dstQ, w), srcQ, dstQ, done + {w})
  {
    var src, dst := srcQ + [w], dstQ + [w];
    assert Parent(src) == srcQ;
    forall q
      ensures q in MoveOne(t1, s, srcQ, dstQ, w) <==>
        || (q in t1 && !(IsChildOf(q, srcQ) && q[|srcQ|] in done + {w}))
        || q == dstQ
        || (IsChildOf(q, dstQ) && q[|dstQ|] in done + {w})
    {
      if IsChildOf(q, dstQ) && q[|dstQ|] == w {
        assert q == dst;
      }
      if IsChildOf(q, srcQ) && q[|srcQ|] == w {
        assert q == src;
      }
    }
  }

  lemma MoveOneData(t1: Tree, s: Tree, srcQ: Path, dstQ: Path, done: set<Name>, w: Name)
    requires ClaimSetting(t1, srcQ, dstQ) && dstQ !in t1
    requires MovedData(t1, s, srcQ, dstQ, done)
    requires w in Children(t1, srcQ)
    ensures MovedData(t1, MoveOne(t1, s, srcQ, dstQ, w), srcQ, dstQ, done + {w})
  {
    var src, dst := srcQ + [w], dstQ + [w];
    var s2 := MoveOne(t1, s, srcQ, dstQ, w);
    assert Parent(src) == srcQ;
    NoDescendants(t1, dstQ);
    forall q | q in t1 && q in s2
      ensures s2[q].data == t1[q].data
    {
      assert q != dst && q in s;
    }
    forall v | v in done + {w}
      ensures srcQ + [v] in t1 && dstQ + [v] in s2 && s2[dstQ + [v]].data == t1[srcQ + [v]].data
    {
      assert dstQ + [v] != src && dstQ + [v] != srcQ && dstQ + [v] != dstQ;
      if v != w {
        assert (dstQ + [v])[|dstQ|] == v && dst[|dstQ|] == w;
      }
    }
  }

  /** Deleting the original of WAL w, which has no children. */
  lemma MovedDelete(t1: Tree, s: Tree, srcQ: Path, dstQ: Path, done: set<Name>, w: Name)
    requires ClaimSetting(t1, srcQ, dstQ) && dstQ !in t1
    requires Moved(t1, s, srcQ, dstQ, done)
    requires w in Children(t1, srcQ) && w !in done && !HasChildren(t1, srcQ + [w])
    ensures var src, dst := srcQ + [w], dstQ + [w];
      var s1 := Bump(s, dstQ)[dst := Znode(t1[src].data, 0)];
      ApplyOp(s1, Delete(src)) == Committed(MoveOne(t1, s, srcQ, dstQ, w))
      && Moved(t1, MoveOne(t1, s, srcQ, dstQ, w), srcQ, dstQ, done + {w})
  {
    var src, dst := srcQ + [w], dstQ + [w];
    MovedCreate(t1, s, srcQ, dstQ, done, w);
    var s1 := Bump(s, dstQ)[dst := Znode(t1[src].data, 0)];
    assert !HasChildren(s1, src);
    ApplyOpWellFormed(s1, Delete(src));
    MoveOneKeys(t1, s, srcQ, dstQ, done, w);
    MoveOneData(t1, s, srcQ, dstQ, done, w);
    assert Parent(src) == srcQ && Parent(dst) == dstQ;
  }

  lemma MovedStep(t1: Tree, s: Tree, srcQ: Path, dstQ: Path, done: set<Name>, w: Name)
    requires ClaimSetting(t1, srcQ, dstQ) && dstQ !in t1
    requires Moved(t1, s, srcQ, dstQ, done)
    requires w in Children(t1, srcQ) && w !in done
    ensures var d := t1[srcQ + [w]].data;
      var r := Then(ApplyOp(s, Create(dstQ + [w], d)), Delete(srcQ + [w]));
      && (HasChildren(t1, srcQ + [w]) ==> r == Aborted(NotEmpty))
      && (!HasChildren(t1, srcQ + [w]) ==> r.Committed? && Moved(t1, r.tree, srcQ, dstQ, done + {w}))
  {
    MovedCreate(t1, s, srcQ, dstQ, done, w);
    if HasChildren(t1, srcQ + [w]) {
      var q :| q in t1 && IsChildOf(q, srcQ + [w]);
    } else {
      MovedDelete(t1, s, srcQ, dstQ, done, w);
    }
  }

  lemma ClaimStep(t1: Tree, ops: seq<Op>, srcQ: Path, dstQ: Path, done: set<Name>, w: Name)
    requires ClaimSetting(t1, srcQ, dstQ)
    requires ClaimProgress(t1, ops, srcQ, dstQ, done)
    requires w in Children(t1, srcQ) && w !in done
    ensures ClaimProgress(t1, ops + MoveOps(t1, srcQ, dstQ, w), srcQ, dstQ, done + {w})
  {
    var m := MoveOps(t1, srcQ, dstQ, w);
    var ops1 := ops + [m[0]];
    MultiSnoc(t1, ops, m[0]);
    assert ops + m == ops1 + [m[1]];
    MultiSnoc(t1, ops1, m[1]);
    if dstQ !in t1 {
      if SomeBusy(t1, srcQ, done) {
      } else {
        MovedStep(t1, Multi(t1, ops).tree, srcQ, dstQ, done, w);
        if HasChildren(t1, srcQ + [w]) {
          assert SomeBusy(t1, srcQ, done + {w});
        }
      }
    }
  }

  /** The tree a successful claim leaves: the old queue node and its WAL nodes are
      gone, the new queue node holds a copy of every WAL with the same data, and
      nothing else changed except the counters of the two server nodes. */
  ghost predicate ClaimedTree(t1: Tree, f: Tree, srcQ: Path, dstQ: Path, wals: set<Name>)
  {
    && srcQ != [] && dstQ != [] && WellFormed(f)
    && (forall q :: q in f <==>
          || (q in t1 && q != srcQ && !IsChildOf(q, srcQ))
          || q == dstQ
          || (IsChildOf(q, dstQ) && q[|dstQ|] in wals))
    && (forall q :: q in t1 && q in f ==> f[q].data == t1[q].data)
    && dstQ in f && f[dstQ].data == EMPTY
    && (forall w :: w in wals ==>
          srcQ + [w] in t1 && dstQ + [w] in f && f[dstQ + [w]].data == t1[srcQ + [w]].data)
    && (forall q :: q in t1 && q in f && q != Parent(srcQ) && q != Parent(dstQ) ==>
          f[q].cversion == t1[q].cversion)
  }

  lemma ClaimEnd(t1: Tree, ops: seq<Op>, srcQ: Path, dstQ: Path)
    requires ClaimSetting(t1, srcQ, dstQ)
    requires ClaimProgress(t1, ops, srcQ, dstQ, Children(t1, srcQ))
    ensures var wals := Children(t1, srcQ);
      var r := Multi(t1, ops + [Delete(srcQ)]);
      && (dstQ in t1 ==> r == Aborted(NodeExists))
      && (dstQ !in t1 && SomeBusy(t1, srcQ, wals) ==> r == Aborted(NotEmpty))
      && (dstQ !in t1 && !SomeBusy(t1, srcQ, wals) ==> r.Committed? && ClaimedTree(t1, r.tree, srcQ, dstQ, wals))
  {
    var wals := Children(t1, srcQ);
    MultiSnoc(t1, ops, Delete(srcQ));
    if dstQ !in t1 && !SomeBusy(t1, srcQ, wals) {
      OldQueueDeleted(t1, Multi(t1, ops).tree, srcQ, dstQ);
    }
  }

  /** Once every WAL has moved, the old queue node has no children left and deleting
      it completes the claim. */
  lemma OldQueueDeleted(t1: Tree, s: Tree, srcQ: Path, dstQ: Path)
    requires ClaimSetting(t1, srcQ, dstQ) && dstQ !in t1
    requires Moved(t1, s, srcQ, dstQ, Children(t1, srcQ))
    ensures srcQ in s && ApplyOp(s, Delete(srcQ)) == Committed(RemoveLeaf(s, srcQ))
    ensures ClaimedTree(t1, RemoveLeaf(s, srcQ), srcQ, dstQ, Children(t1, srcQ))
  {
    var f := RemoveLeaf(s, srcQ);
    assert srcQ in s;
    ApplyOpWellFormed(s, Delete(srcQ));
    OldQueueDeletedKeys(t1, s, srcQ, dstQ);
  }

  lemma OldQueueDeletedKeys(t1: Tree, s: Tree, srcQ: Path, dstQ: Path)
    requires ClaimSetting(t1, srcQ, dstQ)
    requires MovedKeys(t1, s, srcQ, dstQ, Children(t1, srcQ))
    ensures !HasChildren(s, srcQ)
    ensures forall q :: q in RemoveLeaf(s, srcQ) <==>
      || (q in t1 && q != srcQ && !IsChildOf(q, srcQ))
      || q == dstQ
      || (IsChildOf(q, dstQ) && q[|dstQ|] in Children(t1, srcQ))
  {
    forall q | IsChildOf(q, srcQ) && q in t1
      ensures q[|srcQ|] in Children(t1, srcQ)
    {
      assert q == srcQ + [q[|srcQ|]];
    }
  }

  /** A successful claim loses no WAL and invents none: the WALs of the old queue
      reappear, under the same names, in the new one. */
  lemma WalsAfterClaim(t1: Tree, f: Tree, srcQ: Path, dstQ: Path, queuesRoot: Path)
    requires ClaimSetting(t1, srcQ, dstQ)
    requires ClaimedTree(t1, f, srcQ, dstQ, Children(t1, srcQ))
    requires |srcQ| == |queuesRoot| + 2 && srcQ[..|queuesRoot|] == queuesRoot && dstQ[..|queuesRoot|] == queuesRoot
    ensures AllWals(f, queuesRoot) == AllWals(t1, queuesRoot)
  {
    var k := |queuesRoot|;
    forall n | n in AllWals(f, queuesRoot)
      ensures n in AllWals(t1, queuesRoot)
    {
      var p :| p in f && |p| == k + 3 && p[..k] == queuesRoot && p[k + 2] == n;
      if p !in t1 {
        assert IsChildOf(p, dstQ) && p[|dstQ|] == n;
        var src := srcQ + [n];
        assert src in t1 && src[..k] == queuesRoot && src[k + 2] == n;
      }
    }
    forall n | n in AllWals(t1, queuesRoot)
      ensures n in AllWals(f, queuesRoot)
    {
      var p :| p in t1 && |p| == k + 3 && p[..k] == queuesRoot && p[k + 2] == n;
      if p !in f {
        assert IsChildOf(p, srcQ) && p == srcQ + [n];
        var dst := dstQ + [n];
        assert dst in f && dst[..k] == queuesRoot && dst[k + 2] == n;
      }
    }
  }

  /** claimQueue on a queue without WALs: the fail-silent delete of the old queue node
      always succeeds, removes at most that node and loses no WAL. */
  lemma EmptyQueueRemoved(t: Tree, srcQ: Path, queuesRoot: Path)
    requires WellFormed(t) && Children(t, srcQ) == {}
    requires |srcQ| == |queuesRoot| + 2 && srcQ[..|queuesRoot|] == queuesRoot
    ensures var r := ApplyOp(t, DeleteIfPresent(srcQ));
      && r.Committed? && WellFormed(r.tree)
      && (forall q :: q in r.tree <==> q in t && q != srcQ)
      && (forall q :: q in r.tree ==> r.tree[q].data == t[q].data)
      // only the server node counts the change, and only when the queue existed
      && (forall q :: q in r.tree && q != Parent(srcQ) ==> r.tree[q] == t[q])
      && (Parent(srcQ) in t ==>
            r.tree[Parent(srcQ)] == t[Parent(srcQ)].(cversion := t[Parent(srcQ)].cversion + if srcQ in t then 1 else 0))
      && AllWals(r.tree, queuesRoot) == AllWals(t, queuesRoot)
  {
    ApplyOpWellFormed(t, DeleteIfPresent(srcQ));
    HasChildrenIff(t, srcQ);
  }
}
