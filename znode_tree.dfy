/** The coordination store the storage runs on, abstracted: a tree of nodes given as a
    map from path to node, each node holding its data and its child-change counter
    (ZooKeeper's cversion, bumped whenever a direct child is created or deleted).
    ZooKeeper itself is not part of this model; the operations below are the
    semantics the storage relies on, and `Multi` is the all-or-nothing transaction. */
module ZNodeTree {
  import opened Layout
  import opened Codec

  datatype Znode = Znode(data: Payload, cversion: nat)

  type Tree = map<Path, Znode>

  function Parent(p: Path): Path
    requires p != []
  {
    p[..|p| - 1]
  }

  predicate IsChildOf(q: Path, p: Path)
  {
    |q| == |p| + 1 && q[..|p|] == p
  }

  /** The root exists and every other node hangs under an existing parent. */
  ghost predicate WellFormed(t: Tree)
  {
    && [] in t
    && forall p :: p in t && p != [] ==> Parent(p) in t
  }

  /** Every ancestor of a node is a node. */
  lemma {:induction false} AncestorPresent(t: Tree, q: Path, a: Path)
    requires WellFormed(t) && q in t && IsPrefix(a, q)
    ensures a in t
    decreases |q|
  {
    if a != q {
      assert IsPrefix(a, Parent(q));
      AncestorPresent(t, Parent(q), a);
    }
  }

  /** A missing node has no descendants. */
  lemma NoDescendants(t: Tree, p: Path)
    requires WellFormed(t) && p !in t
    ensures forall q :: q in t ==> !IsPrefix(p, q)
  {
    forall q | q in t && IsPrefix(p, q)
      ensures false
    {
      AncestorPresent(t, q, p);
    }
  }

  /** The names of the children of p (listChildren). */
  function Children(t: Tree, p: Path): (names: set<Name>)
    ensures forall n :: n in names <==> p + [n] in t
  {
    var names := set q | q in t && IsChildOf(q, p) :: q[|p|];
    assert forall n :: p + [n] in t ==> IsChildOf(p + [n], p) && (p + [n])[|p|] == n;
    assert forall q :: IsChildOf(q, p) ==> q == p + [q[|p|]];
    names
  }

  predicate HasChildren(t: Tree, p: Path)
  {
    exists q :: q in t && IsChildOf(q, p)
  }

  /** A node has children exactly when listing them gives some name. */
  lemma HasChildrenIff(t: Tree, p: Path)
    ensures HasChildren(t, p) <==> Children(t, p) != {}
  {
    if HasChildren(t, p) {
      var q :| q in t && IsChildOf(q, p);
      assert q == p + [q[|p|]];
    }
    if Children(t, p) != {} {
      var n :| n in Children(t, p);
      assert IsChildOf(p + [n], p);
    }
  }

  /** The child-change counter of p as a stat read reports it (0 for a missing node,
      whose stat is left untouched). */
  function Cversion(t: Tree, p: Path): nat
  {
    if p in t then t[p].cversion else 0
  }

  // ---- single operations ------------------------------------------------------

  /** KeeperException codes the storage distinguishes. */
  datatype ZkError = NoNode | NodeExists | NotEmpty | BadArguments

  datatype TxResult = Committed(tree: Tree) | Aborted(error: ZkError)

  datatype Op =
    | Create(path: Path, data: Payload)          // fails if the node exists or its parent is missing
    | CreateIfAbsent(path: Path, data: Payload)  // createAndFailSilent: an existing node is left as it is
    | SetData(path: Path, data: Payload)         // fails if the node is missing
    | Delete(path: Path)                         // fails if the node is missing or has children
    | DeleteIfPresent(path: Path)                // deleteNodeFailSilent: a missing node is ignored

  function Bump(t: Tree, p: Path): Tree
  {
    if p in t then t[p := t[p].(cversion := t[p].cversion + 1)] else t
  }

  function CreateNode(t: Tree, p: Path, data: Payload): TxResult
  {
    if p in t then Aborted(NodeExists)
    else if p == [] || Parent(p) !in t then Aborted(NoNode)
    else Committed(Bump(t, Parent(p))[p := Znode(data, 0)])
  }

  /** Removing a childless node that is not the root. */
  function RemoveLeaf(t: Tree, p: Path): Tree
    requires p != []
  {
    Bump(t - {p}, Parent(p))
  }

  function DeleteNode(t: Tree, p: Path): TxResult
  {
    if p == [] then Aborted(BadArguments)
    else if p !in t then Aborted(NoNode)
    else if HasChildren(t, p) then Aborted(NotEmpty)
    else Committed(RemoveLeaf(t, p))
  }

  function SetNodeData(t: Tree, p: Path, data: Payload): TxResult
  {
    if p !in t then Aborted(NoNode) else Committed(t[p := t[p].(data := data)])
  }

  function ApplyOp(t: Tree, op: Op): TxResult
  {
    match op
    case Create(p, d) => CreateNode(t, p, d)
    case CreateIfAbsent(p, d) => if p in t then Committed(t) else CreateNode(t, p, d)
    case SetData(p, d) => SetNodeData(t, p, d)
    case Delete(p) => DeleteNode(t, p)
    case DeleteIfPresent(p) => if p !in t then Committed(t) else DeleteNode(t, p)
  }

  /** Every single operation keeps the tree well formed. */
  lemma ApplyOpWellFormed(t: Tree, op: Op)
    requires WellFormed(t)
    ensures ApplyOp(t, op).Committed? ==> WellFormed(ApplyOp(t, op).tree)
  {
    var r := ApplyOp(t, op);
    if r.Committed? && (op.Delete? || op.DeleteIfPresent?) && op.path in t {
      var p := op.path;
      forall q | q in r.tree && q != []
        ensures Parent(q) in r.tree
      {
        if Parent(q) == p {
          assert IsChildOf(q, p);
        }
      }
    }
  }

  // ---- transactions -----------------------------------------------------------

  function Then(r: TxResult, op: Op): TxResult
  {
    match r
    case Committed(t) => ApplyOp(t, op)
    case Aborted(_) => r
  }

  /** ZooKeeper's multi: the operations applied in order to the one tree; the first
      that fails aborts the whole batch, and the caller keeps its tree. */
  function Multi(t: Tree, ops: seq<Op>): TxResult
    decreases |ops|
  {
    if ops == [] then Committed(t) else Then(Multi(t, ops[..|ops| - 1]), ops[|ops| - 1])
  }

  lemma MultiSnoc(t: Tree, ops: seq<Op>, op: Op)
    ensures Multi(t, ops + [op]) == Then(Multi(t, ops), op)
  {
    assert (ops + [op])[..|ops|] == ops;
  }

  /** A committed transaction leaves a well-formed tree. */
  lemma {:induction false} MultiWellFormed(t: Tree, ops: seq<Op>)
    requires WellFormed(t)
    ensures Multi(t, ops).Committed? ==> WellFormed(Multi(t, ops).tree)
    decreases |ops|
  {
    if ops != [] {
      MultiWellFormed(t, ops[..|ops| - 1]);
      var r := Multi(t, ops[..|ops| - 1]);
      if r.Committed? {
        ApplyOpWellFormed(r.tree, ops[|ops| - 1]);
      }
    }
  }

  // ---- batches of one kind --------------------------------------------------------

  predicate AllSetData(ops: seq<Op>)
  {
    forall i :: 0 <= i < |ops| ==> ops[i].SetData?
  }

  /** The data a batch of set operations leaves on each path it names: the last one wins. */
  function Writes(ops: seq<Op>): map<Path, Payload>
    requires AllSetData(ops)
    decreases |ops|
  {
    if ops == [] then map[]
    else Writes(ops[..|ops| - 1])[ops[|ops| - 1].path := ops[|ops| - 1].data]
  }

  /** t with the data of the nodes named in w replaced. */
  function Overwrite(t: Tree, w: map<Path, Payload>): Tree
  {
    map p | p in t :: if p in w then t[p].(data := w[p]) else t[p]
  }

  /** A batch of sets commits exactly when every node it names exists, and then
      changes the data of those nodes and nothing else. */
  lemma {:induction false} MultiSetData(t: Tree, ops: seq<Op>)
    requires AllSetData(ops)
    ensures Multi(t, ops) == if Writes(ops).Keys <= t.Keys then Committed(Overwrite(t, Writes(ops))) else Aborted(NoNode)
    decreases |ops|
  {
    if ops == [] {
      assert Overwrite(t, map[]) == t;
    } else {
      var init, last := ops[..|ops| - 1], ops[|ops| - 1];
      assert AllSetData(init);
      MultiSetData(t, init);
      var w := Writes(init);
      if w.Keys <= t.Keys {
        var o := Overwrite(t, w);
        if last.path in t {
          assert o[last.path := o[last.path].(data := last.data)] == Overwrite(t, w[last.path := last.data]);
        }
      }
    }
  }

  /** The batch addHFileRefs builds: one fail-silent create per name under p. */
  function CreateChildOps(p: Path, names: seq<Name>): (ops: seq<Op>)
    ensures |ops| == |names|
    ensures forall i :: 0 <= i < |names| ==> ops[i] == CreateIfAbsent(p + [names[i]], EMPTY)
  {
    seq(|names|, i requires 0 <= i < |names| => CreateIfAbsent(p + [names[i]], EMPTY))
  }

  /** The batch removeHFileRefs builds: one fail-silent delete per name under p. */
  function DeleteChildOps(p: Path, names: seq<Name>): (ops: seq<Op>)
    ensures |ops| == |names|
    ensures forall i :: 0 <= i < |names| ==> ops[i] == DeleteIfPresent(p + [names[i]])
  {
    seq(|names|, i requires 0 <= i < |names| => DeleteIfPresent(p + [names[i]]))
  }

  /** s is t with the children of p named in `names` present: existing nodes keep
      their data, new ones are empty, and only p's counter may have moved. */
  ghost predicate ChildrenAdded(t: Tree, p: Path, names: seq<Name>, s: Tree)
  {
    && (forall q :: q in s <==> q in t || (IsChildOf(q, p) && q[|p|] in names))
    && (forall q :: q in t && q != p ==> s[q] == t[q])
    && (p in t ==> s[p].data == t[p].data)
    && (forall q :: q in s && q !in t ==> s[q] == Znode(EMPTY, 0))
  }

  lemma ChildAdded(t: Tree, p: Path, names: seq<Name>, s: Tree, n: Name)
    requires p in t && ChildrenAdded(t, p, names, s)
    ensures var r := ApplyOp(s, CreateIfAbsent(p + [n], EMPTY));
      r.Committed? && ChildrenAdded(t, p, names + [n], r.tree)
  {
    var c := p + [n];
    assert Parent(c) == p && IsChildOf(c, p) && c[|p|] == n;
    var r := ApplyOp(s, CreateIfAbsent(c, EMPTY));
    forall q
      ensures q in r.tree <==> q in t || (IsChildOf(q, p) && q[|p|] in names + [n])
    {
      if IsChildOf(q, p) {
        assert q == p + [q[|p|]];
      }
    }
  }

  /** Fail-silent creates of children of p commit exactly when p exists (or there is
      nothing to create); then every named child exists, new ones are empty, and no
      other node changes except p's counter. */
  lemma {:induction false} MultiCreateChildren(t: Tree, p: Path, names: seq<Name>)
    requires WellFormed(t)
    ensures var r := Multi(t, CreateChildOps(p, names));
      && (r.Committed? <==> p in t || names == [])
      && (r.Aborted? ==> r.error == NoNode)
      && (r.Committed? ==> ChildrenAdded(t, p, names, r.tree))
    decreases |names|
  {
    var ops := CreateChildOps(p, names);
    if names != [] {
      var init, n := names[..|names| - 1], names[|names| - 1];
      assert ops[..|ops| - 1] == CreateChildOps(p, init);
      assert ops[|ops| - 1] == CreateIfAbsent(p + [n], EMPTY);
      assert names == init + [n];
      MultiCreateChildren(t, p, init);
      var r0 := Multi(t, CreateChildOps(p, init));
      if p in t {
        ChildAdded(t, p, init, r0.tree, n);
      } else {
        // the first create finds no parent
        assert Parent(p + [n]) == p;
      }
    }
  }

  /** s is t with the children of p named in `names` absent; none of those had
      children in t, and only p's counter may have moved. */
  ghost predicate ChildrenRemoved(t: Tree, p: Path, names: seq<Name>, s: Tree)
  {
    && (forall q :: q in s <==> q in t && !(IsChildOf(q, p) && q[|p|] in names))
    && (forall q :: q in s && q != p ==> s[q] == t[q])
    && (p in s ==> s[p].data == t[p].data)
    && (forall m :: m in names ==> !HasChildren(t, p + [m]))
  }

  /** Removing children of p leaves the grandchildren of p alone. */
  lemma GrandchildrenKept(t: Tree, p: Path, names: seq<Name>, s: Tree, n: Name)
    requires ChildrenRemoved(t, p, names, s)
    ensures HasChildren(s, p + [n]) <==> HasChildren(t, p + [n])
  {
    var c := p + [n];
    if HasChildren(t, c) {
      var q :| q in t && IsChildOf(q, c);
      assert |q| != |p| + 1 && q in s;
    }
  }

  lemma ChildRemoved(t: Tree, p: Path, names: seq<Name>, s: Tree, n: Name)
    requires WellFormed(t) && ChildrenRemoved(t, p, names, s)
    ensures var r := ApplyOp(s, DeleteIfPresent(p + [n]));
      && (r.Committed? <==> !HasChildren(t, p + [n]))
      && (r.Aborted? ==> r.error == NotEmpty)
      && (r.Committed? ==> ChildrenRemoved(t, p, names + [n], r.tree))
  {
    var c := p + [n];
    GrandchildrenKept(t, p, names, s, n);
    if c !in s {
      ChildAlreadyGone(t, p, names, s, n);
    } else if !HasChildren(s, c) {
      LeafChildRemoved(t, p, names, s, n);
    }
  }

  /** Deleting a child that is already missing changes nothing. */
  lemma ChildAlreadyGone(t: Tree, p: Path, names: seq<Name>, s: Tree, n: Name)
    requires WellFormed(t) && ChildrenRemoved(t, p, names, s) && p + [n] !in s
    ensures !HasChildren(t, p + [n]) && ChildrenRemoved(t, p, names + [n], s)
  {
    var c := p + [n];
    assert IsChildOf(c, p) && c[|p|] == n;
    if c !in t {
      NoDescendants(t, c);
      assert forall q :: q in t && IsChildOf(q, c) ==> IsPrefix(c, q);
    }
    forall q
      ensures q in s <==> q in t && !(IsChildOf(q, p) && q[|p|] in names + [n])
    {
      if IsChildOf(q, p) {
        assert q == p + [q[|p|]];
      }
    }
  }

  /** Deleting a present child that has no children removes just it and counts
      the change at p. */
  lemma LeafChildRemoved(t: Tree, p: Path, names: seq<Name>, s: Tree, n: Name)
    requires WellFormed(t) && ChildrenRemoved(t, p, names, s)
    requires p + [n] in s && !HasChildren(s, p + [n]) && !HasChildren(t, p + [n])
    ensures var r := ApplyOp(s, DeleteIfPresent(p + [n]));
      r.Committed? && ChildrenRemoved(t, p, names + [n], r.tree)
  {
    var c := p + [n];
    assert Parent(c) == p && IsChildOf(c, p) && c[|p|] == n;
    assert c in t && p in t && !IsChildOf(p, p);
    var f := RemoveLeaf(s, c);
    assert f == (s - {c})[p := s[p].(cversion := s[p].cversion + 1)];
    forall q
      ensures q in f <==> q in t && !(IsChildOf(q, p) && q[|p|] in names + [n])
    {
      if IsChildOf(q, p) {
        assert q == p + [q[|p|]];
      }
    }
  }

  /** Fail-silent deletes of children of p commit exactly when none of the named
      children has children; then the named children are gone and nothing else
      changes except p's counter. */
  lemma {:induction false} MultiDeleteChildren(t: Tree, p: Path, names: seq<Name>)
    requires WellFormed(t)
    ensures var r := Multi(t, DeleteChildOps(p, names));
      && (r.Committed? <==> forall n :: n in names ==> !HasChildren(t, p + [n]))
      && (r.Aborted? ==> r.error == NotEmpty)
      && (r.Committed? ==> ChildrenRemoved(t, p, names, r.tree))
    decreases |names|
  {
    var ops := DeleteChildOps(p, names);
    if names != [] {
      var init, n := names[..|names| - 1], names[|names| - 1];
      assert ops[..|ops| - 1] == DeleteChildOps(p, init);
      assert ops[|ops| - 1] == DeleteIfPresent(p + [n]);
      assert names == init + [n];
      MultiDeleteChildren(t, p, init);
      var r0 := Multi(t, DeleteChildOps(p, init));
      if r0.Committed? {
        ChildRemoved(t, p, init, r0.tree, n);
      }
    }
  }

  // ---- ZKUtil helpers the storage calls -----------------------------------------

  /** ZKUtil.createWithParents: create p with the given data, first creating every
      missing ancestor with empty data; an existing p is left as it is. */
  function CreateWithParents(t: Tree, p: Path, data: Payload): (r: Tree)
    requires WellFormed(t)
    ensures WellFormed(r)
    ensures forall q :: q in r <==> q in t || IsPrefix(q, p)
    ensures forall q :: q in t ==> r[q].data == t[q].data
    ensures forall q :: q in r && q !in t ==> r[q].data == if q == p then data else EMPTY
    ensures forall q :: q in t && !(IsPrefix(q, p) && q != p) ==> r[q] == t[q]
    decreases |p|
  {
    if p in t then
      AncestorsOf(t, p);
      t
    else
      var t1 := CreateWithParents(t, Parent(p), EMPTY);
      PrefixOfParent(p);
      Bump(t1, Parent(p))[p := Znode(data, 0)]
  }

  /** The child-change counters createWithParents leaves: when p was missing, the
      deepest existing ancestor of p gains one child, every created ancestor has
      one child and p none; no other counter moves. */
  lemma CreateCounters(t: Tree, p: Path, data: Payload)
    requires WellFormed(t)
    ensures var r := CreateWithParents(t, p, data);
      && (forall q :: q in t ==>
            r[q].cversion == t[q].cversion + if p !in t && IsPrefix(q, p) && q != p && p[..|q| + 1] !in t then 1 else 0)
      && (forall q :: q in r && q !in t ==> r[q].cversion == if q == p then 0 else 1)
  {
    OldCounters(t, p, data);
    NewCounters(t, p, data);
  }

  lemma {:induction false} OldCounters(t: Tree, p: Path, data: Payload)
    requires WellFormed(t)
    ensures var r := CreateWithParents(t, p, data);
      forall q :: q in t ==>
        r[q].cversion == t[q].cversion + if p !in t && IsPrefix(q, p) && q != p && p[..|q| + 1] !in t then 1 else 0
    decreases |p|
  {
    if p !in t {
      var pp := Parent(p);
      OldCounters(t, pp, EMPTY);
      if pp in t {
        AncestorsOf(t, pp);
      }
      var r := CreateWithParents(t, p, data);
      forall q | q in t
        ensures r[q].cversion == t[q].cversion + if IsPrefix(q, p) && q != p && p[..|q| + 1] !in t then 1 else 0
      {
        if q != pp && IsPrefix(q, p) && q != p {
          LineAboveParent(t, p, q);
        }
      }
    }
  }

  lemma {:induction false} NewCounters(t: Tree, p: Path, data: Payload)
    requires WellFormed(t)
    ensures var r := CreateWithParents(t, p, data);
      forall q :: q in r && q !in t ==> r[q].cversion == if q == p then 0 else 1
    decreases |p|
  {
    if p !in t {
      NewCounters(t, Parent(p), EMPTY);
      PrefixOfParent(p);
    }
  }

  /** A proper prefix q of p above p's parent sees the same next step towards p
      and towards its parent. */
  lemma LineAboveParent(t: Tree, p: Path, q: Path)
    requires WellFormed(t) && p != [] && IsPrefix(q, p) && q != p && q != Parent(p)
    ensures IsPrefix(q, Parent(p)) && q != Parent(p) && p[..|q| + 1] == Parent(p)[..|q| + 1]
    ensures Parent(p) in t ==> p[..|q| + 1] in t
  {
    var pp := Parent(p);
    assert |q| < |pp|;
    if pp in t {
      AncestorPresent(t, pp, pp[..|q| + 1]);
    }
  }

  lemma AncestorsOf(t: Tree, p: Path)
    requires WellFormed(t) && p in t
    ensures forall q :: IsPrefix(q, p) ==> q in t
  {
    forall q | IsPrefix(q, p)
      ensures q in t
    {
      AncestorPresent(t, p, q);
    }
  }

  lemma PrefixOfParent(p: Path)
    requires p != []
    ensures forall q :: IsPrefix(q, p) <==> IsPrefix(q, Parent(p)) || q == p
  {
  }

  /** ZKUtil.deleteNodeRecursively: p and everything under it disappear (nothing
      happens when p is missing); only p's parent counts the change, once. */
  function DeleteRecursive(t: Tree, p: Path): (r: Tree)
    requires WellFormed(t) && p != []
    ensures WellFormed(r)
    ensures forall q :: q in r <==> q in t && !IsPrefix(p, q)
    ensures forall q :: q in r && q != Parent(p) ==> r[q] == t[q]
    ensures forall q :: q in r ==> r[q].data == t[q].data
    ensures p !in t ==> r == t
    ensures p in t ==> Parent(p) in r && r[Parent(p)] == t[Parent(p)].(cversion := t[Parent(p)].cversion + 1)
  {
    if p !in t then
      NoDescendants(t, p);
      t
    else
      var pruned := map q | q in t && !IsPrefix(p, q) :: t[q];
      assert forall q :: q in pruned && q != [] ==> !IsPrefix(p, Parent(q));
      Bump(pruned, Parent(p))
  }
}
