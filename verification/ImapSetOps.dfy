/** The recursive helpers of the set operations as methods that change both tries in place. */
module ImapSetOps {
  import opened Common
  import opened ImapTrie
  import opened ImapOps
  import opened ImapRefs
  import opened ImapNode
  import opened ImapMerge

  /** What every helper asks of the destination node, the source node and the ledger. */
  ghost predicate Ready(dest: Node, src: Node, log: Ledger)
    reads dest, dest.Repr, src, src.Repr
  {
    && dest.Valid() && src.Valid() && dest.Repr !! src.Repr
    && log !in dest.Repr && log !in src.Repr
    && WF(dest.tree) && WF(src.tree)
  }

  /** IMAP_node_free_cb: every object below the node gives up a reference. */
  method FreeCb(node: Node, log: Ledger)
    requires node.Valid() && node.nodes != null && log !in node.Repr
    modifies log`released
    ensures log.released == old(log.released) + Objs(node.tree)
    decreases node.tree, 1
  {
    hide SlotObjs;
    var n := node.nodes.Length;
    for m := 0 to n
      invariant log.released == old(log.released) + ObjsTo(node.tree, m)
    {
      FreeChildCb(node.nodes[m], log);
      assert ObjsTo(node.tree, m + 1) == ObjsTo(node.tree, m) + SlotObjs(node.tree.kids[m]);
    }
  }

  method FreeChildCb(nd: Node, log: Ledger)
    requires nd.Valid() && log !in nd.Repr
    modifies log`released
    ensures log.released == old(log.released) + SlotObjs(nd.tree)
    decreases nd.tree, 2
  {
    if nd.data.Some? {
      log.Decref(nd.data.value);
    }
    if nd.nodes != null {
      FreeCb(nd, log);
    } else {
      NoObjs(nd.tree);
    }
  }

  /** The destination takes the children of the source over. */
  method Adopt(dest: Node, src: Node)
    requires dest.Valid() && src.Valid() && dest.Repr !! src.Repr
    requires dest.nodes == null && src.nodes != null
    modifies dest
    ensures dest.Valid() && dest.Repr == old(dest.Repr) + (old(src.Repr) - {src})
    ensures dest.tree == old(dest.tree).(kids := old(src.tree).kids, size := old(src.tree).size, key := old(src.tree).key)
  {
    dest.nodes, dest.size, dest.key := src.nodes, src.size, src.key;
    dest.tree := dest.tree.(kids := src.tree.kids, size := src.tree.size, key := src.tree.key);
    dest.Repr := dest.Repr + (src.Repr - {src});
  }

  method DropNodes(dest: Node)
    requires dest.Valid()
    modifies dest
    ensures dest.Valid() && dest.Repr == old(dest.Repr)
    ensures dest.tree == old(dest.tree).(size := 0, kids := [])
  {
    dest.nodes, dest.size := null, 0;
    dest.tree := dest.tree.(size := 0, kids := []);
  }

  /** The value of the source moves to a destination without one. */
  method SetData(dest: Node, d: Option<Obj>)
    requires dest.Valid()
    modifies dest`data, dest`tree
    ensures dest.Valid() && dest.tree == old(dest.tree).(data := d)
  {
    dest.data := d;
    dest.tree := dest.tree.(data := d);
  }

  lemma NoKidsNoSize(t: Trie)
    requires WF(t)
    ensures t.kids == [] <==> t.size == 0
  {}

  method UnionData(dest: Node, src: Node, cnt: nat, log: Ledger) returns (cnt': nat)
    requires Ready(dest, src, log) && SlotAgree(dest.tree, src.tree) && Weight(dest.tree) <= cnt
    modifies dest`data, dest`tree, log`released
    ensures dest.Valid() && dest.tree == old(dest.tree).(data := Pick(Union, old(dest.data), src.data))
    ensures cnt' == cnt - DataCount(old(dest.tree)) + DataCount(dest.tree)
    ensures log.released == old(log.released) + DataDecs(Union, old(dest.data), src.data)
  {
    AgreeBelow(dest.tree, src.tree);
    cnt' := cnt;
    if src.data.Some? {
      if dest.data.Some? {
        assert src.data == dest.data;
        log.Decref(src.data.value);
      } else {
        SetData(dest, src.data);
        cnt' := cnt' + 1;
      }
    }
  }

  method UnionBelow(dest: Node, src: Node, cnt: nat, log: Ledger) returns (cnt': nat)
    requires Ready(dest, src, log) && Agree(dest.tree, src.tree) && dest.size <= cnt
    modifies dest.Repr, src.Repr, log`released
    ensures dest.Valid() && fresh(dest.Repr - old(dest.Repr) - old(src.Repr))
    ensures dest.tree == BelowOp(Union, old(dest.tree), old(src.tree))
    ensures cnt' == cnt - old(dest.size) + dest.size
    ensures log.released == old(log.released) + BelowDecs(Union, old(dest.tree), old(src.tree))
    decreases Height(src.tree), 4
  {
    NoKidsNoSize(dest.tree);
    cnt' := cnt;
    if src.nodes != null {
      if dest.nodes != null {
        var tmp := dest.size;
        UnionNode(dest, src, log);
        cnt' := cnt' + dest.size - tmp;
      } else {
        Adopt(dest, src);
        cnt' := cnt' + dest.size;
      }
    }
  }

  method IntersectionData(dest: Node, src: Node, cnt: nat, log: Ledger) returns (cnt': nat)
    requires Ready(dest, src, log) && SlotAgree(dest.tree, src.tree) && Weight(dest.tree) <= cnt
    modifies dest`data, dest`tree, log`released
    ensures dest.Valid() && dest.tree == old(dest.tree).(data := Pick(Intersection, old(dest.data), src.data))
    ensures cnt' == cnt - DataCount(old(dest.tree)) + DataCount(dest.tree)
    ensures log.released == old(log.released) + DataDecs(Intersection, old(dest.data), src.data)
  {
    AgreeBelow(dest.tree, src.tree);
    cnt' := cnt;
    if src.data.Some? {
      log.Decref(src.data.value);
    } else if dest.data.Some? {
      log.Decref(dest.data.value);
      SetData(dest, None);
      cnt' := cnt' - 1;
    }
  }

  method IntersectionBelow(dest: Node, src: Node, cnt: nat, log: Ledger) returns (cnt': nat)
    requires Ready(dest, src, log) && Agree(dest.tree, src.tree) && dest.size <= cnt
    modifies dest.Repr, src.Repr, log`released
    ensures dest.Valid() && fresh(dest.Repr - old(dest.Repr) - old(src.Repr))
    ensures dest.tree == BelowOp(Intersection, old(dest.tree), old(src.tree))
    ensures cnt' == cnt - old(dest.size) + dest.size
    ensures log.released == old(log.released) + BelowDecs(Intersection, old(dest.tree), old(src.tree))
    decreases Height(src.tree), 4
  {
    NoKidsNoSize(dest.tree);
    cnt' := cnt;
    NoObjs(dest.tree.(kids := []));
    if src.nodes != null {
      if dest.nodes != null {
        var tmp := dest.size;
        IntersectionNode(dest, src, log);
        cnt' := cnt' - (tmp - dest.size);
      } else {
        FreeCb(src, log);
      }
    } else if dest.nodes != null {
      cnt' := cnt' - dest.size;
      FreeCb(dest, log);
      DropNodes(dest);
    }
  }

  method DifferenceData(dest: Node, src: Node, cnt: nat, log: Ledger) returns (cnt': nat)
    requires Ready(dest, src, log) && SlotAgree(dest.tree, src.tree) && Weight(dest.tree) <= cnt
    modifies dest`data, dest`tree, log`released
    ensures dest.Valid() && dest.tree == old(dest.tree).(data := Pick(Difference, old(dest.data), src.data))
    ensures cnt' == cnt - DataCount(old(dest.tree)) + DataCount(dest.tree)
    ensures log.released == old(log.released) + DataDecs(Difference, old(dest.data), src.data)
  {
    AgreeBelow(dest.tree, src.tree);
    cnt' := cnt;
    if src.data.Some? {
      if dest.data.Some? {
        assert src.data == dest.data;
        log.Decref(dest.data.value);
        SetData(dest, None);
        cnt' := cnt' - 1;
      }
      log.Decref(src.data.value);
    }
  }

  method DifferenceBelow(dest: Node, src: Node, cnt: nat, log: Ledger) returns (cnt': nat)
    requires Ready(dest, src, log) && Agree(dest.tree, src.tree) && dest.size <= cnt
    modifies dest.Repr, src.Repr, log`released
    ensures dest.Valid() && fresh(dest.Repr - old(dest.Repr) - old(src.Repr))
    ensures dest.tree == BelowOp(Difference, old(dest.tree), old(src.tree))
    ensures cnt' == cnt - old(dest.size) + dest.size
    ensures log.released == old(log.released) + BelowDecs(Difference, old(dest.tree), old(src.tree))
    decreases Height(src.tree), 4
  {
    NoKidsNoSize(dest.tree);
    cnt' := cnt;
    if src.nodes != null {
      if dest.nodes != null {
        var tmp := dest.size;
        DifferenceNode(dest, src, log);
        cnt' := cnt' - (tmp - dest.size);
      } else {
        FreeCb(src, log);
      }
    }
  }

  method SymmetricDifferenceData(dest: Node, src: Node, cnt: nat, log: Ledger) returns (cnt': nat)
    requires Ready(dest, src, log) && SlotAgree(dest.tree, src.tree) && Weight(dest.tree) <= cnt
    modifies dest`data, dest`tree, log`released
    ensures dest.Valid() && dest.tree == old(dest.tree).(data := Pick(SymmetricDifference, old(dest.data), src.data))
    ensures cnt' == cnt - DataCount(old(dest.tree)) + DataCount(dest.tree)
    ensures log.released == old(log.released) + DataDecs(SymmetricDifference, old(dest.data), src.data)
  {
    AgreeBelow(dest.tree, src.tree);
    cnt' := cnt;
    if src.data.Some? {
      if dest.data.Some? {
        assert src.data == dest.data;
        log.Decref(dest.data.value);
        log.Decref(src.data.value);
        SetData(dest, None);
        cnt' := cnt' - 1;
      } else {
        SetData(dest, src.data);
        cnt' := cnt' + 1;
      }
    }
  }

  method SymmetricDifferenceBelow(dest: Node, src: Node, cnt: nat, log: Ledger) returns (cnt': nat)
    requires Ready(dest, src, log) && Agree(dest.tree, src.tree) && dest.size <= cnt
    modifies dest.Repr, src.Repr, log`released
    ensures dest.Valid() && fresh(dest.Repr - old(dest.Repr) - old(src.Repr))
    ensures dest.tree == BelowOp(SymmetricDifference, old(dest.tree), old(src.tree))
    ensures cnt' == cnt - old(dest.size) + dest.size
    ensures log.released == old(log.released) + BelowDecs(SymmetricDifference, old(dest.tree), old(src.tree))
    decreases Height(src.tree), 4
  {
    NoKidsNoSize(dest.tree);
    cnt' := cnt;
    if src.nodes != null {
      if dest.nodes != null {
        var tmp := dest.size;
        SymmetricDifferenceNode(dest, src, log);
        cnt' := cnt' + dest.size - tmp;
      } else {
        Adopt(dest, src);
        cnt' := cnt' + dest.size;
      }
    }
  }

  lemma DataIrrelevantAll(a: Trie, d: Option<Obj>, b: Trie)
    ensures WF(a.(data := d)) == WF(a)
    ensures Agree(a, b) ==> Agree(a.(data := d), b)
  {
    DataIrrelevant(a, d, 0);
    forall id: nat ensures Lookup(a.(data := d), id) == Lookup(a, id) {
      DataIrrelevant(a, d, id);
    }
  }

  lemma Opened(t: Trie)
    requires WF(t)
    ensures Shape(t) && forall i :: 0 <= i < |t.kids| ==> WF(t.kids[i])
  {}

  /** The loop of a helper, on nodes. */
  method Join(op: SetOp, dest: Node, src: Node, log: Ledger)
    requires dest.Valid() && src.Valid() && dest.Repr !! src.Repr
    requires log !in dest.Repr && log !in src.Repr
    requires Shape(dest.tree) && (forall i :: 0 <= i < |dest.tree.kids| ==> WF(dest.tree.kids[i]))
    requires dest.size == SumTo(dest.tree.kids, |dest.tree.kids|)
    requires WF(src.tree) && Agree(dest.tree, src.tree)
    requires dest.nodes != null && src.nodes != null
    modifies dest.Repr, src.Repr, log`released
    ensures dest.Valid() && fresh(dest.Repr - old(dest.Repr) - old(src.Repr))
    ensures dest.nodes != null && dest.tree == Joined(op, old(dest.tree), old(src.tree))
    ensures log.released == old(log.released) + DecsTo(op, old(dest.tree), old(src.tree), NODE_SZ)
    decreases Height(src.tree), 2
  {
    hide WF, SumTo, Merged, Agree, Merging, DecsTo, Height;
    ghost var w, b := dest.tree, src.tree;
    Opened(b);
    ghost var D, S := dest.Repr - {dest, dest.nodes}, src.Repr - {src, src.nodes};
    MergingStart(op, w, b, dest.nodes, src.nodes, D, S, w.key % NODE_SZ);
    ghost var R';
    dest.size, R' := VisitSlots(op, w, b, dest.nodes, dest.key, src.nodes, src.key, dest.size, log, D + S);
    dest.tree := Joined(op, w, b);
    dest.Repr := R' + {dest, dest.nodes};
    assert dest.Repr - {dest, dest.nodes} == R';
  }

  /** A node left without values gives its children up. */
  method Prune(dest: Node)
    requires dest.Valid() && dest.nodes != null
    modifies dest
    ensures dest.Valid() && dest.Repr == old(dest.Repr)
    ensures dest.tree == Pruned(old(dest.tree))
  {
    if dest.size == 0 {
      DropNodes(dest);
    }
  }

  lemma ValidMeans(n: Node)
    requires n.Valid()
    ensures n in n.Repr && n.size == n.tree.size && n.key == n.tree.key && n.data == n.tree.data
    ensures n.nodes == null <==> n.tree.kids == []
  {}

  method UnionNode(dest: Node, src: Node, log: Ledger)
    requires Ready(dest, src, log) && Agree(dest.tree, src.tree)
    requires dest.nodes != null && src.nodes != null
    modifies dest.Repr, src.Repr, log`released
    ensures dest.Valid() && fresh(dest.Repr - old(dest.Repr) - old(src.Repr))
    ensures dest.tree == NodeOp(Union, old(dest.tree), old(src.tree))
    ensures log.released == old(log.released) + NodeDecs(Union, old(dest.tree), old(src.tree))
    decreases Height(src.tree), 3
  {
    hide WF, Agree, SumTo, Merged, DecsTo, Height, Node.Valid;
    ghost var a, b := dest.tree, src.tree;
    ValidMeans(dest);
    ValidMeans(src);
    Opened(a);
    if dest.key != NODE_SZ && src.key != dest.key {
      dest.Grow();
    }
    WidenedRoomy(Union, a, b);
    WidenedAgree(Union, a, b);
    ValidMeans(dest);
    Join(Union, dest, src, log);
    ValidMeans(dest);
    UnionNotEmpty(a, b);
  }

  method IntersectionNode(dest: Node, src: Node, log: Ledger)
    requires Ready(dest, src, log) && Agree(dest.tree, src.tree)
    requires dest.nodes != null && src.nodes != null
    modifies dest.Repr, src.Repr, log`released
    ensures dest.Valid() && fresh(dest.Repr - old(dest.Repr) - old(src.Repr))
    ensures dest.tree == NodeOp(Intersection, old(dest.tree), old(src.tree))
    ensures log.released == old(log.released) + NodeDecs(Intersection, old(dest.tree), old(src.tree))
    decreases Height(src.tree), 3
  {
    hide WF, Agree, SumTo, Merged, DecsTo, Height, Node.Valid;
    ghost var a, b := dest.tree, src.tree;
    ValidMeans(dest);
    ValidMeans(src);
    Opened(a);
    WidenedRoomy(Intersection, a, b);
    WidenedAgree(Intersection, a, b);
    ValidMeans(dest);
    Join(Intersection, dest, src, log);
    ValidMeans(dest);
    Prune(dest);
  }

  method DifferenceNode(dest: Node, src: Node, log: Ledger)
    requires Ready(dest, src, log) && Agree(dest.tree, src.tree)
    requires dest.nodes != null && src.nodes != null
    modifies dest.Repr, src.Repr, log`released
    ensures dest.Valid() && fresh(dest.Repr - old(dest.Repr) - old(src.Repr))
    ensures dest.tree == NodeOp(Difference, old(dest.tree), old(src.tree))
    ensures log.released == old(log.released) + NodeDecs(Difference, old(dest.tree), old(src.tree))
    decreases Height(src.tree), 3
  {
    hide WF, Agree, SumTo, Merged, DecsTo, Height, Node.Valid;
    ghost var a, b := dest.tree, src.tree;
    ValidMeans(dest);
    ValidMeans(src);
    Opened(a);
    WidenedRoomy(Difference, a, b);
    WidenedAgree(Difference, a, b);
    ValidMeans(dest);
    Join(Difference, dest, src, log);
    ValidMeans(dest);
    Prune(dest);
  }

  method SymmetricDifferenceNode(dest: Node, src: Node, log: Ledger)
    requires Ready(dest, src, log) && Agree(dest.tree, src.tree)
    requires dest.nodes != null && src.nodes != null
    modifies dest.Repr, src.Repr, log`released
    ensures dest.Valid() && fresh(dest.Repr - old(dest.Repr) - old(src.Repr))
    ensures dest.tree == NodeOp(SymmetricDifference, old(dest.tree), old(src.tree))
    ensures log.released == old(log.released) + NodeDecs(SymmetricDifference, old(dest.tree), old(src.tree))
    decreases Height(src.tree), 3
  {
    hide WF, Agree, SumTo, Merged, DecsTo, Height, Node.Valid;
    ghost var a, b := dest.tree, src.tree;
    ValidMeans(dest);
    ValidMeans(src);
    Opened(a);
    if dest.key != NODE_SZ && src.key != dest.key {
      dest.Grow();
    }
    WidenedRoomy(SymmetricDifference, a, b);
    WidenedAgree(SymmetricDifference, a, b);
    ValidMeans(dest);
    Join(SymmetricDifference, dest, src, log);
    ValidMeans(dest);
    Prune(dest);
  }

  lemma UnionNotEmpty(a: Trie, b: Trie)
    requires WF(a) && WF(b) && a.kids != [] && b.kids != []
    ensures NodeOp(Union, a, b) == Joined(Union, Widened(Union, a, b), b)
  {
    var w := Widened(Union, a, b);
    WidenedRoomy(Union, a, b);
    MergedWF(Union, w, b, |w.kids|);
  }

  lemma {:induction false} DecsGap(op: SetOp, w: Trie, b: Trie, m: nat, n: nat)
    requires m <= n && forall k :: m <= k < n ==> !HasSlot(w, k)
    ensures DecsTo(op, w, b, n) == DecsTo(op, w, b, m)
    decreases n
  {
    if m < n {
      DecsGap(op, w, b, m, n - 1);
    }
  }

  /** The loop over the slots of the destination, which all four operations run at both
      levels: `cnt` is the counter of the destination. */
  method VisitSlots(op: SetOp, ghost w: Trie, ghost b: Trie, dn: array<Node>, dkey: nat, sn: array<Node>, skey: nat,
                    cnt: nat, log: Ledger, ghost R: set<object>)
    returns (cnt': nat, ghost R': set<object>)
    requires dkey == w.key && skey == b.key && Shape(w) && Shape(b) && w.kids != [] && b.kids != []
    requires forall i :: 0 <= i < |w.kids| ==> WF(w.kids[i])
    requires forall i :: 0 <= i < |b.kids| ==> WF(b.kids[i])
    requires Agree(w, b) && log !in R
    requires Merging(op, w, b, dn, sn, dkey % NODE_SZ, R)
    requires cnt == SumTo(w.kids, |w.kids|)
    modifies R, log`released
    ensures Row(dn, Merged(op, w, b), R') && fresh(R' - R)
    ensures cnt' == SumTo(Merged(op, w, b), |w.kids|)
    ensures log.released == old(log.released) + DecsTo(op, w, b, NODE_SZ)
    decreases Height(b), 1
  {
    hide *;
    NodeSz();
    ghost var lo := dkey % NODE_SZ;
    var i := dkey % NODE_SZ;
    var m := i + if dkey == NODE_SZ then NODE_SZ else 1;
    cnt', R' := cnt, R;
    LoopEnds(op, w, b);
    StartSums(op, w, b);
    while i < m
      invariant lo <= i <= m
      invariant Merging(op, w, b, dn, sn, i, R') && log !in R' && fresh(R' - R)
      invariant cnt' + SumTo(w.kids, i - lo) == cnt + SumTo(Merged(op, w, b), i - lo)
      invariant log.released == old(log.released) + DecsTo(op, w, b, i)
    {
      LoopSlot(w, i);
      SumSuffix(w.kids, i - lo, |w.kids|);
      StepSums(op, w, b, i);
      cnt', R' := VisitSlot(op, w, b, dn, dkey, sn, skey, i, cnt', log, R');
      i := i + 1;
    }
    MergingDone(op, w, b, dn, sn, m, R');
  }

  lemma NodeSz()
    ensures NODE_SZ == 32
  {}

  /** The slots that the loop runs over are those the destination has children for. */
  lemma LoopSlot(w: Trie, k: nat)
    requires Shape(w) && w.kids != []
    requires w.key % NODE_SZ <= k < w.key % NODE_SZ + |w.kids|
    ensures k < NODE_SZ && HasSlot(w, k) && Index(w, k) == k - w.key % NODE_SZ
    ensures Slot(w, k) == w.kids[k - w.key % NODE_SZ]
  {}

  lemma LoopEnds(op: SetOp, w: Trie, b: Trie)
    requires Shape(w) && w.kids != []
    ensures |w.kids| == if w.key == NODE_SZ then NODE_SZ else 1
    ensures DecsTo(op, w, b, w.key % NODE_SZ) == multiset{}
    ensures DecsTo(op, w, b, NODE_SZ) == DecsTo(op, w, b, w.key % NODE_SZ + |w.kids|)
  {
    DecsGap(op, w, b, 0, w.key % NODE_SZ);
    DecsGap(op, w, b, w.key % NODE_SZ + |w.kids|, NODE_SZ);
  }

  lemma StartSums(op: SetOp, w: Trie, b: Trie)
    ensures SumTo(w.kids, 0) == SumTo(Merged(op, w, b), 0) == 0 && DecsTo(op, w, b, 0) == multiset{}
  {}

  lemma StepSums(op: SetOp, w: Trie, b: Trie, k: nat)
    requires HasSlot(w, k)
    ensures var j := Index(w, k);
            && SumTo(w.kids, j + 1) == SumTo(w.kids, j) + Weight(Slot(w, k))
            && SumTo(Merged(op, w, b), j + 1) == SumTo(Merged(op, w, b), j) + Weight(Merged(op, w, b)[j])
    ensures DecsTo(op, w, b, k + 1) == DecsTo(op, w, b, k) + DecsAt(op, w, b, k)
  {}

  /** IMAP_ensure_node: the child for slot k, or an empty node. */
  method Offer(ghost op: SetOp, ghost w: Trie, ghost b: Trie, ghost dn: array<Node>, sn: array<Node>, skey: nat, k: nat, ghost R: set<object>)
    returns (sd: Node)
    requires Merging(op, w, b, dn, sn, k, R)
    requires skey == b.key && Shape(b) && b.kids != [] && k < NODE_SZ
    ensures Merging(op, w, b, dn, sn, k, R)
    ensures HasSlot(b, k) ==> Index(b, k) < sn.Length && sd == sn[Index(b, k)]
    ensures !HasSlot(b, k) ==> fresh(sd.Repr)
    ensures sd.Valid() && sd.tree == Slot(b, k)
  {
    if skey == NODE_SZ {
      sd := sn[k];
    } else if skey == k {
      sd := sn[0];
    } else {
      sd := new Node.Zero();
    }
  }

  lemma OfferHeight(b: Trie, k: nat)
    requires b.kids != []
    ensures Height(Slot(b, k)) < Height(b)
  {
    assert Height(b.kids[0]) < Height(b);
  }

  lemma SlotsAgree(w: Trie, b: Trie, k: nat)
    requires Agree(w, b) && k < NODE_SZ && HasSlot(w, k)
    requires forall i :: 0 <= i < |b.kids| ==> WF(b.kids[i])
    requires forall i :: 0 <= i < |w.kids| ==> WF(w.kids[i])
    ensures SlotAgree(Slot(w, k), Slot(b, k)) && WF(Slot(b, k)) && WF(Slot(w, k))
  {
    if HasSlot(b, k) {
      AgreeAtSlot(w, b, k);
    } else {
      AgreeWithEmpty(Slot(w, k));
    }
  }

  method VisitSlot(op: SetOp, ghost w: Trie, ghost b: Trie, dn: array<Node>, dkey: nat, sn: array<Node>, skey: nat,
                   k: nat, cnt: nat, log: Ledger, ghost R: set<object>)
    returns (cnt': nat, ghost R': set<object>)
    requires dkey == w.key && skey == b.key && Shape(w) && Shape(b) && b.kids != []
    requires forall i :: 0 <= i < |w.kids| ==> WF(w.kids[i])
    requires forall i :: 0 <= i < |b.kids| ==> WF(b.kids[i])
    requires Agree(w, b) && log !in R && k < NODE_SZ && HasSlot(w, k)
    requires Merging(op, w, b, dn, sn, k, R)
    requires Weight(Slot(w, k)) <= cnt
    modifies R, log`released
    ensures Merging(op, w, b, dn, sn, k + 1, R') && log !in R' && fresh(R' - R)
    ensures cnt' == cnt - Weight(Slot(w, k)) + Weight(Merged(op, w, b)[Index(w, k)])
    ensures log.released == old(log.released) + DecsAt(op, w, b, k)
    decreases Height(b), 0
  {

    hide WF, Agree, SlotAgree, SlotDecs, DecsAt, SumTo, Merged, SlotOp, Merging, Node.Valid, Height, Shape, Slot;
    var sd := Offer(op, w, b, dn, sn, skey, k, R);
    ghost var visit := Visit(op, w, b, dn, sn, k, R, sd);
    visit.Separate();
    var nd := dn[if dkey == NODE_SZ then k else 0];
    SlotsAgree(w, b, k);
    VisitComputes(op, w, b, k);
    OfferHeight(b, k);
    label Before:
    cnt' := SlotByOp(op, nd, sd, cnt, log);
    visit.Step@Before();
    R' := R + old@Before(sd.Repr) + nd.Repr;
  }

  method DataByOp(op: SetOp, dest: Node, src: Node, cnt: nat, log: Ledger) returns (cnt': nat)
    requires Ready(dest, src, log) && SlotAgree(dest.tree, src.tree) && Weight(dest.tree) <= cnt
    modifies dest`data, dest`tree, log`released
    ensures dest.Valid() && dest.tree == old(dest.tree).(data := Pick(op, old(dest.data), src.data))
    ensures cnt' == cnt - DataCount(old(dest.tree)) + DataCount(dest.tree)
    ensures log.released == old(log.released) + DataDecs(op, old(dest.data), src.data)
  {
    match op {
      case Union => cnt' := UnionData(dest, src, cnt, log);
      case Intersection => cnt' := IntersectionData(dest, src, cnt, log);
      case Difference => cnt' := DifferenceData(dest, src, cnt, log);
      case SymmetricDifference => cnt' := SymmetricDifferenceData(dest, src, cnt, log);
    }
  }

  method BelowByOp(op: SetOp, dest: Node, src: Node, cnt: nat, log: Ledger) returns (cnt': nat)
    requires Ready(dest, src, log) && Agree(dest.tree, src.tree) && dest.size <= cnt
    modifies dest.Repr, src.Repr, log`released
    ensures dest.Valid() && fresh(dest.Repr - old(dest.Repr) - old(src.Repr))
    ensures dest.tree == BelowOp(op, old(dest.tree), old(src.tree))
    ensures cnt' == cnt - old(dest.size) + dest.size
    ensures log.released == old(log.released) + BelowDecs(op, old(dest.tree), old(src.tree))
    decreases Height(src.tree), 5
  {
    hide WF, Agree, Node.Valid, Height, BelowOp, BelowDecs;
    match op {
      case Union => cnt' := UnionBelow(dest, src, cnt, log);
      case Intersection => cnt' := IntersectionBelow(dest, src, cnt, log);
      case Difference => cnt' := DifferenceBelow(dest, src, cnt, log);
      case SymmetricDifference => cnt' := SymmetricDifferenceBelow(dest, src, cnt, log);
    }
  }

  /** One slot: the two values, then what is below them. */
  method SlotByOp(op: SetOp, dest: Node, src: Node, cnt: nat, log: Ledger) returns (cnt': nat)
    requires Ready(dest, src, log) && SlotAgree(dest.tree, src.tree) && Weight(dest.tree) <= cnt
    modifies dest.Repr, src.Repr, log`released
    ensures dest.Valid() && fresh(dest.Repr - old(dest.Repr) - old(src.Repr))
    ensures dest.tree == SlotOp(op, old(dest.tree), old(src.tree))
    ensures cnt' == cnt - Weight(old(dest.tree)) + Weight(dest.tree)
    ensures log.released == old(log.released) + SlotDecs(op, old(dest.tree), old(src.tree))
    decreases Height(src.tree), 6
  {
    hide WF, Agree, SlotAgree, Height, BelowOp, BelowDecs, DataDecs, Pick;
    ghost var a, b := dest.tree, src.tree;
    AgreeBelow(a, b);
    cnt' := DataByOp(op, dest, src, cnt, log);
    DataIrrelevantAll(a, dest.data, b);
    cnt' := BelowByOp(op, dest, src, cnt', log);
  }
}
