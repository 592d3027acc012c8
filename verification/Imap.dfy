/** imap_t: NODE_SZ inline nodes, the number of stored values and a cached vector of them. */
module Imap {
  import opened Common
  import opened ImapTrie
  import opened ImapOps
  import opened ImapRefs
  import opened ImapNode
  import opened ImapMerge
  import opened ImapSetOps
  import opened Vec

  // ---- the order in which the values are visited ----

  function DataSeq(d: Option<Obj>): seq<Obj> {
    if d.Some? then [d.value] else []
  }

  function FlatTo(t: Trie, m: nat): seq<Obj>
    requires m <= |t.kids|
    decreases t, m
  {
    if m == 0 then [] else FlatTo(t, m - 1) + SlotFlat(t.kids[m - 1])
  }

  function Flat(t: Trie): seq<Obj>
    decreases t, |t.kids| + 1
  {
    FlatTo(t, |t.kids|)
  }

  function SlotFlat(c: Trie): seq<Obj>
    decreases c, |c.kids| + 2
  {
    DataSeq(c.data) + Flat(c)
  }

  /** The visited values are the stored ones, each as often as it is stored. */
  lemma {:induction false} FlatIsObjs(t: Trie, m: nat)
    requires m <= |t.kids|
    ensures multiset(FlatTo(t, m)) == ObjsTo(t, m)
    decreases t, m
  {
    if m > 0 {
      FlatIsObjs(t, m - 1);
      SlotFlatIsObjs(t.kids[m - 1]);
    }
  }

  lemma {:induction false} SlotFlatIsObjs(c: Trie)
    ensures multiset(SlotFlat(c)) == SlotObjs(c)
    decreases c, |c.kids| + 2
  {
    FlatIsObjs(c, |c.kids|);
  }

  lemma {:induction false} FlatLength(t: Trie, m: nat)
    requires m <= |t.kids|
    requires forall i :: 0 <= i < |t.kids| ==> WF(t.kids[i])
    ensures |FlatTo(t, m)| == SumTo(t.kids, m)
    decreases t, m
  {
    if m > 0 {
      FlatLength(t, m - 1);
      SlotFlatLength(t.kids[m - 1]);
    }
  }

  lemma {:induction false} SlotFlatLength(c: Trie)
    requires WF(c)
    ensures |SlotFlat(c)| == Weight(c)
    decreases c, |c.kids| + 2
  {
    FlatLength(c, |c.kids|);
  }

  lemma FlatStep(t: Trie, m: nat)
    requires m < |t.kids|
    ensures FlatTo(t, m + 1) == FlatTo(t, m) + SlotFlat(t.kids[m])
  {}

  lemma NothingVisited(t: Trie)
    ensures FlatTo(t, 0) == [] && SumTo(t.kids, 0) == 0
  {}

  lemma SumStep(kids: seq<Trie>, m: nat)
    requires m < |kids|
    ensures SumTo(kids, m + 1) == SumTo(kids, m) + Weight(kids[m])
  {}

  /** What counting references adds. */
  function Counted(refs: bool, s: seq<Obj>): multiset<Obj> {
    if refs then multiset(s) else multiset{}
  }

  /** IMAP_2vec and IMAP_2vec_ref, which also takes a reference for every value: the capacity
      of the vector is never exceeded. */
  method ToVec(node: Node, v: Vector, refs: bool, log: Ledger)
    requires node.Valid() && WF(node.tree) && node.nodes != null
    requires v.Valid() && v !in node.Repr && v.data !in node.Repr && v.len + node.size <= v.size
    requires log !in node.Repr
    modifies v`len, v.data, log`acquired
    ensures v.Valid() && v.Contents() == old(v.Contents()) + Flat(node.tree)
    ensures log.acquired == old(log.acquired) + Counted(refs, Flat(node.tree))
    decreases node.tree, 2
  {
    RowToVec(node.nodes, node.tree, v, node.Repr - {node, node.nodes}, refs, log);
  }

  /** The loop, which runs over the root as well. */
  method RowToVec(a: array<Node>, ghost t: Trie, v: Vector, ghost R: set<object>, refs: bool, log: Ledger)
    requires Row(a, t.kids, R) && v.Valid() && v !in R && v.data !in R
    requires forall i :: 0 <= i < |t.kids| ==> WF(t.kids[i])
    requires v.len + SumTo(t.kids, |t.kids|) <= v.size
    requires log !in R
    modifies v`len, v.data, log`acquired
    ensures v.Valid() && v.Contents() == old(v.Contents()) + FlatTo(t, |t.kids|)
    ensures log.acquired == old(log.acquired) + Counted(refs, FlatTo(t, |t.kids|))
    decreases t, 1
  {
    hide SlotFlat, FlatTo, WF, SumTo;
    var n := a.Length;
    NothingVisited(t);
    for m := 0 to n
      invariant v.Valid() && v.Contents() == old(v.Contents()) + FlatTo(t, m)
      invariant log.acquired == old(log.acquired) + Counted(refs, FlatTo(t, m))
      invariant v.len + SumTo(t.kids, |t.kids|) <= v.size + SumTo(t.kids, m)
    {
      SumSuffix(t.kids, m, |t.kids|);
      FlatStep(t, m);
      SumStep(t.kids, m);
      ChildToVec(a[m], v, refs, log);
      SlotFlatLength(t.kids[m]);
    }
  }

  method DataToVec(d: Option<Obj>, v: Vector, refs: bool, log: Ledger)
    requires v.Valid() && v.len + (if d.Some? then 1 else 0) <= v.size
    modifies v`len, v.data, log`acquired
    ensures v.Valid() && v.Contents() == old(v.Contents()) + DataSeq(d)
    ensures log.acquired == old(log.acquired) + Counted(refs, DataSeq(d))
  {
    if d.Some? {
      v.Append(d.value);
      if refs {
        log.Incref(d.value);
      }
    }
  }

  method ChildToVec(nd: Node, v: Vector, refs: bool, log: Ledger)
    requires nd.Valid() && WF(nd.tree)
    requires v.Valid() && v !in nd.Repr && v.data !in nd.Repr && v.len + Weight(nd.tree) <= v.size
    requires log !in nd.Repr
    modifies v`len, v.data, log`acquired
    ensures v.Valid() && v.Contents() == old(v.Contents()) + SlotFlat(nd.tree)
    ensures log.acquired == old(log.acquired) + Counted(refs, SlotFlat(nd.tree))
    decreases nd.tree, 3
  {
    hide WF, FlatTo, SumTo, Node.Valid, Counted, SlotFlat;
    ghost var c := nd.tree;
    ChildParts(nd);
    CountedSplit(refs, c);
    DataToVec(nd.data, v, refs, log);
    if nd.nodes != null {
      ToVec(nd, v, refs, log);
    }
  }

  lemma CountedSplit(refs: bool, c: Trie)
    ensures Counted(refs, SlotFlat(c)) == Counted(refs, DataSeq(c.data)) + Counted(refs, Flat(c))
    ensures SlotFlat(c) == DataSeq(c.data) + Flat(c)
    ensures Counted(refs, []) == multiset{}
  {}

  lemma ChildParts(nd: Node)
    requires nd.Valid() && WF(nd.tree)
    ensures nd in nd.Repr && nd.data == nd.tree.data && nd.size == nd.tree.size
    ensures nd.nodes == null ==> Flat(nd.tree) == []
  {}

  class Map {
    var len: nat
    var vec: Vector?
    var nodes: array<Node>

    ghost var below: set<object>  // what the inline nodes are made of
    ghost var tree: Trie

    ghost predicate Valid()
      reads this, nodes, below, Cache()
    {
      Core() && CacheHolds(Objs(tree))
    }

    /** The trie itself. */
    ghost predicate Core()
      reads this, nodes, below
    {
      && this !in below && nodes !in below
      && len == tree.size && WFRoot(tree) && Row(nodes, tree.kids, below)
    }

    /** The cached vector, when there is one, holds exactly these objects. */
    ghost predicate CacheHolds(objs: multiset<Obj>)
      reads this, Cache()
    {
      vec != null ==>
        && vec !in below && vec.data !in below
        && vec.Valid() && multiset(vec.Contents()) == objs
    }

    ghost function Cache(): set<object>
      reads this, vec
    {
      if vec == null then {} else var v: Vector := vec; {v, v.data}
    }

    /** The map from ids to objects that this imap stands for. */
    ghost function Model(): map<nat, Obj>
      reads this
    {
      Entries(tree)
    }

    /** Every object this map references, as often as it references it. */
    ghost function Refs(): multiset<Obj>
      reads this
    {
      Objs(tree)
    }

    /** imap_new */
    constructor ()
      ensures Valid() && fresh(nodes) && fresh(below) && vec == null
      ensures Model() == map[] && len == 0
    {
      hide WF, SumTo, Entries, Node.Valid;
      EmptyRoot();
      var a := Node.Calloc(NODE_SZ);
      len, vec, nodes := 0, null, a;
      below := set i | 0 <= i < NODE_SZ :: a[i];
      tree := Trie(0, NODE_SZ, None, Zeros(NODE_SZ));
    }

    /** imap_get */
    method Get(id: nat) returns (d: Option<Obj>)
      requires Valid()
      ensures d == if id in Model() then Some(Model()[id]) else None
    {
      EntriesIsLookup(tree, id);
      var nd: Node, rest: nat := nodes[id % NODE_SZ], id / NODE_SZ;
      while true
        invariant nd.Valid() && WF(nd.tree) && SlotLookup(nd.tree, rest) == Lookup(tree, id)
        decreases rest
      {
        if rest == 0 {
          return nd.data;
        }
        if nd.nodes == null {
          return None;
        }
        rest := rest - 1;
        var k := rest % NODE_SZ;
        if nd.key != NODE_SZ && nd.key != k {
          return None;
        }
        nd := nd.nodes[if nd.key == NODE_SZ then k else 0];
        rest := rest / NODE_SZ;
      }
    }
  
    /** What imap_set and imap_add do with the cache. */
    method CacheAppend(d: Obj, ghost objs: multiset<Obj>)
      requires CacheHolds(objs)
      modifies this`vec, Cache()
      ensures CacheHolds(objs + multiset{d}) && fresh(Cache() - old(Cache()))
    {
      if vec != null {
        ghost var before := vec.Contents();
        vec.AppendSafe(d);
        assert vec.Contents() == before + [d];
      }
    }

    /** imap_set */
    method Set(id: nat, d: Obj) returns (rc: int)
      requires Valid()
      modifies this, below, Cache()
      ensures Valid() && nodes == old(nodes) && fresh(below + Cache() - old(below) - old(Cache()))
      ensures Model() == old(Model())[id := d]
      ensures rc == if id in old(Model()) then 0 else 1
    {
      hide WFRoot, Row, PutAt, Entries, Objs, Vector.Valid;
      RootPut(tree, id, d);
      rc := SetInTrie(id, d);
      if rc < 1 {
        vec := null;
      } else {
        CacheAppend(d, old(Refs()));
      }
    }

    method SetInTrie(id: nat, d: Obj) returns (rc: int)
      requires Core()
      modifies this`len, this`below, this`tree, below
      ensures Core() && fresh(below - old(below))
      ensures tree == PutAt(old(tree), id, d)
      ensures rc == if id in old(Model()) then 0 else 1
    {
      hide WF, Row, SumTo, PutAt, PutSlot, Entries, Objs;
      ghost var t, k := tree, id % NODE_SZ;
      RootOpen(k);
      RootPut(t, id, d);
      ghost var child := Child(nodes, t.kids, k, below);
      rc := nodes[id % NODE_SZ].SetSlot(id / NODE_SZ, d);
      child.Rejoin();
      len := len + rc;
      below := below + nodes[k].Repr;
      tree := PutAt(t, id, d);
    }

    /** imap_add: 0 when the value is added, -2 when the id exists already. */
    method Add(id: nat, d: Obj) returns (rc: int)
      requires Valid()
      modifies this, below, Cache()
      ensures Valid() && nodes == old(nodes) && fresh(below + Cache() - old(below) - old(Cache()))
      ensures rc == if id in old(Model()) then -2 else 0
      ensures Model() == if rc == 0 then old(Model())[id := d] else old(Model())
    {
      hide WFRoot, Row, PutAt, Entries, Objs, Vector.Valid;
      RootPut(tree, id, d);
      rc := AddInTrie(id, d);
      if rc == 0 {
        CacheAppend(d, old(Refs()));
      }
    }

    method AddInTrie(id: nat, d: Obj) returns (rc: int)
      requires Core()
      modifies this`len, this`below, this`tree, below
      ensures Core() && fresh(below - old(below))
      ensures rc == if id in old(Model()) then -2 else 0
      ensures tree == if rc == 0 then PutAt(old(tree), id, d) else old(tree)
    {
      hide WF, Row, SumTo, PutAt, PutSlot, Entries, Objs;
      ghost var t, k := tree, id % NODE_SZ;
      RootOpen(k);
      RootPut(t, id, d);
      ghost var child := Child(nodes, t.kids, k, below);
      rc := nodes[id % NODE_SZ].AddSlot(id / NODE_SZ, d);
      child.Rejoin();
      below := below + nodes[k].Repr;
      if rc == 0 {
        len := len + 1;
        tree := PutAt(t, id, d);
      } else {
        assert t.kids[k := Slot(t, k)] == t.kids;
      }
    }

    /** imap_pop */
    method Pop(id: nat) returns (d: Option<Obj>)
      requires Valid()
      modifies this, below
      ensures Valid() && nodes == old(nodes) && fresh(below - old(below))
      ensures d == if id in old(Model()) then Some(old(Model())[id]) else None
      ensures Model() == old(Model()) - {id}
    {
      hide WF, Row, SumTo, DelSlot, Entries, Objs, Vector.Valid;
      ghost var t, k := tree, id % NODE_SZ;
      RootOpen(k);
      RootDel(t, id);
      ghost var child := Child(nodes, t.kids, k, below);
      d := nodes[id % NODE_SZ].PopSlot(id / NODE_SZ);
      child.Rejoin();
      below := below + nodes[k].Repr;
      if d.Some? {
        len := len - 1;
        tree := Replaced(t, k, DelSlot(Slot(t, k), id / NODE_SZ), t.size - 1);
        vec := null;
      } else {
        assert t.kids[k := Slot(t, k)] == t.kids;
      }
    }

    /** imap_vec: the cached vector, built first when there is none. */
    method ToVector(refs: bool, log: Ledger) returns (v: Vector)
      requires Valid() && log !in below
      modifies this`vec, log`acquired
      ensures Valid() && v == vec
      ensures old(vec) != null ==> v == old(vec) && log.acquired == old(log.acquired)
      ensures old(vec) == null ==> fresh(Cache()) && v.Contents() == Flat(tree)
      ensures old(vec) == null ==> log.acquired == old(log.acquired) + if refs then Refs() else multiset{}
    {
      hide WF, WFRoot, Row, SumTo, Objs, FlatTo, Vector.Valid;
      if vec != null {
        return vec;
      }
      v := new Vector(len);
      RootMeans(tree);
      if len > 0 {
        RowToVec(nodes, tree, v, below, refs, log);
      }
      vec := v;
    }

    /** imap_2vec_ref: a copy for the caller, and one more reference for every value in it. */
    method ToVectorRef(log: Ledger) returns (v: Vector)
      requires Valid() && log !in below
      modifies this`vec, log`acquired
      ensures Valid() && fresh(v) && v.Valid() && multiset(v.Contents()) == Refs()
      ensures log.acquired == old(log.acquired) + multiset(v.Contents())
    {
      if vec == null {
        var c := ToVector(true, log);
      } else {
        IncrefAll(vec, log);
      }
      v := vec.Copy();
    }

    method IncrefAll(v: Vector, log: Ledger)
      requires v.Valid()
      modifies log`acquired
      ensures log.acquired == old(log.acquired) + multiset(v.Contents())
    {
      var i := 0;
      while i < v.len
        invariant i <= v.len
        invariant log.acquired == old(log.acquired) + multiset(v.Contents()[..i])
      {
        log.Incref(v.data[i]);
        assert v.Contents()[..i + 1] == v.Contents()[..i] + [v.data[i]];
        i := i + 1;
      }
      assert v.Contents()[..i] == v.Contents();
    }

    /** imap_union_ref, imap_intersection_ref, imap_difference_ref and
        imap_symmetric_difference_ref: this map becomes the result, src is used up. */
    method Combine(op: SetOp, src: Map, log: Ledger) returns (ghost released: multiset<Obj>)
      requires Valid() && src.Valid() && src != this && nodes != src.nodes
      requires {this, nodes} !! src.below && {src, src.nodes} !! below && below !! src.below
      requires log !in below && log !in src.below
      requires forall id :: id in Model() && id in src.Model() ==> Model()[id] == src.Model()[id]
      modifies this, below, src.below, log`released
      ensures Valid() && fresh(below - old(below) - old(src.below))
      ensures Model() == MapOp(op, old(Model()), old(src.Model()))
      ensures log.released == old(log.released) + released
      ensures Grows(op) ==> old(Refs()) + old(src.Refs()) == Refs() + released
      ensures !Grows(op) ==>
                (old(Refs()) + old(src.Refs()) == Refs() + released <==> Covers(old(tree), old(src.tree)))
    {
      hide WFRoot, Row, Entries, Objs, Agree, DecsTo, MapOp, RootOp, Covers, Vector.Valid;
      ghost var a, b := tree, src.tree;
      assert Model() == Entries(a) && src.Model() == Entries(b);
      RootFacts(op, a, b);
      RootResult(op, a, b);
      vec := null;
      released := DecsTo(op, a, b, NODE_SZ);
      if op.Intersection? || src.len > 0 {
        CombineTries(op, src, log);
      } else {
        EmptySource(op, a, b);
      }
    }

    method CombineTries(op: SetOp, src: Map, log: Ledger)
      requires Core() && src.Core() && src != this && nodes != src.nodes
      requires {this, nodes} !! src.below && {src, src.nodes} !! below && below !! src.below
      requires log !in below && log !in src.below && Agree(tree, src.tree)
      modifies this`len, this`below, this`tree, below, src.below, log`released
      ensures Core() && fresh(below - old(below) - old(src.below))
      ensures tree == RootOp(op, old(tree), old(src.tree))
      ensures log.released == old(log.released) + DecsTo(op, old(tree), old(src.tree), NODE_SZ)
    {
      hide WF, Row, SumTo, Entries, Objs, Merging, Agree, DecsTo, Merged;
      ghost var a, b := tree, src.tree;
      RootMeans(a);
      RootMeans(b);
      RootOpWF(op, a, b);
      MergingStart(op, a, b, nodes, src.nodes, below, src.below, 0);
      len, below := VisitSlots(op, a, b, nodes, NODE_SZ, src.nodes, NODE_SZ, len, log, below + src.below);
      tree := RootOp(op, a, b);
    }

    lemma RootOpen(k: nat)
      requires Core() && k < NODE_SZ
      ensures Roomy(tree, k) && k < nodes.Length && Index(tree, k) == k
      ensures nodes[k].Valid() && nodes[k].tree == Slot(tree, k) && nodes[k].Repr <= below
    {
    }
  }

  /** Child i of a row, and the objects the row is made of. */
  datatype Child = Child(a: array<Node>, ts: seq<Trie>, i: nat, R: set<object>) {

    /** Work inside one child leaves the row in order. */
    twostate lemma Rejoin()
      requires old(Row(a, ts, R)) && i < a.Length && a !in R
      requires unchanged(a) && unchanged(R - old(a[i].Repr))
      requires a[i].Valid() && fresh(a[i].Repr - old(a[i].Repr))
      ensures Row(a, ts[i := a[i].tree], R + a[i].Repr)
    {
      forall j | 0 <= j < a.Length && j != i
        ensures a[j].Valid() && a[j].tree == old(a[j].tree) && a[j].Repr == old(a[j].Repr)
        ensures a[j].Repr !! a[i].Repr
      {
        assert old(a[j].Repr) !! old(a[i].Repr);
      }
    }
  }

  lemma RootPut(t: Trie, id: nat, d: Obj)
    requires WFRoot(t)
    ensures Roomy(t, id % NODE_SZ)
    ensures var u := PutAt(t, id, d);
            && WFRoot(u) && Entries(u) == Entries(t)[id := d]
            && u.kids == t.kids[id % NODE_SZ := PutSlot(Slot(t, id % NODE_SZ), id / NODE_SZ, d)]
            && u.size == t.size + (if id in Entries(t) then 0 else 1)
            && (id !in Entries(t) ==> Objs(u) == Objs(t) + multiset{d})
            && (id in Entries(t) <==> SlotLookup(Slot(t, id % NODE_SZ), id / NODE_SZ).Some?)
  {
    var u := PutAt(t, id, d);
    RootRoomy(t, id % NODE_SZ);
    PutAtWF(t, id, d);
    WFIsRoot(u);
    EntriesIsLookup(t, id);
    if id !in Entries(t) {
      PutAtObjs(t, id, d);
    }
    var m := Entries(t)[id := d];
    forall j: nat ensures Lookup(u, j) == if j in m then Some(m[j]) else None {
      PutAtLookup(t, id, d, j);
      EntriesIsLookup(t, j);
    }
    SameLookupSameEntries(u, m);
  }

  lemma RootDel(t: Trie, id: nat)
    requires WFRoot(t)
    ensures Roomy(t, id % NODE_SZ)
    ensures var c := Slot(t, id % NODE_SZ);
            && SlotLookup(c, id / NODE_SZ) == (if id in Entries(t) then Some(Entries(t)[id]) else None)
            && (id !in Entries(t) ==> Entries(t) == Entries(t) - {id})
            && (id in Entries(t) ==>
                  && t.size > 0
                  && var u := Replaced(t, id % NODE_SZ, DelSlot(c, id / NODE_SZ), t.size - 1);
                     && WFRoot(u) && Entries(u) == Entries(t) - {id}
                     && u.kids == t.kids[id % NODE_SZ := DelSlot(c, id / NODE_SZ)])
  {
    RootRoomy(t, id % NODE_SZ);
    EntriesIsLookup(t, id);
    if id in Entries(t) {
      RootDelStored(t, id);
    }
  }

  lemma RootDelStored(t: Trie, id: nat)
    requires WFRoot(t) && Lookup(t, id).Some? && Roomy(t, id % NODE_SZ)
    ensures t.size > 0
    ensures var u := Replaced(t, id % NODE_SZ, DelSlot(Slot(t, id % NODE_SZ), id / NODE_SZ), t.size - 1);
            WFRoot(u) && Entries(u) == Entries(t) - {id}
  {
    hide WF, WFRoot, SumTo, DelSlot, Entries, Replaced;
    var k := id % NODE_SZ;
    var c := Slot(t, k);
    var c' := DelSlot(c, id / NODE_SZ);
    ChildWF(t, k);
    DelSlotWF(c, id / NODE_SZ);
    SlotAtMost(t, k);
    var u := Replaced(t, k, c', t.size - 1);
    RootReplaced(t, k, c', t.size - 1);
    var m := Entries(t) - {id};
    forall j: nat ensures Lookup(u, j) == if j in m then Some(m[j]) else None {
      ReplacedLookup(t, k, c', t.size - 1, j);
      if j % NODE_SZ == k {
        DelSlotLookup(c, id / NODE_SZ, j / NODE_SZ);
      }
      EntriesIsLookup(t, j);
    }
    SameLookupSameEntries(u, m);
  }

  lemma ChildWF(t: Trie, k: nat)
    requires Roomy(t, k)
    ensures WF(Slot(t, k)) && Shape(t) && HasSlot(t, k)
    ensures forall id: nat :: id % NODE_SZ == k ==> Lookup(t, id) == SlotLookup(Slot(t, k), id / NODE_SZ)
  {}

  lemma RootReplaced(t: Trie, k: nat, c: Trie, size: nat)
    requires WFRoot(t) && WF(c) && k < NODE_SZ
    requires size == t.size + Weight(c) - Weight(Slot(t, k))
    ensures WFRoot(Replaced(t, k, c, size))
  {
    SumUpdate(t.kids, k, c, |t.kids|);
  }

  lemma RootFacts(op: SetOp, a: Trie, b: Trie)
    requires WFRoot(a) && WFRoot(b)
    requires forall id :: id in Entries(a) && id in Entries(b) ==> Entries(a)[id] == Entries(b)[id]
    ensures a.size == SumTo(a.kids, |a.kids|)
    ensures forall i :: 0 <= i < |a.kids| ==> WF(a.kids[i])
    ensures forall i :: 0 <= i < |b.kids| ==> WF(b.kids[i])
    ensures Shape(a) && Shape(b) && a.kids != [] && b.kids != [] && a.key == b.key == NODE_SZ
    ensures Agree(a, b)
  {
    hide WF, SumTo, Lookup, Entries;
    forall id: nat ensures Lookup(a, id).Some? && Lookup(b, id).Some? ==> Lookup(a, id) == Lookup(b, id) {
      EntriesIsLookup(a, id);
      EntriesIsLookup(b, id);
    }
  }

  /** What the operation leaves, in the destination and in the counters. */
  lemma RootResult(op: SetOp, a: Trie, b: Trie)
    requires WFRoot(a) && WFRoot(b)
    ensures var r, d := RootOp(op, a, b), DecsTo(op, a, b, NODE_SZ);
            && WFRoot(r) && Entries(r) == MapOp(op, Entries(a), Entries(b))
            && r.kids == Merged(op, a, b) && r.size == SumTo(Merged(op, a, b), |a.kids|)
            && (Grows(op) ==> Objs(a) + Objs(b) == Objs(r) + d)
            && (!Grows(op) ==> (Objs(a) + Objs(b) == Objs(r) + d <==> Covers(a, b)))
  {
    hide WFRoot, Entries, MapOp, Objs, DecsTo, Covers, Merged, SumTo;
    SetOperation(op, a, b);
    if Grows(op) {
      GrowingConserves(op, a, b);
    } else {
      ConservesIffCovers(op, a, b);
    }
  }

  /** An empty source is skipped, and nothing would happen. */
  lemma EmptySource(op: SetOp, a: Trie, b: Trie)
    requires WFRoot(a) && WFRoot(b) && b.size == 0 && !op.Intersection?
    ensures RootOp(op, a, b) == a && DecsTo(op, a, b, NODE_SZ) == multiset{}
  {
    hide WF, SlotOp, SlotDecs;
    EmptySlots(op, a, b, |a.kids|);
    assert Merged(op, a, b) == a.kids;
  }

  lemma {:induction false} EmptySlots(op: SetOp, a: Trie, b: Trie, m: nat)
    requires WFRoot(a) && WFRoot(b) && b.size == 0 && !op.Intersection? && m <= NODE_SZ
    ensures forall i :: 0 <= i < m ==> Merged(op, a, b)[i] == a.kids[i]
    ensures DecsTo(op, a, b, m) == multiset{}
  {
    hide SlotOp, SlotDecs, SumTo;
    if m > 0 {
      EmptySlots(op, a, b, m - 1);
      MergedAt(op, a, b, m - 1);
      SumZero(b.kids, |b.kids|, m - 1);
      EmptyChild(op, a.kids[m - 1], b.kids[m - 1]);
    }
  }

  lemma EmptyChild(op: SetOp, x: Trie, y: Trie)
    requires WF(y) && Weight(y) == 0 && !op.Intersection?
    ensures SlotOp(op, x, y) == x && SlotDecs(op, x, y) == multiset{}
  {}

  lemma RootMeans(t: Trie)
    requires WFRoot(t)
    ensures t.size == SumTo(t.kids, |t.kids|)
    ensures forall i :: 0 <= i < |t.kids| ==> WF(t.kids[i])
    ensures multiset(FlatTo(t, |t.kids|)) == Objs(t)
    ensures t.size == 0 ==> FlatTo(t, |t.kids|) == []
  {
    FlatIsObjs(t, |t.kids|);
    FlatLength(t, |t.kids|);
  }

  lemma RootRoomy(t: Trie, k: nat)
    requires WFRoot(t) && k < NODE_SZ
    ensures Roomy(t, k)
  {}

  lemma WFIsRoot(t: Trie)
    requires WF(t) && t.key == NODE_SZ && |t.kids| == NODE_SZ && t.data == None
    ensures WFRoot(t)
  {}

  lemma EmptyRoot()
    ensures var t := Trie(0, NODE_SZ, None, Zeros(NODE_SZ)); WFRoot(t) && Entries(t) == map[]
  {
    var t := Trie(0, NODE_SZ, None, Zeros(NODE_SZ));
    EmptyWF();
    SumZeros(t.kids, |t.kids|);
    SizeIsCard(t);
  }
}
