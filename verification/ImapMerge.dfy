/** The recursive helpers of the four set operations, on nodes in the heap.

    The slots of the destination are visited in order.  Everything a helper needs to know
    about the slots it has not reached yet is `Merging`, and one visit keeps it. */
module ImapMerge {
  import opened Common
  import opened ImapTrie
  import opened ImapOps
  import opened ImapRefs
  import opened ImapNode

  /** Where the changes of reference counters are written down. */
  class Ledger {
    var released: multiset<Obj>
    var acquired: multiset<Obj>

    constructor ()
      ensures released == acquired == multiset{}
    {
      released, acquired := multiset{}, multiset{};
    }

    /** Both vec_object_decref and the decref callback give up one reference. */
    method Decref(o: Obj)
      modifies this`released
      ensures released == old(released) + multiset{o}
    {
      released := released + multiset{o};
    }

    /** vec_object_incref */
    method Incref(o: Obj)
      modifies this`acquired
      ensures acquired == old(acquired) + multiset{o}
    {
      acquired := acquired + multiset{o};
    }
  }

  /** The slots of dn below k are merged, the others are as in w; the children of the
      source from slot k on are as in b.  No two footprints overlap. */
  ghost predicate Merging(op: SetOp, w: Trie, b: Trie, dn: array<Node>, sn: array<Node>, k: nat, R: set<object>)
    reads dn, sn, R
  {
    && dn !in R && sn !in R && dn != sn
    && dn.Length == |w.kids| && sn.Length == |b.kids|
    && (forall j :: 0 <= j < dn.Length ==>
          && dn[j] in R && dn[j].Repr <= R && dn[j].Valid()
          && dn[j].tree == if SlotKey(w, j) < k then Merged(op, w, b)[j] else w.kids[j])
    && (forall j :: 0 <= j < sn.Length && k <= SlotKey(b, j) ==>
          sn[j] in R && sn[j].Repr <= R && sn[j].Valid() && sn[j].tree == b.kids[j])
    && (forall i, j :: 0 <= i < j < dn.Length ==> dn[i].Repr !! dn[j].Repr)
    && (forall i, j :: 0 <= i < j < sn.Length && k <= SlotKey(b, i) && k <= SlotKey(b, j) ==> sn[i].Repr !! sn[j].Repr)
    && (forall i, j :: 0 <= i < dn.Length && 0 <= j < sn.Length && k <= SlotKey(b, j) ==> dn[i].Repr !! sn[j].Repr)
  }

  lemma MergingStart(op: SetOp, w: Trie, b: Trie, dn: array<Node>, sn: array<Node>, D: set<object>, S: set<object>, k: nat)
    requires Row(dn, w.kids, D) && Row(sn, b.kids, S)
    requires D !! S && dn !in D + S && sn !in D + S && dn != sn
    requires Shape(w) && w.kids != [] && k == w.key % NODE_SZ
    ensures Merging(op, w, b, dn, sn, k, D + S)
  {
  }

  lemma MergingDone(op: SetOp, w: Trie, b: Trie, dn: array<Node>, sn: array<Node>, k: nat, R: set<object>)
    requires Merging(op, w, b, dn, sn, k, R)
    requires Shape(w) && k == w.key % NODE_SZ + |w.kids|
    ensures Row(dn, Merged(op, w, b), R)
  {
  }

  /** A visit of slot k: the source offers sd. */
  datatype Visit = Visit(op: SetOp, w: Trie, b: Trie, dn: array<Node>, sn: array<Node>, k: nat, R: set<object>, sd: Node) {
    ghost predicate Meaningful()
    {
      Shape(w) && Shape(b) && HasSlot(w, k) && dn.Length == |w.kids| && sn.Length == |b.kids|
      && (HasSlot(b, k) ==> Index(b, k) < sn.Length)
    }

    function Nd(): Node
      requires Meaningful()
      reads dn
    {
      dn[Index(w, k)]
    }

    /** Before the visit, the two nodes are separate and valid. */
    lemma Separate()
      requires Shape(w) && Shape(b) && HasSlot(w, k) && Merging(op, w, b, dn, sn, k, R)
      requires HasSlot(b, k) ==> Index(b, k) < sn.Length && sd == sn[Index(b, k)]
      requires !HasSlot(b, k) ==> sd.Repr !! R + {dn, sn}
      ensures Meaningful()
      ensures Nd().Valid() && Nd().Repr <= R && Nd().tree == Slot(w, k)
      ensures HasSlot(b, k) ==> sd.Valid() && sd.Repr <= R && sd.tree == Slot(b, k)
      ensures Nd().Repr !! sd.Repr && dn !in R && sn !in R
    {
    }

    /** What it does to the heap. */
    twostate predicate Done()
      requires Meaningful()
      reads dn, sn, R, sd, Nd(), Nd().Repr
    {
      && unchanged(dn) && unchanged(sn)
      && (HasSlot(b, k) ==> sd == sn[Index(b, k)])
      && (!HasSlot(b, k) ==> old(sd.Repr) !! R + {dn, sn})
      && unchanged(R - old(Nd().Repr) - old(sd.Repr))
      && Nd().Valid() && Nd().tree == Merged(op, w, b)[Index(w, k)]
      && fresh(Nd().Repr - old(Nd().Repr) - old(sd.Repr))
    }

    twostate lemma DestSiblings(j: nat)
      requires Meaningful() && old(Merging(op, w, b, dn, sn, k, R)) && Done()
      requires j < dn.Length && j != Index(w, k)
      ensures dn[j].Valid() && dn[j].tree == old(dn[j].tree) && dn[j].Repr == old(dn[j].Repr)
      ensures dn[j].Repr !! Nd().Repr
    {
    }

    twostate lemma SourceSiblings(j: nat)
      requires Meaningful() && old(Merging(op, w, b, dn, sn, k, R)) && Done()
      requires j < sn.Length && k < SlotKey(b, j)
      ensures sn[j].Valid() && sn[j].tree == old(sn[j].tree) && sn[j].Repr == old(sn[j].Repr)
      ensures sn[j].Repr !! Nd().Repr
    {
    }

    /** The loop invariant survives the visit. */
    twostate lemma Step()
      requires Meaningful() && old(Merging(op, w, b, dn, sn, k, R)) && Done()
      ensures Merging(op, w, b, dn, sn, k + 1, R + old(sd.Repr) + Nd().Repr)
    {
      forall j | 0 <= j < dn.Length && j != Index(w, k)
        ensures dn[j].Valid() && dn[j].tree == old(dn[j].tree) && dn[j].Repr == old(dn[j].Repr)
        ensures dn[j].Repr !! Nd().Repr
      {
        DestSiblings(j);
      }
      forall j | 0 <= j < sn.Length && k < SlotKey(b, j)
        ensures sn[j].Valid() && sn[j].tree == old(sn[j].tree) && sn[j].Repr == old(sn[j].Repr)
        ensures sn[j].Repr !! Nd().Repr
      {
        SourceSiblings(j);
      }
    }
  }

  // ---- equal ids hold the same object ----

  ghost predicate Agree(a: Trie, b: Trie) {
    forall id: nat :: Lookup(a, id).Some? && Lookup(b, id).Some? ==> Lookup(a, id) == Lookup(b, id)
  }

  ghost predicate SlotAgree(x: Trie, y: Trie) {
    forall rest: nat :: SlotLookup(x, rest).Some? && SlotLookup(y, rest).Some? ==>
      SlotLookup(x, rest) == SlotLookup(y, rest)
  }

  lemma AgreeBelow(x: Trie, y: Trie)
    requires SlotAgree(x, y)
    ensures Agree(x, y) && (x.data.Some? && y.data.Some? ==> x.data == y.data)
  {
    assert SlotLookup(x, 0) == x.data && SlotLookup(y, 0) == y.data;
    forall id: nat ensures Lookup(x, id).Some? && Lookup(y, id).Some? ==> Lookup(x, id) == Lookup(y, id) {
      assert SlotLookup(x, id + 1) == Lookup(x, id) && SlotLookup(y, id + 1) == Lookup(y, id);
    }
  }

  lemma AgreeAtSlot(a: Trie, b: Trie, k: nat)
    requires Agree(a, b) && k < NODE_SZ && HasSlot(a, k) && HasSlot(b, k)
    ensures SlotAgree(Slot(a, k), Slot(b, k))
  {
    forall rest: nat
      ensures SlotLookup(Slot(a, k), rest) == Lookup(a, rest * NODE_SZ + k)
      ensures SlotLookup(Slot(b, k), rest) == Lookup(b, rest * NODE_SZ + k)
    {
      assert (rest * NODE_SZ + k) % NODE_SZ == k && (rest * NODE_SZ + k) / NODE_SZ == rest;
    }
  }

  lemma AgreeWithEmpty(x: Trie)
    ensures SlotAgree(x, EMPTY)
  {
    forall rest: nat ensures SlotLookup(EMPTY, rest) == None {
    }
  }

  lemma WidenedAgree(op: SetOp, a: Trie, b: Trie)
    requires WF(a) && a.kids != [] && Agree(a, b)
    ensures Agree(Widened(op, a, b), b)
  {
    forall id: nat ensures Lookup(Widened(op, a, b), id) == Lookup(a, id) {
      WidenedLookup(op, a, b, id);
    }
  }

  // ---- what a visit computes ----

  /** Where the source has no child it offers the shared empty node. */
  lemma EmptyOffer(op: SetOp, x: Trie)
    ensures SlotOp(op, x, EMPTY) == Alone(op, x)
    ensures SlotDecs(op, x, EMPTY) == if op.Intersection? then SlotObjs(x) else multiset{}
  {
    ObjsIgnoreData(x, Pick(op, x.data, None));
  }

  lemma VisitComputes(op: SetOp, w: Trie, b: Trie, k: nat)
    requires Shape(w) && HasSlot(w, k)
    ensures SlotOp(op, Slot(w, k), Slot(b, k)) == Merged(op, w, b)[Index(w, k)]
    ensures SlotDecs(op, Slot(w, k), Slot(b, k)) == DecsAt(op, w, b, k)
  {
    MergedAt(op, w, b, Index(w, k));
    EmptyOffer(op, Slot(w, k));
  }

  lemma {:induction false} SumSuffix(kids: seq<Trie>, i: nat, m: nat)
    requires i < m <= |kids|
    ensures SumTo(kids, i) + Weight(kids[i]) <= SumTo(kids, m)
    decreases m
  {
    if i + 1 < m {
      SumSuffix(kids, i, m - 1);
    }
  }
}
