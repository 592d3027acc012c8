/** The four destructive set operations of imap as functions on node values, the map
    each of them leaves behind, and the references each of them releases.

    `a` is the destination, which adopts subtrees; `b` is the source, which is used up. */
module ImapOps {
  import opened Common
  import opened ImapTrie

  datatype SetOp = Union | Intersection | Difference | SymmetricDifference

  /** The operation on the values stored for one id. */
  function Pick(op: SetOp, x: Option<Obj>, y: Option<Obj>): Option<Obj> {
    match op
    case Union => if x.Some? then x else y
    case Intersection => if y.Some? then x else None
    case Difference => if y.Some? then None else x
    case SymmetricDifference => if y == None then x else if x == None then y else None
  }

  /** Union and symmetric difference can add ids, so they make room first. */
  predicate Grows(op: SetOp) {
    op.Union? || op.SymmetricDifference?
  }

  function Widened(op: SetOp, a: Trie, b: Trie): Trie {
    if Grows(op) && a.key != NODE_SZ && b.key != a.key && |a.kids| == 1 && a.key < NODE_SZ
    then Grown(a) else a
  }

  /** What is left of a child of the destination when the source has no such child. */
  function Alone(op: SetOp, c: Trie): Trie {
    if op.Intersection? then c.(data := None, size := 0, kids := []) else c
  }

  /** One child of the destination against the child of the source for the same slot: the
      values first, then what is below them. */
  function SlotOp(op: SetOp, a: Trie, b: Trie): Trie
    decreases b, 3
  {
    BelowOp(op, a.(data := Pick(op, a.data, b.data)), b)
  }

  function BelowOp(op: SetOp, a: Trie, b: Trie): (r: Trie)
    ensures r.data == a.data
    decreases b, 2
  {
    if b.kids == [] then
      (if op.Intersection? then a.(size := 0, kids := []) else a)
    else if a.kids == [] then
      (if Grows(op) then a.(size := b.size, key := b.key, kids := b.kids) else a)
    else
      NodeOp(op, a, b)
  }

  function Merged(op: SetOp, w: Trie, b: Trie): (r: seq<Trie>)
    ensures |r| == |w.kids|
    decreases b, 0, 0
  {
    seq(|w.kids|, i requires 0 <= i < |w.kids| =>
      var k := SlotKey(w, i);
      if HasSlot(b, k) then SlotOp(op, w.kids[i], b.kids[Index(b, k)]) else Alone(op, w.kids[i]))
  }

  /** Two nodes that both have children; a destination left without values is pruned. */
  function NodeOp(op: SetOp, a: Trie, b: Trie): (r: Trie)
    ensures r.data == a.data
    decreases b, 1
  {
    Pruned(Joined(op, Widened(op, a, b), b))
  }

  /** w after every child has been merged. */
  function Joined(op: SetOp, w: Trie, b: Trie): Trie
    decreases b, 0, 1
  {
    var kids := Merged(op, w, b);
    w.(size := SumTo(kids, |kids|), kids := kids)
  }

  function Pruned(t: Trie): Trie {
    if t.size == 0 then t.(kids := []) else t
  }

  // ---- what the result stores ----

  lemma MergedAt(op: SetOp, w: Trie, b: Trie, i: nat)
    requires i < |w.kids|
    ensures Merged(op, w, b)[i] ==
            if HasSlot(b, SlotKey(w, i)) then SlotOp(op, w.kids[i], Slot(b, SlotKey(w, i)))
            else Alone(op, w.kids[i])
  {}

  lemma {:induction false} SlotOpWF(op: SetOp, a: Trie, b: Trie)
    requires WF(a) && WF(b)
    ensures WF(SlotOp(op, a, b))
    ensures op.Union? ==> Weight(a) <= Weight(SlotOp(op, a, b))
    decreases b, 2
  {
    var a' := a.(data := Pick(op, a.data, b.data));
    DataIrrelevant(a, a'.data, 0);
    if b.kids != [] && a.kids != [] {
      NodeOpWF(op, a', b);
    }
  }

  lemma {:induction false} NodeOpWF(op: SetOp, a: Trie, b: Trie)
    requires WF(a) && WF(b) && a.kids != [] && b.kids != []
    ensures WF(NodeOp(op, a, b))
    ensures op.Union? ==> a.size <= NodeOp(op, a, b).size
    decreases b, 1
  {
    hide Merged, Widened, WF, Shape;
    var w := Widened(op, a, b);
    WidenedRoomy(op, a, b);
    MergedWF(op, w, b, |w.kids|);
    JoinedWF(op, w, b);
  }

  /** Merged children make a well-formed node once it has been pruned. */
  lemma JoinedWF(op: SetOp, w: Trie, b: Trie)
    requires Shape(w) && w.kids != [] && w.size == SumTo(w.kids, |w.kids|)
    requires forall i :: 0 <= i < |w.kids| ==> WF(Merged(op, w, b)[i])
    requires op.Union? ==> w.size <= SumTo(Merged(op, w, b), |w.kids|)
    ensures WF(Pruned(Joined(op, w, b)))
    ensures op.Union? ==> w.size <= Pruned(Joined(op, w, b)).size
  {
    hide Merged;
  }

  lemma WidenedRoomy(op: SetOp, a: Trie, b: Trie)
    requires WF(a) && a.kids != []
    ensures var w := Widened(op, a, b);
            && Shape(w) && w.size == a.size && w.size == SumTo(w.kids, |w.kids|)
            && w.kids != []
            && forall i :: 0 <= i < |w.kids| ==> WF(w.kids[i])
  {
    if Widened(op, a, b) != a {
      GrownSize(a);
      GrownKids(a);
    }
  }

  lemma {:induction false} MergedWF(op: SetOp, w: Trie, b: Trie, m: nat)
    requires m <= |w.kids| && Shape(w) && WF(b)
    requires forall i :: 0 <= i < |w.kids| ==> WF(w.kids[i])
    ensures forall i :: 0 <= i < m ==> WF(Merged(op, w, b)[i])
    ensures op.Union? ==> SumTo(w.kids, m) <= SumTo(Merged(op, w, b), m)
    decreases b, 0, m
  {
    if m > 0 {
      MergedWF(op, w, b, m - 1);
      var k := SlotKey(w, m - 1);
      MergedAt(op, w, b, m - 1);
      if HasSlot(b, k) {
        SlotOpWF(op, w.kids[m - 1], b.kids[Index(b, k)]);
      }
    }
  }

  /** A child without children looks up nothing. */
  lemma NoKids(t: Trie, id: nat)
    requires WF(t) && t.kids == []
    ensures Lookup(t, id) == None
  {}

  lemma {:induction false} SlotOpLookup(op: SetOp, a: Trie, b: Trie, rest: nat)
    requires WF(a) && WF(b)
    ensures SlotLookup(SlotOp(op, a, b), rest) == Pick(op, SlotLookup(a, rest), SlotLookup(b, rest))
    decreases b, 2
  {
    var a' := a.(data := Pick(op, a.data, b.data));
    if rest > 0 {
      DataIrrelevant(a, a'.data, rest - 1);
      BelowOpLookup(op, a', b, rest - 1);
    }
  }

  lemma {:induction false} BelowOpLookup(op: SetOp, a: Trie, b: Trie, id: nat)
    requires WF(a) && WF(b)
    ensures Lookup(BelowOp(op, a, b), id) == Pick(op, Lookup(a, id), Lookup(b, id))
    decreases b, 1, 1
  {
    if b.kids != [] && a.kids != [] {
      NodeOpLookup(op, a, b, id);
    }
  }

  lemma {:induction false} NodeOpLookup(op: SetOp, a: Trie, b: Trie, id: nat)
    requires WF(a) && WF(b) && a.kids != [] && b.kids != []
    ensures Lookup(NodeOp(op, a, b), id) == Pick(op, Lookup(a, id), Lookup(b, id))
    decreases b, 1, 0
  {
    var w := Widened(op, a, b);
    WidenedRoomy(op, a, b);
    WidenedLookup(op, a, b, id);
    JoinedLookup(op, w, b, id);
    MergedWF(op, w, b, |w.kids|);
    PrunedLookup(Joined(op, w, b), id);
  }

  lemma PrunedLookup(t: Trie, id: nat)
    requires Shape(t) && t.size == SumTo(t.kids, |t.kids|)
    requires forall i :: 0 <= i < |t.kids| ==> WF(t.kids[i])
    ensures Lookup(Pruned(t), id) == Lookup(t, id)
  {
    var k := id % NODE_SZ;
    if t.size == 0 && HasSlot(t, k) {
      SumZero(t.kids, |t.kids|, Index(t, k));
      if id / NODE_SZ > 0 {
        NoKids(t.kids[Index(t, k)], id / NODE_SZ - 1);
      }
    }
  }

  lemma AloneLookup(op: SetOp, c: Trie, rest: nat)
    ensures SlotLookup(Alone(op, c), rest) == Pick(op, SlotLookup(c, rest), None)
  {
    if op.Intersection? && rest > 0 {
      assert Lookup(Alone(op, c), rest - 1) == None;
    }
  }

  lemma WidenedLookup(op: SetOp, a: Trie, b: Trie, id: nat)
    requires WF(a) && a.kids != []
    ensures Lookup(Widened(op, a, b), id) == Lookup(a, id)
    ensures Grows(op) ==> HasSlot(Widened(op, a, b), id % NODE_SZ) || !HasSlot(b, id % NODE_SZ)
  {
    if Widened(op, a, b) != a {
      GrownLookup(a, id);
    }
  }

  lemma {:induction false} JoinedLookup(op: SetOp, w: Trie, b: Trie, id: nat)
    requires Shape(w) && WF(b)
    requires forall i :: 0 <= i < |w.kids| ==> WF(w.kids[i])
    requires Grows(op) ==> HasSlot(w, id % NODE_SZ) || !HasSlot(b, id % NODE_SZ)
    ensures Lookup(Joined(op, w, b), id) == Pick(op, Lookup(w, id), Lookup(b, id))
    decreases b, 0
  {
    var k := id % NODE_SZ;
    if HasSlot(w, k) {
      var i := Index(w, k);
      MergedAt(op, w, b, i);
      if HasSlot(b, k) {
        SlotOpLookup(op, w.kids[i], b.kids[Index(b, k)], id / NODE_SZ);
      } else {
        AloneLookup(op, w.kids[i], id / NODE_SZ);
      }
    }
  }

  // ---- whole maps ----

  /** The root has all its slots, so it is neither widened nor pruned. */
  function RootOp(op: SetOp, a: Trie, b: Trie): Trie {
    Joined(op, a, b)
  }

  /** The operation on plain maps. */
  ghost function MapOp(op: SetOp, x: map<nat, Obj>, y: map<nat, Obj>): map<nat, Obj> {
    match op
    case Union => y + x
    case Intersection => map id | id in x && id in y :: x[id]
    case Difference => x - y.Keys
    case SymmetricDifference => (x - y.Keys) + (y - x.Keys)
  }

  lemma RootOpWF(op: SetOp, a: Trie, b: Trie)
    requires WFRoot(a) && WFRoot(b)
    ensures WFRoot(RootOp(op, a, b))
  {
    RootMergedWF(op, a, b, |a.kids|);
    forall i | 0 <= i < NODE_SZ ensures WF(RootOp(op, a, b).kids[i]) {
      assert RootOp(op, a, b).kids[i] == Merged(op, a, b)[i];
    }
  }

  lemma {:induction false} RootMergedWF(op: SetOp, a: Trie, b: Trie, m: nat)
    requires WFRoot(a) && WFRoot(b) && m <= |a.kids|
    ensures forall i :: 0 <= i < m ==> WF(Merged(op, a, b)[i])
  {
    if m > 0 {
      RootMergedWF(op, a, b, m - 1);
      MergedAt(op, a, b, m - 1);
      SlotOpWF(op, a.kids[m - 1], b.kids[m - 1]);
    }
  }

  lemma RootOpLookup(op: SetOp, a: Trie, b: Trie, id: nat)
    requires WFRoot(a) && WFRoot(b)
    ensures Lookup(RootOp(op, a, b), id) == Pick(op, Lookup(a, id), Lookup(b, id))
  {
    var k := id % NODE_SZ;
    MergedAt(op, a, b, k);
    SlotOpLookup(op, a.kids[k], b.kids[k], id / NODE_SZ);
  }

  /** Each operation leaves exactly the map it is named after, whatever the shapes of the
      two tries. */
  lemma SetOperation(op: SetOp, a: Trie, b: Trie)
    requires WFRoot(a) && WFRoot(b)
    ensures WFRoot(RootOp(op, a, b))
    ensures Entries(RootOp(op, a, b)) == MapOp(op, Entries(a), Entries(b))
    ensures RootOp(op, a, b).size == |MapOp(op, Entries(a), Entries(b))|
  {
    var r, m := RootOp(op, a, b), MapOp(op, Entries(a), Entries(b));
    RootOpWF(op, a, b);
    forall id: nat ensures Lookup(r, id) == if id in m then Some(m[id]) else None {
      RootOpLookup(op, a, b, id);
      EntriesIsLookup(a, id);
      EntriesIsLookup(b, id);
    }
    SameLookupSameEntries(r, m);
    SizeIsCard(r);
  }
}
