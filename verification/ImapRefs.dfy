/** Reference accounting of the imap set operations.

    Each stored occurrence of an object is one reference.  An operation takes over the
    references of both maps; afterwards each of them is either held by the destination,
    or has been released by a decrement, or has been forgotten. */
module ImapRefs {
  import opened Common
  import opened ImapTrie
  import opened ImapOps

  function DataObjs(d: Option<Obj>): multiset<Obj> {
    if d.Some? then multiset{d.value} else multiset{}
  }

  /** The references held by the values below t. */
  function Objs(t: Trie): multiset<Obj>
    decreases t, |t.kids| + 1
  {
    ObjsTo(t, |t.kids|)
  }

  function ObjsTo(t: Trie, m: nat): multiset<Obj>
    requires m <= |t.kids|
    decreases t, m
  {
    if m == 0 then multiset{} else ObjsTo(t, m - 1) + SlotObjs(t.kids[m - 1])
  }

  function SlotObjs(c: Trie): multiset<Obj>
    decreases c, |c.kids| + 2
  {
    DataObjs(c.data) + Objs(c)
  }

  // ---- what is released ----

  function DataDecs(op: SetOp, x: Option<Obj>, y: Option<Obj>): multiset<Obj> {
    match op
    case Union => if x.Some? then DataObjs(y) else multiset{}
    case Intersection => if y.Some? then DataObjs(y) else DataObjs(x)
    case Difference => if y.Some? then DataObjs(x) + DataObjs(y) else multiset{}
    case SymmetricDifference =>
      if x.Some? && y.Some? then DataObjs(x) + DataObjs(y) else multiset{}
  }

  function SlotDecs(op: SetOp, a: Trie, b: Trie): multiset<Obj>
    decreases b, 3
  {
    DataDecs(op, a.data, b.data) + BelowDecs(op, a.(data := Pick(op, a.data, b.data)), b)
  }

  function BelowDecs(op: SetOp, a: Trie, b: Trie): multiset<Obj>
    decreases b, 2
  {
    if b.kids == [] then (if op.Intersection? then Objs(a) else multiset{})
    else if a.kids == [] then (if Grows(op) then multiset{} else Objs(b))
    else NodeDecs(op, a, b)
  }

  function NodeDecs(op: SetOp, a: Trie, b: Trie): multiset<Obj>
    decreases b, 1
  {
    DecsTo(op, Widened(op, a, b), b, NODE_SZ)
  }

  /** The releases at the slots below m. */
  function DecsTo(op: SetOp, w: Trie, b: Trie, m: nat): multiset<Obj>
    decreases b, 0, m, 1
  {
    if m == 0 then multiset{} else DecsTo(op, w, b, m - 1) + DecsAt(op, w, b, m - 1)
  }

  function DecsAt(op: SetOp, w: Trie, b: Trie, k: nat): multiset<Obj>
    decreases b, 0, k, 2
  {
    if !HasSlot(w, k) then multiset{}
    else if HasSlot(b, k) then SlotDecs(op, Slot(w, k), b.kids[Index(b, k)])
    else if op.Intersection? then SlotObjs(Slot(w, k))
    else multiset{}
  }

  // ---- what is forgotten ----

  /** References of the source at slots that the destination has no child for. */
  function SlotLeak(op: SetOp, a: Trie, b: Trie): multiset<Obj>
    decreases b, 2
  {
    if a.kids == [] || b.kids == [] then multiset{} else NodeLeak(op, a, b)
  }

  function NodeLeak(op: SetOp, a: Trie, b: Trie): multiset<Obj>
    decreases b, 1
  {
    LeakTo(op, Widened(op, a, b), b, NODE_SZ)
  }

  function LeakTo(op: SetOp, w: Trie, b: Trie, m: nat): multiset<Obj>
    decreases b, 0, m, 1
  {
    if m == 0 then multiset{} else LeakTo(op, w, b, m - 1) + LeakAt(op, w, b, m - 1)
  }

  function LeakAt(op: SetOp, w: Trie, b: Trie, k: nat): multiset<Obj>
    decreases b, 0, k, 2
  {
    if !HasSlot(b, k) then multiset{}
    else if HasSlot(w, k) then SlotLeak(op, Slot(w, k), b.kids[Index(b, k)])
    else SlotObjs(b.kids[Index(b, k)])
  }

  // ---- conservation ----

  /** The references at the slots below m, slot by slot. */
  ghost function ObjsBySlot(t: Trie, m: nat): multiset<Obj> {
    if m == 0 then multiset{} else ObjsBySlot(t, m - 1) + SlotObjs(Slot(t, m - 1))
  }

  lemma {:induction false} FullBySlot(t: Trie, m: nat)
    requires t.key == NODE_SZ && m <= |t.kids|
    ensures ObjsBySlot(t, m) == ObjsTo(t, m)
  {
    if m > 0 {
      FullBySlot(t, m - 1);
    }
  }

  lemma EmptySlot()
    ensures SlotObjs(EMPTY) == multiset{}
  {}

  lemma {:induction false} SingleBySlot(t: Trie, m: nat)
    requires t.key < NODE_SZ && |t.kids| == 1
    ensures ObjsBySlot(t, m) == if t.key < m then SlotObjs(t.kids[0]) else multiset{}
  {
    hide SlotObjs;
    EmptySlot();
    if m > 0 {
      SingleBySlot(t, m - 1);
    }
  }

  lemma {:induction false} EmptyBySlot(t: Trie, m: nat)
    requires t.kids == []
    ensures ObjsBySlot(t, m) == multiset{}
  {
    if m > 0 {
      EmptyBySlot(t, m - 1);
    }
  }

  lemma AllBySlot(t: Trie)
    requires Shape(t)
    ensures ObjsBySlot(t, NODE_SZ) == Objs(t)
  {
    var n := NODE_SZ;
    if t.kids == [] {
      EmptyBySlot(t, n);
    } else if |t.kids| == NODE_SZ && t.key == NODE_SZ {
      FullBySlot(t, n);
    } else {
      SingleBySlot(t, n);
      SingleObjs(t);
    }
  }

  lemma SingleObjs(t: Trie)
    requires |t.kids| == 1
    ensures Objs(t) == SlotObjs(t.kids[0])
  {
    var m := |t.kids|;
    assert ObjsTo(t, m) == ObjsTo(t, m - 1) + SlotObjs(t.kids[m - 1]);
  }

  lemma AddUp(a1: multiset<Obj>, b1: multiset<Obj>, r1: multiset<Obj>, d1: multiset<Obj>, l1: multiset<Obj>,
              a2: multiset<Obj>, b2: multiset<Obj>, r2: multiset<Obj>, d2: multiset<Obj>, l2: multiset<Obj>)
    requires a1 + b1 == r1 + d1 + l1 && a2 + b2 == r2 + d2 + l2
    ensures (a1 + a2) + (b1 + b2) == (r1 + r2) + (d1 + d2) + (l1 + l2)
  {
    forall o: Obj ensures ((a1 + a2) + (b1 + b2))[o] == ((r1 + r2) + (d1 + d2) + (l1 + l2))[o] {
      assert (a1 + b1)[o] == (r1 + d1 + l1)[o] && (a2 + b2)[o] == (r2 + d2 + l2)[o];
    }
  }

  lemma DataConserves(op: SetOp, x: Option<Obj>, y: Option<Obj>)
    ensures DataObjs(x) + DataObjs(y) == DataObjs(Pick(op, x, y)) + DataDecs(op, x, y) + multiset{}
  {}

  lemma {:induction false} SlotConserves(op: SetOp, a: Trie, b: Trie)
    requires WF(a) && WF(b)
    ensures SlotObjs(a) + SlotObjs(b) ==
            SlotObjs(SlotOp(op, a, b)) + SlotDecs(op, a, b) + SlotLeak(op, a, b)
    decreases b, 3
  {
    hide WF, Objs, BelowOp, BelowDecs, SlotLeak, DataDecs, DataObjs, Pick;
    var a' := a.(data := Pick(op, a.data, b.data));
    DataIrrelevant(a, a'.data, 0);
    ObjsIgnoreData(a, a'.data);
    DataConserves(op, a.data, b.data);
    BelowConserves(op, a', b);
    SlotLeakIgnoresData(op, a, b, a'.data);
    AddUp(DataObjs(a.data), DataObjs(b.data), DataObjs(a'.data), DataDecs(op, a.data, b.data), multiset{},
          Objs(a), Objs(b), Objs(BelowOp(op, a', b)), BelowDecs(op, a', b), SlotLeak(op, a, b));
  }

  lemma {:induction false} BelowConserves(op: SetOp, a: Trie, b: Trie)
    requires WF(a) && WF(b)
    ensures Objs(a) + Objs(b) == Objs(BelowOp(op, a, b)) + BelowDecs(op, a, b) + SlotLeak(op, a, b)
    decreases b, 2
  {
    hide WF, Objs, NodeOp, NodeDecs, NodeLeak;
    if a.kids != [] && b.kids != [] {
      NodeConserves(op, a, b);
    } else {
      BelowConservesOneSided(op, a, b);
    }
  }

  lemma SlotLeakIgnoresData(op: SetOp, a: Trie, b: Trie, d: Option<Obj>)
    ensures SlotLeak(op, a.(data := d), b) == SlotLeak(op, a, b)
  {
    NodeLeakIgnoresData(op, a, b, d);
  }

  lemma {:induction false} LeakIgnoresData(op: SetOp, w: Trie, b: Trie, d: Option<Obj>, m: nat)
    ensures LeakTo(op, w.(data := d), b, m) == LeakTo(op, w, b, m)
  {
    if m > 0 {
      LeakIgnoresData(op, w, b, d, m - 1);
    }
  }

  lemma NodeLeakIgnoresData(op: SetOp, a: Trie, b: Trie, d: Option<Obj>)
    ensures NodeLeak(op, a.(data := d), b) == NodeLeak(op, a, b)
  {
    assert Widened(op, a.(data := d), b) == Widened(op, a, b).(data := d);
    LeakIgnoresData(op, Widened(op, a, b), b, d, NODE_SZ);
  }

  lemma ObjsIgnoreData(t: Trie, d: Option<Obj>)
    ensures Objs(t.(data := d)) == Objs(t)
  {
    ObjsOfKids(t, t.(data := d), |t.kids|);
  }

  lemma {:induction false} ObjsOfKids(t: Trie, u: Trie, m: nat)
    requires t.kids == u.kids && m <= |t.kids|
    ensures ObjsTo(t, m) == ObjsTo(u, m)
  {
    if m > 0 {
      ObjsOfKids(t, u, m - 1);
    }
  }

  lemma NoObjs(t: Trie)
    requires t.kids == []
    ensures Objs(t) == multiset{}
  {}

  lemma BelowConservesOneSided(op: SetOp, a: Trie, b: Trie)
    requires a.kids == [] || b.kids == []
    ensures Objs(a) + Objs(b) == Objs(BelowOp(op, a, b)) + BelowDecs(op, a, b) + multiset{}
  {
    var c := BelowOp(op, a, b);
    if b.kids == [] {
      NoObjs(b);
      if op.Intersection? {
        NoObjs(c);
      } else {
        ObjsOfKids(a, c, |a.kids|);
      }
    } else {
      NoObjs(a);
      if Grows(op) {
        ObjsOfKids(b, c, |b.kids|);
      } else {
        NoObjs(c);
      }
    }
  }

  lemma {:induction false} NodeConserves(op: SetOp, a: Trie, b: Trie)
    requires WF(a) && WF(b) && a.kids != [] && b.kids != []
    ensures Objs(a) + Objs(b) == Objs(NodeOp(op, a, b)) + NodeDecs(op, a, b) + NodeLeak(op, a, b)
    decreases b, 1
  {
    var w := Widened(op, a, b);
    WidenedRoomy(op, a, b);
    WidenedObjs(op, a, b);
    StepsConserve(op, w, b, NODE_SZ);
    ShapeOfWF(b);
    BalanceBelow(op, w, b);
    JoinedKids(op, w, b);
    PrunedObjs(Joined(op, w, b));
    assert NodeOp(op, a, b) == Pruned(Joined(op, w, b));
    assert NodeDecs(op, a, b) == DecsTo(op, w, b, NODE_SZ);
    assert NodeLeak(op, a, b) == LeakTo(op, w, b, NODE_SZ);
    hide *;
  }

  lemma ShapeOfWF(t: Trie)
    requires WF(t)
    ensures Shape(t)
  {}

  lemma JoinedKids(op: SetOp, w: Trie, b: Trie)
    requires Shape(w) && WF(b)
    requires forall i :: 0 <= i < |w.kids| ==> WF(w.kids[i])
    ensures var n := Joined(op, w, b);
            n.size == SumTo(n.kids, |n.kids|) && forall i :: 0 <= i < |n.kids| ==> WF(n.kids[i])
  {
    MergedWF(op, w, b, |w.kids|);
  }

  lemma BalanceBelow(op: SetOp, w: Trie, b: Trie)
    requires Shape(w) && Shape(b) && BalancedTo(op, w, b, NODE_SZ)
    ensures Objs(w) + Objs(b) == Objs(Joined(op, w, b)) + DecsTo(op, w, b, NODE_SZ) + LeakTo(op, w, b, NODE_SZ)
  {
    AllBySlot(w);
    AllBySlot(b);
    AllBySlot(Joined(op, w, b));
  }

  lemma WidenedObjs(op: SetOp, a: Trie, b: Trie)
    requires Shape(a)
    ensures Objs(Widened(op, a, b)) == Objs(a)
  {
    if Widened(op, a, b) != a {
      SingleObjs(a);
      AllBySlot(Grown(a));
      GrownBySlot(a, NODE_SZ);
    }
  }

  lemma GrownSlot(t: Trie, k: nat)
    requires t.key < NODE_SZ && |t.kids| == 1 && k < NODE_SZ
    ensures Slot(Grown(t), k) == if k == t.key then t.kids[0] else EMPTY
  {}

  lemma NoSlotObjs()
    ensures SlotObjs(EMPTY) == multiset{}
  {}

  lemma {:induction false} GrownBySlot(t: Trie, m: nat)
    requires t.key < NODE_SZ && |t.kids| == 1 && m <= NODE_SZ
    ensures ObjsBySlot(Grown(t), m) == if t.key < m then SlotObjs(t.kids[0]) else multiset{}
  {
    hide Slot, Grown, SlotObjs;
    if m > 0 {
      GrownBySlot(t, m - 1);
      GrownSlot(t, m - 1);
      NoSlotObjs();
    }
  }

  lemma PrunedObjs(t: Trie)
    requires t.size == SumTo(t.kids, |t.kids|)
    requires forall i :: 0 <= i < |t.kids| ==> WF(t.kids[i])
    ensures Objs(Pruned(t)) == Objs(t)
  {
    if t.size == 0 {
      NoWeightNoObjs(t, |t.kids|);
    }
  }

  lemma {:induction false} NoWeightNoObjs(t: Trie, m: nat)
    requires m <= |t.kids| && SumTo(t.kids, m) == 0
    requires forall i :: 0 <= i < |t.kids| ==> WF(t.kids[i])
    ensures ObjsTo(t, m) == multiset{}
  {
    if m > 0 {
      NoWeightNoObjs(t, m - 1);
      NoObjs(t.kids[m - 1]);
    }
  }

  /** At the slots below m nothing is created and nothing disappears. */
  ghost predicate BalancedTo(op: SetOp, w: Trie, b: Trie, m: nat) {
    ObjsBySlot(w, m) + ObjsBySlot(b, m) ==
    ObjsBySlot(Joined(op, w, b), m) + DecsTo(op, w, b, m) + LeakTo(op, w, b, m)
  }

  ghost predicate BalancedAt(op: SetOp, w: Trie, b: Trie, k: nat) {
    SlotObjs(Slot(w, k)) + SlotObjs(Slot(b, k)) ==
    SlotObjs(Slot(Joined(op, w, b), k)) + DecsAt(op, w, b, k) + LeakAt(op, w, b, k)
  }

  lemma NothingYet(op: SetOp, w: Trie, b: Trie)
    ensures BalancedTo(op, w, b, 0)
  {}

  lemma {:induction false} StepsConserve(op: SetOp, w: Trie, b: Trie, m: nat)
    requires Shape(w) && WF(b) && m <= NODE_SZ
    requires forall i :: 0 <= i < |w.kids| ==> WF(w.kids[i])
    ensures BalancedTo(op, w, b, m)
    decreases b, 0, m
  {
    hide *;
    if m > 0 {
      StepsConserve(op, w, b, m - 1);
      StepConserves(op, w, b, m - 1);
      StepsAddUp(op, w, b, m);
    } else {
      NothingYet(op, w, b);
    }
  }

  lemma StepsAddUp(op: SetOp, w: Trie, b: Trie, m: nat)
    requires m > 0 && BalancedTo(op, w, b, m - 1) && BalancedAt(op, w, b, m - 1)
    ensures BalancedTo(op, w, b, m)
  {
    var n := Joined(op, w, b);
    AddUp(ObjsBySlot(w, m - 1), ObjsBySlot(b, m - 1), ObjsBySlot(n, m - 1),
          DecsTo(op, w, b, m - 1), LeakTo(op, w, b, m - 1),
          SlotObjs(Slot(w, m - 1)), SlotObjs(Slot(b, m - 1)), SlotObjs(Slot(n, m - 1)),
          DecsAt(op, w, b, m - 1), LeakAt(op, w, b, m - 1));
  }

  lemma JoinedSlot(op: SetOp, w: Trie, b: Trie, k: nat)
    ensures Slot(Joined(op, w, b), k) ==
            if !HasSlot(w, k) then EMPTY
            else if HasSlot(b, k) then SlotOp(op, Slot(w, k), b.kids[Index(b, k)])
            else Alone(op, Slot(w, k))
    requires Shape(w)
  {
    if HasSlot(w, k) {
      MergedAt(op, w, b, Index(w, k));
    }
  }

  lemma {:induction false} StepConserves(op: SetOp, w: Trie, b: Trie, k: nat)
    requires Shape(w) && WF(b) && k < NODE_SZ
    requires forall i :: 0 <= i < |w.kids| ==> WF(w.kids[i])
    ensures BalancedAt(op, w, b, k)
    decreases b, 0, k
  {
    JoinedSlot(op, w, b, k);
    if HasSlot(w, k) && HasSlot(b, k) {
      SlotConserves(op, w.kids[Index(w, k)], b.kids[Index(b, k)]);
    } else {
      StepConservesAlone(op, w, b, k);
    }
  }

  lemma StepConservesAlone(op: SetOp, w: Trie, b: Trie, k: nat)
    requires !HasSlot(w, k) || !HasSlot(b, k)
    ensures SlotObjs(Slot(w, k)) + SlotObjs(Slot(b, k)) ==
            SlotObjs(if HasSlot(w, k) then Alone(op, Slot(w, k)) else EMPTY)
            + DecsAt(op, w, b, k) + LeakAt(op, w, b, k)
  {
    NoObjs(EMPTY);
    if HasSlot(w, k) && op.Intersection? {
      NoObjs(Alone(op, Slot(w, k)));
    }
  }

  /** Union and symmetric difference make room first, so they forget nothing. */
  lemma {:induction false} GrowingForgetsNothing(op: SetOp, a: Trie, b: Trie)
    requires WF(a) && WF(b) && Grows(op)
    ensures SlotLeak(op, a, b) == multiset{}
    decreases b, 1
  {
    if a.kids != [] && b.kids != [] {
      WidenedRoomy(op, a, b);
      forall k | 0 <= k < NODE_SZ ensures HasSlot(b, k) ==> HasSlot(Widened(op, a, b), k) {
        WidenedLookup(op, a, b, k);
      }
      NothingForgotten(op, Widened(op, a, b), b, NODE_SZ);
    }
  }

  lemma {:induction false} NothingForgotten(op: SetOp, w: Trie, b: Trie, m: nat)
    requires Grows(op) && WF(b) && m <= NODE_SZ
    requires forall i :: 0 <= i < |w.kids| ==> WF(w.kids[i])
    requires forall k :: 0 <= k < NODE_SZ && HasSlot(b, k) ==> HasSlot(w, k)
    ensures LeakTo(op, w, b, m) == multiset{}
    decreases b, 0, m
  {
    if m > 0 {
      NothingForgotten(op, w, b, m - 1);
      if HasSlot(b, m - 1) {
        GrowingForgetsNothing(op, Slot(w, m - 1), b.kids[Index(b, m - 1)]);
      }
    }
  }

  /** The whole operation: every reference is held, released or forgotten. */
  lemma RootConserves(op: SetOp, a: Trie, b: Trie)
    requires WFRoot(a) && WFRoot(b)
    ensures Objs(a) + Objs(b) ==
            Objs(RootOp(op, a, b)) + DecsTo(op, a, b, NODE_SZ) + LeakTo(op, a, b, NODE_SZ)
  {
    RootStepsConserve(op, a, b, NODE_SZ);
    AllBySlot(a);
    AllBySlot(b);
    AllBySlot(RootOp(op, a, b));
  }

  lemma {:induction false} RootStepsConserve(op: SetOp, a: Trie, b: Trie, m: nat)
    requires WFRoot(a) && WFRoot(b) && m <= NODE_SZ
    ensures BalancedTo(op, a, b, m)
  {
    if m > 0 {
      RootStepsConserve(op, a, b, m - 1);
      JoinedSlot(op, a, b, m - 1);
      SlotConserves(op, a.kids[m - 1], b.kids[m - 1]);
      StepsAddUp(op, a, b, m);
    } else {
      NothingYet(op, a, b);
    }
  }

  /** Union and symmetric difference conserve references. */
  lemma GrowingConserves(op: SetOp, a: Trie, b: Trie)
    requires WFRoot(a) && WFRoot(b) && Grows(op)
    ensures Objs(a) + Objs(b) == Objs(RootOp(op, a, b)) + DecsTo(op, a, b, NODE_SZ)
  {
    RootConserves(op, a, b);
    RootForgetsNothing(op, a, b, NODE_SZ);
  }

  lemma {:induction false} RootForgetsNothing(op: SetOp, a: Trie, b: Trie, m: nat)
    requires WFRoot(a) && WFRoot(b) && m <= NODE_SZ && Grows(op)
    ensures LeakTo(op, a, b, m) == multiset{}
  {
    if m > 0 {
      RootForgetsNothing(op, a, b, m - 1);
      GrowingForgetsNothing(op, a.kids[m - 1], b.kids[m - 1]);
    }
  }

  // ---- a new value adds one reference ----

  lemma {:induction false} ObjsUpdate(t: Trie, u: Trie, i: nat, m: nat)
    requires i < m <= |t.kids| == |u.kids| && u.kids == t.kids[i := u.kids[i]]
    ensures ObjsTo(u, m) + SlotObjs(t.kids[i]) == ObjsTo(t, m) + SlotObjs(u.kids[i])
    decreases m
  {
    hide SlotObjs;
    var x, y := SlotObjs(t.kids[i]), SlotObjs(u.kids[i]);
    if i == m - 1 {
      ObjsBefore(t, u, i, i);
      Swap(ObjsTo(t, i), x, y);
    } else {
      ObjsUpdate(t, u, i, m - 1);
      Insert(ObjsTo(u, m - 1), x, ObjsTo(t, m - 1), y, SlotObjs(t.kids[m - 1]));
    }
  }

  lemma Swap(p: multiset<Obj>, x: multiset<Obj>, y: multiset<Obj>)
    ensures p + y + x == p + x + y
  {}

  lemma Insert(q: multiset<Obj>, x: multiset<Obj>, p: multiset<Obj>, y: multiset<Obj>, z: multiset<Obj>)
    requires q + x == p + y
    ensures q + z + x == p + z + y
  {
    assert q + z + x == (q + x) + z && p + z + y == (p + y) + z;
  }

  lemma {:induction false} ObjsBefore(t: Trie, u: Trie, i: nat, m: nat)
    requires m <= i < |t.kids| == |u.kids| && u.kids == t.kids[i := u.kids[i]]
    ensures ObjsTo(u, m) == ObjsTo(t, m)
    decreases m
  {
    if m > 0 {
      ObjsBefore(t, u, i, m - 1);
    }
  }

  lemma EnsuredObjs(t: Trie, k: nat)
    requires WF(t) && k < NODE_SZ
    ensures Objs(Ensured(t, k)) == Objs(t)
  {
    if t.size == 0 {
      SingleObjs(Ensured(t, k));
      NoObjs(EMPTY);
      NoObjs(t);
    } else if t.key != k && t.key != NODE_SZ {
      SingleObjs(t);
      AllBySlot(Grown(t));
      GrownBySlot(t, NODE_SZ);
    }
  }

  lemma {:induction false} PutObjs(t: Trie, id: nat, d: Obj)
    requires WF(t) && Lookup(t, id) == None
    ensures Objs(Put(t, id, d)) == Objs(t) + multiset{d}
    decreases id, 2
  {
    EnsuredRoomy(t, id % NODE_SZ);
    EnsuredLookup(t, id % NODE_SZ, id);
    EnsuredObjs(t, id % NODE_SZ);
    PutAtObjs(Ensured(t, id % NODE_SZ), id, d);
  }

  /** Storing at a new id adds exactly one reference. */
  lemma {:induction false} PutAtObjs(e: Trie, id: nat, d: Obj)
    requires Roomy(e, id % NODE_SZ) && Lookup(e, id) == None
    ensures Objs(PutAt(e, id, d)) == Objs(e) + multiset{d}
    decreases id, 1
  {
    var k := id % NODE_SZ;
    PutSlotObjs(Slot(e, k), id / NODE_SZ, d);
    var u, i := PutAt(e, id, d), Index(e, k);
    ObjsUpdate(e, u, i, |e.kids|);
    Cancel(Objs(u), Objs(e), SlotObjs(e.kids[i]), multiset{d});
  }

  lemma Cancel(u: multiset<Obj>, t: multiset<Obj>, x: multiset<Obj>, y: multiset<Obj>)
    requires u + x == t + (x + y)
    ensures u == t + y
  {
    forall o: Obj ensures u[o] == (t + y)[o] {
      assert (u + x)[o] == (t + (x + y))[o];
    }
  }

  lemma {:induction false} PutSlotObjs(c: Trie, rest: nat, d: Obj)
    requires WF(c) && SlotLookup(c, rest) == None
    ensures SlotObjs(PutSlot(c, rest, d)) == SlotObjs(c) + multiset{d}
    decreases rest, 0
  {
    if rest == 0 {
      ObjsIgnoreData(c, Some(d));
    } else {
      PutObjs(c, rest - 1, d);
    }
  }

  // ---- when intersection and difference conserve references ----

  /** The destination has a child wherever the source stores something, at every pair of
      nodes that the operation visits. */
  ghost predicate Covers(a: Trie, b: Trie)
    decreases b
  {
    forall k :: 0 <= k < NODE_SZ && HasSlot(b, k) && Weight(Slot(b, k)) > 0 ==>
      && HasSlot(a, k)
      && (Slot(a, k).kids != [] && b.kids[Index(b, k)].kids != [] ==>
            Covers(Slot(a, k), b.kids[Index(b, k)]))
  }

  lemma {:induction false} CardIsWeight(c: Trie)
    requires WF(c)
    ensures |SlotObjs(c)| == Weight(c)
    decreases c, |c.kids| + 2
  {
    CardIsSum(c, |c.kids|);
  }

  lemma {:induction false} CardIsSum(t: Trie, m: nat)
    requires m <= |t.kids|
    requires forall i :: 0 <= i < |t.kids| ==> WF(t.kids[i])
    ensures |ObjsTo(t, m)| == SumTo(t.kids, m)
    decreases t, m
  {
    if m > 0 {
      CardIsSum(t, m - 1);
      CardIsWeight(t.kids[m - 1]);
    }
  }

  ghost predicate CoversTo(w: Trie, b: Trie, m: nat) {
    forall k :: 0 <= k < m && HasSlot(b, k) && Weight(Slot(b, k)) > 0 ==>
      && HasSlot(w, k)
      && (Slot(w, k).kids != [] && b.kids[Index(b, k)].kids != [] ==>
            Covers(Slot(w, k), b.kids[Index(b, k)]))
  }

  ghost predicate LeakMatches(op: SetOp, w: Trie, b: Trie, m: nat) {
    LeakTo(op, w, b, m) == multiset{} <==> CoversTo(w, b, m)
  }

  lemma {:induction false} LeakIff(op: SetOp, w: Trie, b: Trie, m: nat)
    requires !Grows(op) && Shape(b) && m <= NODE_SZ
    requires forall i :: 0 <= i < |b.kids| ==> WF(b.kids[i])
    ensures LeakMatches(op, w, b, m)
    decreases b, m
  {
    if m > 0 {
      var k := m - 1;
      LeakIff(op, w, b, k);
      if HasSlot(b, k) {
        var c := b.kids[Index(b, k)];
        if HasSlot(w, k) && Slot(w, k).kids != [] && c.kids != [] {
          LeakIff(op, Slot(w, k), c, NODE_SZ);
        }
        LeakStep(op, w, b, k);
      } else {
        LeakSkip(op, w, b, k);
      }
    } else {
      LeakNone(op, w, b);
    }
  }

  lemma LeakNone(op: SetOp, w: Trie, b: Trie)
    ensures LeakMatches(op, w, b, 0)
  {}

  lemma LeakSkip(op: SetOp, w: Trie, b: Trie, k: nat)
    requires !HasSlot(b, k) && LeakMatches(op, w, b, k)
    ensures LeakMatches(op, w, b, k + 1)
  {
    assert LeakTo(op, w, b, k + 1) == LeakTo(op, w, b, k);
  }

  ghost predicate CoversAt(w: Trie, b: Trie, k: nat) {
    HasSlot(b, k) && Weight(Slot(b, k)) > 0 ==>
      && HasSlot(w, k)
      && (Slot(w, k).kids != [] && b.kids[Index(b, k)].kids != [] ==>
            Covers(Slot(w, k), b.kids[Index(b, k)]))
  }

  lemma LeakStep(op: SetOp, w: Trie, b: Trie, k: nat)
    requires !Grows(op) && HasSlot(b, k) && LeakMatches(op, w, b, k)
    requires WF(Slot(b, k))
    requires HasSlot(w, k) && Slot(w, k).kids != [] && Slot(b, k).kids != [] ==>
               LeakMatches(op, Slot(w, k), Slot(b, k), NODE_SZ)
    ensures LeakMatches(op, w, b, k + 1)
  {
    LeakAtStep(op, w, b, k);
    assert CoversTo(w, b, k + 1) <==> CoversTo(w, b, k) && CoversAt(w, b, k);
    var l, r := LeakTo(op, w, b, k), LeakAt(op, w, b, k);
    assert |l + r| == |l| + |r|;
  }

  lemma LeakAtStep(op: SetOp, w: Trie, b: Trie, k: nat)
    requires !Grows(op) && HasSlot(b, k)
    requires WF(Slot(b, k))
    requires HasSlot(w, k) && Slot(w, k).kids != [] && Slot(b, k).kids != [] ==>
               LeakMatches(op, Slot(w, k), Slot(b, k), NODE_SZ)
    ensures LeakAt(op, w, b, k) == multiset{} <==> CoversAt(w, b, k)
  {
    var c := Slot(b, k);
    CardIsWeight(c);
    if HasSlot(w, k) && Slot(w, k).kids != [] && c.kids != [] {
      WeightOfKids(c);
      assert Covers(Slot(w, k), c) == CoversTo(Slot(w, k), c, NODE_SZ);
      assert SlotLeak(op, Slot(w, k), c) == NodeLeak(op, Slot(w, k), c) == LeakTo(op, Slot(w, k), c, NODE_SZ);
    }
  }

  lemma WeightOfKids(c: Trie)
    requires WF(c) && c.kids != []
    ensures Weight(c) > 0
  {}

  /** Intersection and difference conserve references exactly when the destination covers
      the source. */
  lemma ConservesIffCovers(op: SetOp, a: Trie, b: Trie)
    requires WFRoot(a) && WFRoot(b) && !Grows(op)
    ensures Objs(a) + Objs(b) == Objs(RootOp(op, a, b)) + DecsTo(op, a, b, NODE_SZ) <==> Covers(a, b)
  {
    RootConserves(op, a, b);
    LeakIff(op, a, b, NODE_SZ);
    var r, l := Objs(RootOp(op, a, b)) + DecsTo(op, a, b, NODE_SZ), LeakTo(op, a, b, NODE_SZ);
    assert |r + l| == |r| + |l|;
  }

  /** A node that stores o in slot k. */
  function OneDigit(k: nat, o: Obj): Trie {
    Trie(1, k, None, [Trie(0, 0, Some(o), [])])
  }

  /** A root that stores o at 32 * (k + 1), that is at slot 0 and then slot k. */
  function TwoDigits(k: nat, o: Obj): Trie {
    Trie(1, NODE_SZ, None, Zeros(NODE_SZ)[0 := OneDigit(k, o)])
  }

  lemma OneDigitWF(k: nat, o: Obj)
    requires k < NODE_SZ
    ensures WF(OneDigit(k, o))
  {
    SingleSum(OneDigit(k, o).kids);
    assert WF(OneDigit(k, o).kids[0]);
  }

  lemma TwoDigitsSize(k: nat, o: Obj)
    ensures SumTo(TwoDigits(k, o).kids, |TwoDigits(k, o).kids|) == 1
  {
    GrownSum(TwoDigits(k, o).kids, 0, |TwoDigits(k, o).kids|);
  }

  lemma TwoDigitsWF(k: nat, o: Obj)
    requires k < NODE_SZ
    ensures WFRoot(TwoDigits(k, o))
  {
    var t := TwoDigits(k, o);
    TwoDigitsSize(k, o);
    OneDigitWF(k, o);
    EmptyWF();
    hide WF, SumTo, OneDigit;
    forall i | 0 <= i < |t.kids| ensures WF(t.kids[i]) {
      assert t.kids[i] == if i == 0 then OneDigit(k, o) else EMPTY;
    }
  }

  lemma NotCovered(o: Obj, p: Obj)
    ensures !Covers(TwoDigits(0, o), TwoDigits(1, p))
  {
    var a, b := TwoDigits(0, o), TwoDigits(1, p);
    var k := 1;
    assert HasSlot(OneDigit(1, p), k) && Weight(Slot(OneDigit(1, p), k)) > 0;
    assert !HasSlot(OneDigit(0, o), k);
    assert !Covers(OneDigit(0, o), OneDigit(1, p));
    var z := 0;
    assert HasSlot(b, z) && Slot(b, z) == OneDigit(1, p) && Slot(a, z) == OneDigit(0, o);
  }

  /** They do not always: the intersection of {32} with {64} drops the source's object
      without releasing it. */
  lemma IntersectionForgets(o: Obj, p: Obj)
    ensures var a, b := TwoDigits(0, o), TwoDigits(1, p);
            && WFRoot(a) && WFRoot(b)
            && Objs(a) + Objs(b) != Objs(RootOp(Intersection, a, b)) + DecsTo(Intersection, a, b, NODE_SZ)
  {
    hide WFRoot, TwoDigits, Objs, RootOp, DecsTo, Covers;
    TwoDigitsWF(0, o);
    TwoDigitsWF(1, p);
    NotCovered(o, p);
    ConservesIffCovers(Intersection, TwoDigits(0, o), TwoDigits(1, p));
  }
}
