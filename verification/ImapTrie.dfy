/** The shape of an imap node as a value, and what the shape means.

    A node keeps `size` values below it.  Its children are either absent, one child
    that stands for the slot `key`, or NODE_SZ children of which child s stands for
    slot s (then `key == NODE_SZ`).  An id below a node is read digit by digit: the
    slot is `id % NODE_SZ`; an id that has no digits left belongs to the child itself,
    otherwise the child continues with `id / NODE_SZ - 1`. */
module ImapTrie {
  import opened Common

  const NODE_SZ: nat := 32

  /** The address of a stored object. */
  type Obj = nat

  datatype Trie = Trie(size: nat, key: nat, data: Option<Obj>, kids: seq<Trie>)

  const EMPTY: Trie := Trie(0, 0, None, [])

  /** The number of levels below a node. */
  function Height(t: Trie): nat
    decreases t, |t.kids| + 1
  {
    HeightTo(t, |t.kids|)
  }

  function HeightTo(t: Trie, m: nat): (h: nat)
    requires m <= |t.kids|
    ensures forall i :: 0 <= i < m ==> Height(t.kids[i]) < h
    decreases t, m
  {
    if m == 0 then 0
    else
      var rest, h := HeightTo(t, m - 1), Height(t.kids[m - 1]);
      if h < rest then rest else h + 1
  }

  // ---- counters ----

  function DataCount(t: Trie): nat {
    if t.data.Some? then 1 else 0
  }

  /** What a child adds to the `size` of its parent. */
  function Weight(t: Trie): nat {
    DataCount(t) + t.size
  }

  function SumTo(kids: seq<Trie>, m: nat): nat
    requires m <= |kids|
  {
    if m == 0 then 0 else SumTo(kids, m - 1) + Weight(kids[m - 1])
  }

  predicate Shape(t: Trie) {
    || t.kids == []
    || (|t.kids| == 1 && t.key < NODE_SZ)
    || (|t.kids| == NODE_SZ && t.key == NODE_SZ)
  }

  /** Every counter in the subtree is exact and empty subtrees are pruned. */
  ghost predicate WF(t: Trie) {
    && Shape(t)
    && (t.kids == [] <==> t.size == 0)
    && t.size == SumTo(t.kids, |t.kids|)
    && forall i :: 0 <= i < |t.kids| ==> WF(t.kids[i])
  }

  /** The root has its slots inline, so it keeps all NODE_SZ of them when it is empty. */
  ghost predicate WFRoot(t: Trie) {
    && t.key == NODE_SZ && |t.kids| == NODE_SZ
    && t.data == None
    && t.size == SumTo(t.kids, |t.kids|)
    && forall i :: 0 <= i < NODE_SZ ==> WF(t.kids[i])
  }

  lemma EmptyWF()
    ensures WF(EMPTY)
  {}

  // ---- what a trie stores ----

  /** The slot that child i stands for. */
  function SlotKey(t: Trie, i: nat): nat {
    if t.key == NODE_SZ then i else t.key
  }

  predicate HasSlot(t: Trie, k: nat) {
    if t.key == NODE_SZ then k < |t.kids| else k == t.key && t.kids != []
  }

  /** The index of the child that stands for slot k. */
  function Index(t: Trie, k: nat): nat {
    if t.key == NODE_SZ then k else 0
  }

  function Slot(t: Trie, k: nat): Trie {
    if HasSlot(t, k) then t.kids[Index(t, k)] else EMPTY
  }

  /** The value for id among the values below t. */
  function Lookup(t: Trie, id: nat): Option<Obj>
    decreases t, 0
  {
    if HasSlot(t, id % NODE_SZ) then SlotLookup(t.kids[Index(t, id % NODE_SZ)], id / NODE_SZ) else None
  }

  /** The value a child stores for what is left of an id after its slot is taken off. */
  function SlotLookup(c: Trie, rest: nat): Option<Obj>
    decreases c, 1
  {
    if rest == 0 then c.data else Lookup(c, rest - 1)
  }

  /** The id that reads as slot s first and as x from there on. */
  function Join(x: nat, s: nat): nat {
    (x + 1) * NODE_SZ + s
  }

  /** The ids stored below a child that stands for slot s. */
  ghost function SlotDom(c: Trie, s: nat): set<nat>
    decreases c, |c.kids| + 1
  {
    (if c.data.Some? then {s} else {}) + (set x | x in DomTo(c, |c.kids|) :: Join(x, s))
  }

  ghost function DomTo(t: Trie, m: nat): set<nat>
    requires m <= |t.kids|
    decreases t, m
  {
    if m == 0 then {} else DomTo(t, m - 1) + SlotDom(t.kids[m - 1], SlotKey(t, m - 1))
  }

  ghost function Dom(t: Trie): set<nat> {
    DomTo(t, |t.kids|)
  }

  /** The plain map a trie stands for. */
  ghost function Entries(t: Trie): map<nat, Obj> {
    map id | id in Dom(t) && Lookup(t, id).Some? :: Lookup(t, id).value
  }

  lemma Digits(x: nat, s: nat)
    requires s < NODE_SZ
    ensures Join(x, s) % NODE_SZ == s
    ensures Join(x, s) / NODE_SZ - 1 == x
  {}

  lemma {:induction false} SlotDomIn(c: Trie, s: nat, id: nat)
    requires WF(c) && s < NODE_SZ
    ensures id in SlotDom(c, s) <==>
              id % NODE_SZ == s && SlotLookup(c, id / NODE_SZ).Some?
    decreases c, |c.kids| + 1
  {
    if id / NODE_SZ > 0 {
      var x := id / NODE_SZ - 1;
      assert id == Join(x, id % NODE_SZ);
      DomToIn(c, |c.kids|, x);
    }
    forall x: nat ensures (Join(x, s)) % NODE_SZ == s && (Join(x, s)) / NODE_SZ - 1 == x {
      Digits(x, s);
    }
  }

  lemma {:induction false} DomToIn(t: Trie, m: nat, id: nat)
    requires Shape(t) && m <= |t.kids|
    requires forall i :: 0 <= i < |t.kids| ==> WF(t.kids[i])
    ensures id in DomTo(t, m) <==>
              HasSlot(t, id % NODE_SZ) && Index(t, id % NODE_SZ) < m && Lookup(t, id).Some?
    decreases t, m
  {
    if m > 0 {
      DomToIn(t, m - 1, id);
      SlotDomIn(t.kids[m - 1], SlotKey(t, m - 1), id);
    }
  }

  /** Dom holds exactly the ids that can be looked up. */
  lemma DomIsLookup(t: Trie, id: nat)
    requires WF(t) || WFRoot(t)
    ensures id in Dom(t) <==> Lookup(t, id).Some?
  {
    DomToIn(t, |t.kids|, id);
  }

  /** The plain map agrees with Lookup at every id. */
  lemma EntriesIsLookup(t: Trie, id: nat)
    requires WF(t) || WFRoot(t)
    ensures id in Entries(t) <==> Lookup(t, id).Some?
    ensures id in Entries(t) ==> Lookup(t, id) == Some(Entries(t)[id])
  {
    DomIsLookup(t, id);
  }

  lemma {:induction false} ShiftedCard(d: set<nat>, s: nat)
    ensures |set x | x in d :: Join(x, s)| == |d|
  {
    var f := set x | x in d :: Join(x, s);
    if d == {} {
      assert f == {};
    } else {
      var y :| y in d;
      ShiftedCard(d - {y}, s);
      assert f == (set x | x in d - {y} :: Join(x, s)) + {Join(y, s)};
    }
  }

  lemma {:induction false} SlotDomCard(c: Trie, s: nat)
    requires WF(c) && s < NODE_SZ
    ensures |SlotDom(c, s)| == Weight(c)
    decreases c, |c.kids| + 1
  {
    DomToCard(c, |c.kids|);
    ShiftedCard(Dom(c), s);
    var f := set x | x in Dom(c) :: Join(x, s);
    assert s !in f;
    assert SlotDom(c, s) == (if c.data.Some? then {s} else {}) + f;
  }

  lemma {:induction false} DomToCard(t: Trie, m: nat)
    requires Shape(t) && m <= |t.kids|
    requires forall i :: 0 <= i < |t.kids| ==> WF(t.kids[i])
    ensures |DomTo(t, m)| == SumTo(t.kids, m)
    decreases t, m
  {
    if m > 0 {
      DomToCard(t, m - 1);
      var c, s := t.kids[m - 1], SlotKey(t, m - 1);
      SlotDomCard(c, s);
      forall id | id in DomTo(t, m - 1) && id in SlotDom(c, s) ensures false {
        DomToIn(t, m - 1, id);
        SlotDomIn(c, s, id);
      }
      assert DomTo(t, m - 1) !! SlotDom(c, s);
    }
  }

  /** The hand-kept counter is the number of stored ids. */
  lemma SizeIsCard(t: Trie)
    requires WF(t) || WFRoot(t)
    ensures |Entries(t)| == t.size
  {
    DomToCard(t, |t.kids|);
    forall id ensures id in Dom(t) <==> Lookup(t, id).Some? {
      DomIsLookup(t, id);
    }
    assert Entries(t).Keys == Dom(t);
  }

  /** Two tries that look up the same stand for the same map. */
  lemma SameLookupSameEntries(t: Trie, m: map<nat, Obj>)
    requires WF(t) || WFRoot(t)
    requires forall id: nat :: Lookup(t, id) == if id in m then Some(m[id]) else None
    ensures Entries(t) == m
  {
    forall id: nat ensures id in Entries(t) <==> id in m {
      EntriesIsLookup(t, id);
    }
  }

  // ---- sums over children ----

  lemma {:induction false} SumUpdate(kids: seq<Trie>, i: nat, c: Trie, m: nat)
    requires i < |kids| && m <= |kids|
    ensures SumTo(kids[i := c], m) == SumTo(kids, m) + if i < m then Weight(c) - Weight(kids[i]) else 0
    decreases m
  {
    if m > 0 {
      SumUpdate(kids, i, c, m - 1);
    }
  }

  lemma {:induction false} SumZeros(kids: seq<Trie>, m: nat)
    requires m <= |kids| && forall i :: 0 <= i < m ==> Weight(kids[i]) == 0
    ensures SumTo(kids, m) == 0
  {
    if m > 0 {
      SumZeros(kids, m - 1);
    }
  }

  lemma {:induction false} SumZero(kids: seq<Trie>, m: nat, i: nat)
    requires i < m <= |kids| && SumTo(kids, m) == 0
    ensures Weight(kids[i]) == 0
    decreases m
  {
    if i < m - 1 {
      SumZero(kids, m - 1, i);
    }
  }

  lemma {:induction false} SumAtLeast(kids: seq<Trie>, m: nat, i: nat)
    requires i < m <= |kids|
    ensures Weight(kids[i]) <= SumTo(kids, m)
    decreases m
  {
    if i < m - 1 {
      SumAtLeast(kids, m - 1, i);
    }
  }

  // ---- growing a single child to NODE_SZ slots ----

  /** n zeroed nodes. */
  function Zeros(n: nat): (r: seq<Trie>)
    ensures |r| == n && forall i :: 0 <= i < n ==> r[i] == EMPTY
  {
    seq(n, _ => EMPTY)
  }

  function Grown(t: Trie): Trie
    requires |t.kids| == 1 && t.key < NODE_SZ
  {
    t.(key := NODE_SZ, kids := Zeros(NODE_SZ)[t.key := t.kids[0]])
  }

  lemma {:induction false} GrownSum(kids: seq<Trie>, key: nat, m: nat)
    requires m <= |kids| && key < |kids|
    requires forall i :: 0 <= i < |kids| && i != key ==> Weight(kids[i]) == 0
    ensures SumTo(kids, m) == if key < m then Weight(kids[key]) else 0
  {
    if m > 0 {
      GrownSum(kids, key, m - 1);
    }
  }

  lemma GrownLookup(t: Trie, id: nat)
    requires WF(t) && |t.kids| == 1
    ensures Lookup(Grown(t), id) == Lookup(t, id)
  {
    var k := id % NODE_SZ;
    if k == t.key {
      assert Grown(t).kids[k] == t.kids[0];
    } else {
      assert Grown(t).kids[k] == EMPTY;
    }
  }

  lemma SingleSum(kids: seq<Trie>)
    requires |kids| == 1
    ensures SumTo(kids, |kids|) == Weight(kids[0])
  {
    var m := |kids|;
    assert SumTo(kids, m) == SumTo(kids, m - 1) + Weight(kids[m - 1]);
  }

  lemma GrownSize(t: Trie)
    requires WF(t) && |t.kids| == 1
    ensures SumTo(Grown(t).kids, |Grown(t).kids|) == t.size
  {
    SingleSum(t.kids);
    GrownSum(Grown(t).kids, t.key, |Grown(t).kids|);
  }

  lemma GrownKids(t: Trie)
    requires WF(t) && |t.kids| == 1
    ensures forall i :: 0 <= i < |Grown(t).kids| ==> WF(Grown(t).kids[i])
  {
    forall i | 0 <= i < |Grown(t).kids| ensures WF(Grown(t).kids[i]) {
      assert Grown(t).kids[i] == if i == t.key then t.kids[0] else EMPTY;
    }
  }

  // ---- set, add and pop ----

  /** The node after making room for slot k. */
  function Ensured(t: Trie, k: nat): Trie
    requires Shape(t) && k < NODE_SZ
    requires t.kids == [] <==> t.size == 0
  {
    if t.size == 0 then t.(key := k, kids := [EMPTY])
    else if t.key != k && t.key != NODE_SZ then Grown(t)
    else t
  }

  /** A node with room for slot k: like WF, but an emptied child may still be there. */
  ghost predicate Roomy(t: Trie, k: nat) {
    && Shape(t) && HasSlot(t, k) && Index(t, k) < |t.kids|
    && t.size == SumTo(t.kids, |t.kids|)
    && forall i :: 0 <= i < |t.kids| ==> WF(t.kids[i])
  }

  lemma FreshRoomy(t: Trie, k: nat)
    requires WF(t) && k < NODE_SZ && t.size == 0
    ensures Roomy(Ensured(t, k), k)
  {
    SingleSum(Ensured(t, k).kids);
  }

  lemma GrownRoomy(t: Trie, k: nat)
    requires WF(t) && k < NODE_SZ && t.size != 0 && t.key != k && t.key != NODE_SZ
    ensures Roomy(Ensured(t, k), k)
  {
    GrownSize(t);
    GrownKids(t);
  }

  lemma EnsuredRoomy(t: Trie, k: nat)
    requires WF(t) && k < NODE_SZ
    ensures Roomy(Ensured(t, k), k)
  {
    if t.size == 0 {
      FreshRoomy(t, k);
    } else if t.key != k && t.key != NODE_SZ {
      GrownRoomy(t, k);
    }
  }

  lemma EnsuredLookup(t: Trie, k: nat, id: nat)
    requires WF(t) && k < NODE_SZ
    ensures Lookup(Ensured(t, k), id) == Lookup(t, id)
  {
    if t.size != 0 && t.key != k && t.key != NODE_SZ {
      GrownLookup(t, id);
    }
  }

  /** The path to a stored id is there already. */
  lemma StoredHasRoom(t: Trie, id: nat)
    requires WF(t) && Lookup(t, id).Some?
    ensures Ensured(t, id % NODE_SZ) == t
  {}

  /** t with the child for slot k replaced and a new counter. */
  function Replaced(t: Trie, k: nat, c: Trie, size: nat): Trie
    requires HasSlot(t, k)
  {
    t.(kids := t.kids[Index(t, k) := c], size := size)
  }

  lemma ReplacedLookup(t: Trie, k: nat, c: Trie, size: nat, j: nat)
    requires Shape(t) && HasSlot(t, k)
    ensures Lookup(Replaced(t, k, c, size), j) ==
            if j % NODE_SZ != k then Lookup(t, j)
            else SlotLookup(c, j / NODE_SZ)
  {}

  lemma ReplacedWF(t: Trie, k: nat, c: Trie, size: nat)
    requires Roomy(t, k) && WF(c) && size > 0
    requires size == t.size + Weight(c) - Weight(Slot(t, k))
    ensures WF(Replaced(t, k, c, size))
  {
    SumUpdate(t.kids, Index(t, k), c, |t.kids|);
  }

  lemma SlotAtMost(t: Trie, k: nat)
    requires Roomy(t, k)
    ensures Weight(Slot(t, k)) <= t.size
  {
    SumAtLeast(t.kids, |t.kids|, Index(t, k));
  }

  /** Stores d at id below t, as IMAP_set does and IMAP_add does for an absent id. */
  ghost function Put(t: Trie, id: nat, d: Obj): Trie
    requires WF(t)
    ensures Put(t, id, d).data == t.data
    decreases id, 2
  {
    EnsuredRoomy(t, id % NODE_SZ);
    PutAt(Ensured(t, id % NODE_SZ), id, d)
  }

  /** The same once there is room for the slot. */
  ghost function PutAt(e: Trie, id: nat, d: Obj): Trie
    requires Roomy(e, id % NODE_SZ)
    ensures PutAt(e, id, d).data == e.data
    decreases id, 1
  {
    var k := id % NODE_SZ;
    Replaced(e, k, PutSlot(Slot(e, k), id / NODE_SZ, d),
             e.size + if Lookup(e, id) == None then 1 else 0)
  }

  /** The same for a child and what is left of the id. */
  ghost function PutSlot(c: Trie, rest: nat, d: Obj): Trie
    requires WF(c)
    decreases rest, 0
  {
    if rest == 0 then c.(data := Some(d)) else Put(c, rest - 1, d)
  }

  /** The value at a node is not one of the values below it. */
  lemma DataIrrelevant(t: Trie, d: Option<Obj>, id: nat)
    ensures Lookup(t.(data := d), id) == Lookup(t, id)
    ensures WF(t.(data := d)) == WF(t)
  {
  }

  lemma {:induction false} PutLookup(t: Trie, id: nat, d: Obj, j: nat)
    requires WF(t)
    ensures Lookup(Put(t, id, d), j) == if j == id then Some(d) else Lookup(t, j)
    decreases id, 2
  {
    EnsuredRoomy(t, id % NODE_SZ);
    EnsuredLookup(t, id % NODE_SZ, j);
    PutAtLookup(Ensured(t, id % NODE_SZ), id, d, j);
  }

  lemma {:induction false} PutAtLookup(e: Trie, id: nat, d: Obj, j: nat)
    requires Roomy(e, id % NODE_SZ)
    ensures Lookup(PutAt(e, id, d), j) == if j == id then Some(d) else Lookup(e, j)
    decreases id, 1
  {
    var k := id % NODE_SZ;
    ReplacedLookup(e, k, PutSlot(Slot(e, k), id / NODE_SZ, d), PutAt(e, id, d).size, j);
    if j % NODE_SZ == k {
      PutSlotLookup(Slot(e, k), id / NODE_SZ, d, j / NODE_SZ);
    }
  }

  lemma {:induction false} PutSlotLookup(c: Trie, rest: nat, d: Obj, j: nat)
    requires WF(c)
    ensures SlotLookup(PutSlot(c, rest, d), j) == if j == rest then Some(d) else SlotLookup(c, j)
    decreases rest, 0
  {
    if rest == 0 {
      if j > 0 {
        DataIrrelevant(c, Some(d), j - 1);
      }
    } else if j > 0 {
      PutLookup(c, rest - 1, d, j - 1);
    }
  }

  lemma {:induction false} PutWF(t: Trie, id: nat, d: Obj)
    requires WF(t)
    ensures WF(Put(t, id, d))
    ensures Put(t, id, d).size == t.size + if Lookup(t, id) == None then 1 else 0
    decreases id, 2
  {
    EnsuredRoomy(t, id % NODE_SZ);
    EnsuredLookup(t, id % NODE_SZ, id);
    PutAtWF(Ensured(t, id % NODE_SZ), id, d);
  }

  lemma {:induction false} PutAtWF(e: Trie, id: nat, d: Obj)
    requires Roomy(e, id % NODE_SZ)
    ensures WF(PutAt(e, id, d))
    decreases id, 1
  {
    var k := id % NODE_SZ;
    PutSlotWF(Slot(e, k), id / NODE_SZ, d);
    SlotAtMost(e, k);
    ReplacedWF(e, k, PutSlot(Slot(e, k), id / NODE_SZ, d), PutAt(e, id, d).size);
  }

  lemma {:induction false} PutSlotWF(c: Trie, rest: nat, d: Obj)
    requires WF(c)
    ensures WF(PutSlot(c, rest, d))
    ensures Weight(PutSlot(c, rest, d)) ==
            Weight(c) + if SlotLookup(c, rest) == None then 1 else 0
    ensures Weight(PutSlot(c, rest, d)) > 0
    decreases rest, 0
  {
    if rest == 0 {
      DataIrrelevant(c, Some(d), 0);
    } else {
      PutWF(c, rest - 1, d);
    }
  }

  /** Removes id from below t, as IMAP_pop does: a node that loses its last value loses its children. */
  ghost function Del(t: Trie, id: nat): Trie
    decreases id, 1
  {
    if Lookup(t, id) == None then t
    else if t.size <= 1 then t.(size := 0, kids := [])
    else
      var k := id % NODE_SZ;
      Replaced(t, k, DelSlot(Slot(t, k), id / NODE_SZ), t.size - 1)
  }

  ghost function DelSlot(c: Trie, rest: nat): Trie
    decreases rest, 0
  {
    if rest == 0 then c.(data := None) else Del(c, rest - 1)
  }

  lemma LastOne(t: Trie, id: nat, j: nat)
    requires WF(t) && t.size == 1 && Lookup(t, id).Some? && j != id
    ensures Lookup(t, j) == None
  {
    SizeIsCard(t);
    EntriesIsLookup(t, id);
    EntriesIsLookup(t, j);
    if j in Entries(t) {
      assert |{id, j}| == 2;
      SubsetCard({id, j}, Entries(t).Keys);
    }
  }

  lemma {:induction false} SubsetCard(a: set<nat>, b: set<nat>)
    requires a <= b
    ensures |a| <= |b|
  {
    if a != {} {
      var x :| x in a;
      SubsetCard(a - {x}, b - {x});
    }
  }

  lemma {:induction false} DelLookup(t: Trie, id: nat, j: nat)
    requires WF(t)
    ensures Lookup(Del(t, id), j) == if j == id then None else Lookup(t, j)
    decreases id, 1
  {
    if Lookup(t, id).Some? {
      LookupSize(t, id);
      if t.size == 1 {
        if j != id {
          LastOne(t, id, j);
        }
      } else {
        var k := id % NODE_SZ;
        ReplacedLookup(t, k, DelSlot(Slot(t, k), id / NODE_SZ), t.size - 1, j);
        if j % NODE_SZ == k {
          DelSlotLookup(Slot(t, k), id / NODE_SZ, j / NODE_SZ);
        }
      }
    }
  }

  lemma {:induction false} DelSlotLookup(c: Trie, rest: nat, j: nat)
    requires WF(c)
    ensures SlotLookup(DelSlot(c, rest), j) == if j == rest then None else SlotLookup(c, j)
    decreases rest, 0
  {
    if rest == 0 {
      if j > 0 {
        DataIrrelevant(c, None, j - 1);
      }
    } else if j > 0 {
      DelLookup(c, rest - 1, j - 1);
    }
  }

  lemma LookupSize(t: Trie, id: nat)
    requires WF(t) && Lookup(t, id).Some?
    ensures t.size > 0
  {
  }

  lemma {:induction false} DelWF(t: Trie, id: nat)
    requires WF(t)
    ensures WF(Del(t, id))
    ensures Del(t, id).size == t.size - if Lookup(t, id) == None then 0 else 1
    decreases id, 1
  {
    if Lookup(t, id).Some? {
      LookupSize(t, id);
      if t.size > 1 {
        var k := id % NODE_SZ;
        DelSlotWF(Slot(t, k), id / NODE_SZ);
        ReplacedWF(t, k, DelSlot(Slot(t, k), id / NODE_SZ), t.size - 1);
      }
    }
  }

  lemma {:induction false} DelSlotWF(c: Trie, rest: nat)
    requires WF(c)
    ensures WF(DelSlot(c, rest))
    ensures Weight(DelSlot(c, rest)) ==
            Weight(c) - if SlotLookup(c, rest) == None then 0 else 1
    decreases rest, 0
  {
    if rest == 0 {
      DataIrrelevant(c, None, 0);
    } else {
      DelWF(c, rest - 1);
    }
  }
}
