/** imap nodes in the heap: each method keeps the node's value equal to the function of
    ImapTrie or ImapOps that specifies it. */
module ImapNode {
  import opened Common
  import opened ImapTrie

  /** An array of nodes with values ts, whose footprints lie in R and do not overlap. */
  ghost predicate Row(a: array<Node>, ts: seq<Trie>, R: set<object>)
    reads a, R
    decreases R, 1
  {
    && a.Length == |ts|
    && (forall i :: 0 <= i < a.Length ==>
          a[i] in R && a[i].Repr <= R && a[i].Valid() && a[i].tree == ts[i])
    && (forall i, j :: 0 <= i < j < a.Length ==> a[i].Repr !! a[j].Repr)
  }

  class Node {
    var size: nat
    var key: nat
    var data: Option<Obj>
    var nodes: array?<Node>

    ghost var Repr: set<object>
    ghost var tree: Trie  // the value this node stands for

    ghost predicate Valid()
      reads this, Repr
      ensures Valid() ==> this in Repr
      decreases Repr, 0
    {
      && this in Repr
      && size == tree.size && key == tree.key && data == tree.data
      && (nodes == null ==> tree.kids == [])
      && (nodes != null ==> nodes in Repr && tree.kids != [] && Row(nodes, tree.kids, Repr - {this, nodes}))
    }

    constructor Zero()
      ensures Valid() && Repr == {this} && tree == EMPTY
    {
      size, key, data, nodes := 0, 0, None, null;
      Repr, tree := {this}, EMPTY;
    }

    /** n zeroed nodes. */
    static method Calloc(n: nat) returns (a: array<Node>)
      requires n > 0
      ensures fresh(a) && a.Length == n
      ensures forall i :: 0 <= i < n ==> a[i].Valid() && a[i].tree == EMPTY && a[i].Repr == {a[i]} && fresh(a[i])
      ensures forall i, j :: 0 <= i < j < n ==> a[i] != a[j]
    {
      var z := new Node.Zero();
      a := new Node[n](_ => z);
      for m := 1 to n
        invariant fresh(a)
        invariant forall i :: 0 <= i < m ==> a[i].Valid() && a[i].tree == EMPTY && a[i].Repr == {a[i]} && fresh(a[i])
        invariant forall i, j :: 0 <= i < j < m ==> a[i] != a[j]
      {
        var c := new Node.Zero();
        a[m] := c;
      }
    }

    /** A single child becomes one of NODE_SZ children. */
    method Grow()
      requires Valid() && |tree.kids| == 1 && key < NODE_SZ
      modifies this
      ensures Valid() && fresh(Repr - old(Repr))
      ensures tree == Grown(old(tree))
    {
      hide WF, SumTo;
      var tmp := Calloc(NODE_SZ);
      ghost var zeros := set i | 0 <= i < NODE_SZ :: tmp[i];
      tmp[key] := nodes[0];
      tree := Grown(tree);
      Repr := Repr + {tmp} + zeros;
      nodes := tmp;
      key := NODE_SZ;
    }

    /** The start of IMAP_set and IMAP_add: a first child, or NODE_SZ of them when the
        single child stands for another slot. */
    method MakeRoom(k: nat)
      requires Valid() && WF(tree) && k < NODE_SZ
      modifies this
      ensures Valid() && fresh(Repr - old(Repr))
      ensures tree == Ensured(old(tree), k)
    {
      if size == 0 {
        nodes := Calloc(1);
        key := k;
        tree := Ensured(tree, k);
        Repr := Repr + {nodes, nodes[0]};
      } else if key != k && key != NODE_SZ {
        Grow();
      }
    }

    /** Work inside child i leaves its siblings alone. */
    twostate lemma Siblings(i: nat)
      requires old(Valid()) && old(nodes) != null && nodes == old(nodes) && i < nodes.Length
      requires unchanged(old(Repr) - {this} - old(nodes[i].Repr))
      ensures unchanged(nodes)
      ensures forall j :: 0 <= j < nodes.Length && j != i ==>
                && nodes[j].Valid() && nodes[j].tree == old(nodes[j].tree) && nodes[j].Repr == old(nodes[j].Repr)
    {
    }

    /** After work inside child i, this node is valid again once its own fields follow. */
    twostate lemma Rejoined(i: nat)
      requires old(Valid()) && old(nodes) != null && nodes == old(nodes) && i < nodes.Length
      requires unchanged(old(Repr) - {this} - old(nodes[i].Repr))
      requires nodes[i] == old(nodes[i]) && nodes[i].Valid() && fresh(nodes[i].Repr - old(nodes[i].Repr))
      requires Repr == old(Repr) + nodes[i].Repr
      requires size == tree.size && key == tree.key && data == tree.data
      requires i < |old(tree.kids)| && tree.kids == old(tree.kids)[i := nodes[i].tree]
      ensures Valid()
    {
      Siblings(i);
      forall j | 0 <= j < nodes.Length && j != i ensures nodes[j].Repr !! nodes[i].Repr {
        assert old(nodes[j].Repr) !! old(nodes[i].Repr);
      }
    }

    /** IMAP_set: 1 for a new id, 0 when a value is overwritten. */
    method Set(id: nat, d: Obj) returns (rc: int)
      requires Valid() && WF(tree)
      modifies Repr
      ensures Valid() && fresh(Repr - old(Repr))
      ensures tree == Put(old(tree), id, d)
      ensures rc == if Lookup(old(tree), id) == None then 1 else 0
      decreases id, 2
    {
      EnsuredRoomy(tree, id % NODE_SZ);
      EnsuredLookup(tree, id % NODE_SZ, id);
      MakeRoom(id % NODE_SZ);
      rc := SetBelow(id, d);
    }

    method SetBelow(id: nat, d: Obj) returns (rc: int)
      requires Valid() && Roomy(tree, id % NODE_SZ)
      modifies Repr
      ensures Valid() && fresh(Repr - old(Repr))
      ensures tree == PutAt(old(tree), id, d)
      ensures rc == if Lookup(old(tree), id) == None then 1 else 0
      decreases id, 1
    {
      hide WF, SumTo, Put, PutSlot, SlotLookup;
      ghost var i := Index(tree, id % NODE_SZ);
      var nd := nodes[if key == NODE_SZ then id % NODE_SZ else 0];
      assert nd.tree == Slot(tree, id % NODE_SZ);
      rc := nd.SetSlot(id / NODE_SZ, d);
      size := size + rc;
      Repr := Repr + nd.Repr;
      tree := PutAt(tree, id, d);
      Rejoined(i);
    }

    method SetSlot(rest: nat, d: Obj) returns (rc: int)
      requires Valid() && WF(tree)
      modifies Repr
      ensures Valid() && fresh(Repr - old(Repr))
      ensures tree == PutSlot(old(tree), rest, d)
      ensures rc == if SlotLookup(old(tree), rest) == None then 1 else 0
      decreases rest, 0
    {
      hide WF, SumTo;
      if rest == 0 {
        rc := if data == None then 1 else 0;
        data := Some(d);
        tree := tree.(data := Some(d));
      } else {
        rc := Set(rest - 1, d);
      }
    }

    /** IMAP_add: 0 when the value is added, -2 when the id exists already. */
    method Add(id: nat, d: Obj) returns (rc: int)
      requires Valid() && WF(tree)
      modifies Repr
      ensures Valid() && fresh(Repr - old(Repr))
      ensures rc == if Lookup(old(tree), id) == None then 0 else -2
      ensures tree == if rc == 0 then Put(old(tree), id, d) else old(tree)
      decreases id, 2
    {
      EnsuredRoomy(tree, id % NODE_SZ);
      EnsuredLookup(tree, id % NODE_SZ, id);
      if Lookup(tree, id).Some? {
        StoredHasRoom(tree, id);
      }
      MakeRoom(id % NODE_SZ);
      rc := AddBelow(id, d);
    }

    method AddBelow(id: nat, d: Obj) returns (rc: int)
      requires Valid() && Roomy(tree, id % NODE_SZ)
      modifies Repr
      ensures Valid() && fresh(Repr - old(Repr))
      ensures rc == if Lookup(old(tree), id) == None then 0 else -2
      ensures tree == if rc == 0 then PutAt(old(tree), id, d) else old(tree)
      decreases id, 1
    {
      hide WF, SumTo, Put, PutSlot, SlotLookup;
      ghost var i := Index(tree, id % NODE_SZ);
      var nd := nodes[if key == NODE_SZ then id % NODE_SZ else 0];
      assert nd.tree == Slot(tree, id % NODE_SZ);
      rc := nd.AddSlot(id / NODE_SZ, d);
      Repr := Repr + nd.Repr;
      if rc == 0 {
        size := size + 1;
        tree := PutAt(tree, id, d);
      }
      Rejoined(i);
    }

    method AddSlot(rest: nat, d: Obj) returns (rc: int)
      requires Valid() && WF(tree)
      modifies Repr
      ensures Valid() && fresh(Repr - old(Repr))
      ensures rc == if SlotLookup(old(tree), rest) == None then 0 else -2
      ensures tree == if rc == 0 then PutSlot(old(tree), rest, d) else old(tree)
      decreases rest, 0
    {
      hide WF, SumTo;
      if rest == 0 {
        if data.Some? {
          return -2;
        }
        data := Some(d);
        tree := tree.(data := Some(d));
        rc := 0;
      } else {
        rc := Add(rest - 1, d);
      }
    }

    /** IMAP_pop, called on a node that has children. */
    method Pop(id: nat) returns (d: Option<Obj>)
      requires Valid() && WF(tree) && nodes != null
      modifies Repr
      ensures Valid() && fresh(Repr - old(Repr))
      ensures d == Lookup(old(tree), id)
      ensures tree == Del(old(tree), id)
      decreases id, 1
    {
      hide SumTo, DelSlot, SlotLookup;
      var k := id % NODE_SZ;
      if key != NODE_SZ && key != k {
        return None;
      }
      ghost var i := Index(tree, k);
      var nd := nodes[if key == NODE_SZ then k else 0];
      assert nd.tree == Slot(tree, k) && WF(nd.tree);
      hide WF;
      d := nd.PopSlot(id / NODE_SZ);
      Repr := Repr + nd.Repr;
      if d.Some? {
        size := size - 1;
        if size == 0 {
          nodes := null;
          tree := Del(tree, id);
        } else {
          tree := Del(tree, id);
          Rejoined(i);
        }
      } else {
        Rejoined(i);
      }
    }

    method PopSlot(rest: nat) returns (d: Option<Obj>)
      requires Valid() && WF(tree)
      modifies Repr
      ensures Valid() && fresh(Repr - old(Repr))
      ensures d == SlotLookup(old(tree), rest)
      ensures tree == if d.Some? then DelSlot(old(tree), rest) else old(tree)
      decreases rest, 0
    {
      hide WF, SumTo;
      if rest == 0 {
        d := data;
        if d.Some? {
          data := None;
          tree := tree.(data := None);
        }
      } else if nodes == null {
        d := None;
      } else {
        d := Pop(rest - 1);
      }
    }
  }
}
