/** Compact tree nodes in the heap: each method keeps the node's value equal to the function of
    CtreeTrie or CtreeOps that specifies it. */
module CtreeNode {
  import opened Common
  import opened CtreeTrie
  import opened CtreeOps

  const CT_OK := 0
  const CT_EXISTS := 1

  /** An entry of the table with value t, whose footprint lies in R. */
  ghost predicate Held(c: CNode?, t: Tree, R: set<object>)
    reads R
    decreases R, 1
  {
    if c == null then t == Nil
    else c in R && c.Repr <= R && c.Valid() && c.tree == t && c.size == c.tree.size
  }

  ghost predicate Apart(c: CNode?, d: CNode?)
    reads c, d
  {
    c != null && d != null ==> c.Repr !! d.Repr
  }

  /** A table of children with values ts, whose footprints lie in R and do not overlap. */
  ghost predicate Row(a: array<CNode?>, ts: seq<Tree>, R: set<object>)
    reads a, R
    decreases R, 2
  {
    && a.Length == |ts|
    && (forall i :: 0 <= i < a.Length ==> Held(a[i], ts[i], R))
    && (forall i, j :: 0 <= i < j < a.Length ==> a[i] in R && a[j] in R ==> Apart(a[i], a[j]))
  }

  class CNode {
    var key: Bytes
    var data: Option<Obj>
    var size: nat
    var offset: nat
    var n: nat  // the number of blocks in the table
    var nodes: array?<CNode?>

    ghost var Repr: set<object>
    ghost var tree: Tree  // the value this node stands for

    /** All but the counter, which the root does not keep. */
    ghost predicate Valid()
      reads this, Repr
      ensures Valid() ==> this in Repr && tree.Node? && key == tree.key && data == tree.data
      ensures Valid() ==> (nodes == null <==> tree.kids == [])
      decreases Repr, 0
    {
      && this in Repr
      && tree.Node? && key == tree.key && data == tree.data
      && (nodes == null ==> tree.kids == [])
      && (nodes != null ==>
            && nodes in Repr && tree.kids != [] && offset == tree.offset && n * BLOCKSZ == |tree.kids|
            && Row(nodes, tree.kids, Repr - {this, nodes}))
    }

    /** CT_node_new */
    constructor (key: Bytes, d: Option<Obj>)
      ensures Valid() && Repr == {this} && tree == Node(key, d, 0, 0, []) && size == 0
      ensures nodes == null && offset == 255 && n == 0
    {
      this.key, data, size, offset, n, nodes := key, d, 0, 255, 0, null;
      Repr, tree := {this}, Node(key, d, 0, 0, []);
    }

    ghost predicate Sized()
      reads this
    {
      tree.Node? && size == tree.size
    }

    /** realloc, memmove and memset: the table a with `before` and `after` empty blocks around it. */
    static method Wider(a: array<CNode?>, before: nat, after: nat) returns (b: array<CNode?>)
      ensures fresh(b) && Moved(a, b, before, after)
    {
      b := new CNode?[before * BLOCKSZ + a.Length + after * BLOCKSZ](_ => null);
      forall i | 0 <= i < a.Length {
        b[before * BLOCKSZ + i] := a[i];
      }
    }

    /** CT_node_resize */
    method Resize(pos: nat)
      requires Valid() && Table(tree)
      modifies this
      ensures Valid() && fresh(Repr - old(Repr)) && nodes != null
      ensures tree == Resized(old(tree), pos) && size == old(size)
    {
      hide Row, Table;
      ghost var was := nodes;
      if nodes == null {
        nodes := new CNode?[BLOCKSZ](_ => null);
        offset, n := pos, 1;
        tree := Resized(tree, pos);
        EmptyRow(nodes, tree.kids, Repr - {this});
      } else if pos < offset {
        var diff := offset - pos;
        nodes := Wider(nodes, diff, 0);
        n, offset := n + diff, pos;
        MovedRow(was, nodes, diff, 0, tree.kids, Repr - {this, was}, Repr - {this});
        assert Nils(diff * BLOCKSZ) + tree.kids + Nils(0) == Nils(diff * BLOCKSZ) + tree.kids;
        tree := Resized(tree, pos);
      } else if pos >= offset + n {
        var diff := pos - offset - n + 1;
        nodes := Wider(nodes, 0, diff);
        n := n + diff;
        MovedRow(was, nodes, 0, diff, tree.kids, Repr - {this, was}, Repr - {this});
        assert Nils(0) + tree.kids + Nils(diff * BLOCKSZ) == tree.kids + Nils(diff * BLOCKSZ);
        tree := Resized(tree, pos);
      } else {
        return;
      }
      assert Repr - {this} == Repr + {nodes} - {this, nodes};
      Repr := Repr + {nodes};
    }

    /** What is known of the entry for byte k. */
    lemma Entry(k: nat)
      requires Valid() && Covers(tree, k)
      ensures nodes != null && k - offset * BLOCKSZ < nodes.Length == |tree.kids| && nodes in Repr
      ensures var c := nodes[k - offset * BLOCKSZ];
              && (c == null <==> Child(tree, k) == Nil)
              && (c != null ==>
                    && c in Repr && c.Repr <= Repr - {this, nodes} && c.Valid() && c.Sized()
                    && c.tree == Child(tree, k))
    {
      assert Row(nodes, tree.kids, Repr - {this, nodes});
      assert Held(nodes[k - offset * BLOCKSZ], Child(tree, k), Repr - {this, nodes});
    }

    /** After work inside entry i this node is valid again once its own fields follow. */
    twostate lemma Rejoined(i: nat)
      requires old(Valid()) && old(nodes) != null && nodes == old(nodes) && i < nodes.Length
      requires unchanged(old(Repr) - {this, nodes} - old(Foot(nodes[i])))
      requires forall j :: 0 <= j < nodes.Length && j != i ==> nodes[j] == old(nodes[j])
      requires old(Repr) <= Repr && Held(nodes[i], if nodes[i] == null then Nil else nodes[i].tree, Repr - {this, nodes})
      requires Foot(nodes[i]) !! old(Repr) - old(Foot(nodes[i]))
      requires tree.Node? && key == tree.key && data == tree.data && offset == tree.offset && n == old(n)
      requires old(tree.offset) == tree.offset && |old(tree.kids)| == nodes.Length
      requires tree.kids == old(tree.kids)[i := if nodes[i] == null then Nil else nodes[i].tree]
      ensures Valid()
    {
      Siblings(i);
      forall a, b | 0 <= a < b < nodes.Length && nodes[a] != null && nodes[b] != null
        ensures Apart(nodes[a], nodes[b])
      {
        assert old(Apart(nodes[a], nodes[b]));
      }
    }

    /** Work inside entry i leaves the other entries alone. */
    twostate lemma Siblings(i: nat)
      requires old(Valid()) && old(nodes) != null && nodes == old(nodes) && i < nodes.Length
      requires unchanged(old(Repr) - {this, nodes} - old(Foot(nodes[i])))
      requires forall j :: 0 <= j < nodes.Length && j != i ==> nodes[j] == old(nodes[j])
      requires old(Repr) <= Repr && |old(tree.kids)| == nodes.Length
      ensures forall j :: 0 <= j < nodes.Length && j != i ==>
                && Held(nodes[j], old(tree.kids)[j], Repr - {this, nodes})
                && Foot(nodes[j]) == old(Foot(nodes[j])) && Foot(nodes[j]) <= old(Repr) - old(Foot(nodes[i]))
    {
      forall j | 0 <= j < nodes.Length && j != i
        ensures && Held(nodes[j], old(tree.kids)[j], Repr - {this, nodes})
                && Foot(nodes[j]) == old(Foot(nodes[j])) && Foot(nodes[j]) <= old(Repr) - old(Foot(nodes[i]))
      {
        assert old(Held(nodes[j], tree.kids[j], Repr - {this, nodes}));
        assert old(Held(nodes[i], tree.kids[i], Repr - {this, nodes}));
        assert old(Apart(nodes[i], nodes[j]) || Apart(nodes[j], nodes[i]));
      }
    }

    /** A new child for byte k. */
    method Attach(k: nat, c: CNode)
      requires Valid() && Covers(tree, k) && Child(tree, k) == Nil
      requires c.Valid() && c.Sized() && c.Repr !! Repr
      modifies this, nodes
      ensures Valid() && Repr == old(Repr) + c.Repr && size == old(size)
      ensures nodes == old(nodes)
      ensures tree == WithChild(old(tree), k, c.tree, old(tree.size) + 1) && tree.size == old(tree.size) + 1
    {
      ghost var i := k - offset * BLOCKSZ;
      nodes[k - offset * BLOCKSZ] := c;
      Repr := Repr + c.Repr;
      tree := WithChild(tree, k, c.tree, tree.size + 1);
      Rejoined(i);
    }

    /** CT_add from the first differing byte on, and CT_add and ct_add below a matched key.
        `grown` when the table has got one more child. */
    method AddBelow(s: Bytes, d: Obj) returns (rc: int, grown: bool)
      requires Valid() && Sound(tree) && NulFree(s) && s != []
      modifies Repr
      ensures Valid() && fresh(Repr - old(Repr)) && size == old(size) && nodes != null
      ensures tree == PutBelow(old(tree), s, d)
      ensures tree.size == old(tree.size) + if grown then 1 else 0
      ensures rc == if Below(old(tree), s).Some? then CT_EXISTS else CT_OK
      decreases |s|, 0
    {
      hide Sound, Table, WF, Resized, WithChild, Put;
      ghost var t := tree;
      ChildMeans(t, s[0]);
      Resize(s[0] / BLOCKSZ);
      ResizedMeans(t, s[0]);
      Entry(s[0]);
      var i := s[0] - offset * BLOCKSZ;
      if nodes[i] != null {
        rc := AddInside(s, d);
        grown := false;
      } else {
        var c := new CNode(s[1..], Some(d));
        Attach(s[0], c);
        rc, grown := CT_OK, true;
      }
    }

    method AddInside(s: Bytes, d: Obj) returns (rc: int)
      requires Valid() && Sound(tree) && NulFree(s) && s != [] && Child(tree, s[0]).Node? && Covers(tree, s[0])
      modifies Repr
      ensures Valid() && fresh(Repr - old(Repr)) && size == old(size)
      ensures tree == PutBelow(old(tree), s, d) && tree.size == old(tree.size) && nodes == old(nodes)
      ensures rc == if Below(old(tree), s).Some? then CT_EXISTS else CT_OK
      decreases |s|, 0, 0
    {
      hide Sound, Table, WF, Resized, Put, Lookup;
      ChildMeans(tree, s[0]);
      Entry(s[0]);
      var c := nodes[s[0] - offset * BLOCKSZ];
      rc := c.Add(s[1..], d);
      tree := PutBelow(tree, s, d);
      Repr := Repr + c.Repr;
      Rejoined(s[0] - offset * BLOCKSZ);
    }

    /** The table of another node becomes the table of this one. */
    method Bind(c: CNode)
      requires c.Valid() && this !in c.Repr
      modifies this
      ensures Valid() && nodes == c.nodes && size == c.size
      ensures key == old(key) && data == old(data) && Repr == c.Repr - {c} + {this}
      ensures tree == Node(key, data, c.tree.size, c.tree.offset, c.tree.kids)
    {
      hide Row;
      nodes, size, offset, n := c.nodes, c.size, c.offset, c.n;
      tree := Node(key, data, c.tree.size, c.tree.offset, c.tree.kids);
      Repr := c.Repr - {c} + {this};
      assert c.Repr - {c, c.nodes} == Repr - {this, nodes};
    }

    /** Cut in two behind the first m bytes of the key; the upper part has no value. */
    method SplitAt(m: nat)
      requires Valid() && Sized() && m < |key|
      modifies this
      ensures Valid() && Sized() && fresh(Repr - old(Repr))
      ensures tree == Split(old(tree), m)
    {
      hide Valid, Row, Held, Split, Nils;
      SplitMeans(tree, m);
      var k := key[m];
      var nd := new CNode(key[m + 1..], data);
      nd.Bind(this);
      var newNodes := new CNode?[BLOCKSZ](_ => null);
      newNodes[k % BLOCKSZ] := nd;
      nodes, offset, n := newNodes, k / BLOCKSZ, 1;
      key, data, size := key[..m], None, 1;
      tree := Split(tree, m);
      Repr := nd.Repr + {this, newNodes};
      OnlyEntry(nd, k % BLOCKSZ);
    }

    lemma OnlyEntry(c: CNode, i: nat)
      requires tree.Node? && key == tree.key && data == tree.data && offset == tree.offset && n == 1
      requires nodes != null && i < nodes.Length == |tree.kids| == BLOCKSZ
      requires forall j :: 0 <= j < BLOCKSZ ==> nodes[j] == if j == i then c else null
      requires c.Valid() && c.Sized()
      requires forall j :: 0 <= j < BLOCKSZ ==> tree.kids[j] == if j == i then c.tree else Nil
      requires Repr == c.Repr + {this, nodes} && this !in c.Repr && nodes !in c.Repr
      ensures Valid()
    {
      hide Held;
      SplitRow(c, nodes, i, tree.kids, c.Repr);
      assert c.Repr == Repr - {this, nodes};
    }

    /** CT_add: CT_EXISTS, and nothing changed, when there is a value for s already. */
    method Add(s: Bytes, d: Obj) returns (rc: int)
      requires Valid() && Sized() && WF(tree) && NulFree(s)
      modifies Repr
      ensures Valid() && Sized() && fresh(Repr - old(Repr))
      ensures tree == Put(old(tree), s, d)
      ensures rc == if Lookup(old(tree), s).Some? then CT_EXISTS else CT_OK
      decreases |s|, 1
    {
      hide Split, WF, AddLeaf, Lookup;
      ghost var t := tree;
      WFSound(t);
      var m := 0;
      while m < |key|
        invariant m <= |key| && m <= |s| && key[..m] == s[..m]
      {
        if m == |s| || s[m] != key[m] {
          SharedIs(key, s, m);
          SplitAdd(m, s, d);
          return CT_OK;
        }
        m := m + 1;
      }
      SharedIs(key, s, m);
      MatchedLookup(t, s);
      if m < |s| {
        var grown;
        rc, grown := AddBelow(s[m..], d);
        if grown {
          size := size + 1;
        }
      } else if data.Some? {
        rc := CT_EXISTS;
      } else {
        data := Some(d);
        tree := SetData(tree, data);
        rc := CT_OK;
      }
    }

    method SplitAdd(m: nat, s: Bytes, d: Obj)
      requires Valid() && Sized() && WF(tree) && NulFree(s) && m == Shared(key, s) < |key|
      modifies Repr
      ensures Valid() && Sized() && fresh(Repr - old(Repr))
      ensures tree == Put(old(tree), s, d) && Lookup(old(tree), s) == None
    {
      hide Split, WF, AddLeaf, Lookup, Shared, Put;
      ghost var t := tree;
      PutSplits(t, s, d);
      SplitAt(m);
      if m == |s| {
        data := Some(d);
        tree := SetData(tree, data);
      } else {
        SplitEntry(t, m, s[m]);
        Resize(s[m] / BLOCKSZ);
        var nd := new CNode(s[m + 1..], Some(d));
        Attach(s[m], nd);
        size := 2;
      }
    }

    /** CT_merge_node: the only child becomes part of this node. */
    method MergeNode()
      requires Valid() && Sized() && Sound(tree) && Mergeable(tree)
      modifies this
      ensures Valid() && Sized() && Repr <= old(Repr)
      ensures tree == Merge(old(tree))
    {
      hide Valid, Row, Sound;
      Filled();
      var i := 0;
      while nodes[i] == null
        invariant i <= FirstFrom(tree.kids, 0)
        modifies {}
        decreases nodes.Length - i
      {
        FilledAt(i);
        i := i + 1;
      }
      FilledAt(i);
      var c := nodes[i];
      key := key + [i + offset * BLOCKSZ] + c.key;
      data := c.data;
      Bind(c);
    }

    lemma Filled()
      requires Valid() && Mergeable(tree)
      ensures nodes != null && nodes.Length == |tree.kids| && FirstFrom(tree.kids, 0) < nodes.Length
      ensures offset == tree.offset
    {}

    lemma FilledAt(i: nat)
      requires Valid() && nodes != null && i < |tree.kids| == nodes.Length && i <= FirstFrom(tree.kids, 0) < |tree.kids|
      ensures nodes[i] != null <==> i == FirstFrom(tree.kids, 0)
      ensures var c := nodes[i];
              c != null ==>
                && c.Valid() && c.Sized() && c.tree == tree.kids[i] && this !in c.Repr
                && c.Repr <= Repr
    {
      assert Row(nodes, tree.kids, Repr - {this, nodes});
      assert Held(nodes[i], tree.kids[i], Repr - {this, nodes});
    }

    /** CT_dec_node, called when the table has lost a child. */
    method DecNode()
      requires Valid() && size == tree.size + 1 && Sound(tree) && (tree.data.Some? || tree.size > 0)
      modifies this
      ensures Valid() && Sized() && Repr <= old(Repr)
      ensures tree == Closed(Emptied(old(tree)))
    {
      hide Merge, Sound;
      size := size - 1;
      if size == 0 {
        nodes := null;
        tree := Emptied(tree);
      } else if size == 1 && data == None {
        MergeableSound(tree);
        MergeNode();
      }
    }

    /** CT_pop: `gone` when this node holds nothing any more and its parent has to drop it. */
    method Pop(s: Bytes) returns (d: Option<Obj>, gone: bool)
      requires Valid() && Sized() && WF(tree)
      modifies Repr
      ensures d == Lookup(old(tree), s)
      ensures gone <==> Del(old(tree), s).Nil?
      ensures !gone ==> Valid() && Sized() && fresh(Repr - old(Repr)) && tree == Del(old(tree), s)
      decreases |s|, 1
    {
      hide WF, Sound, Merge, Emptied, FirstFrom;
      ghost var t := tree;
      WFSound(t);
      if !(key <= s) {
        return None, false;
      }
      gone := false;
      var rest := s[|key|..];
      if rest == [] {
        assert s == key;
        d := data;
        if size == 0 {
          gone := true;
        } else {
          data := None;
          tree := SetData(tree, None);
          SetDataSound(t, None);
          if size == 1 {
            MergeableSound(tree);
            MergeNode();
          }
        }
      } else if nodes == null {
        d := None;
        NoTable(t, rest);
      } else {
        DelBelowMeans(t, rest);
        var dropped;
        d, dropped := PopBelow(rest);
        if dropped {
          DroppedMeans(t, rest);
          DecNode();
        }
      }
    }

    method PopBelow(s: Bytes) returns (d: Option<Obj>, dropped: bool)
      requires Valid() && Sound(tree) && s != [] && (nodes == null ==> offset == 255 && n == 0)
      modifies Repr
      ensures d == Below(old(tree), s)
      ensures dropped <==> RootDel(old(tree), s).size < old(tree.size)
      ensures Valid() && fresh(Repr - old(Repr)) && tree == RootDel(old(tree), s) && size == old(size)
      ensures nodes == old(nodes) && offset == old(offset) && n == old(n)
      decreases |s|, 0
    {
      hide Sound, Table, WF, WithChild, Del, Lookup, Row, Held;
      ghost var t := tree;
      ChildMeans(t, s[0]);
      NilLookup(s[1..]);
      Covered(s[0]);
      var pos := s[0] / BLOCKSZ;
      if pos < offset || pos >= offset + n {
        return None, false;
      }
      Entry(s[0]);
      var c := nodes[s[0] - offset * BLOCKSZ];
      if c == null {
        return None, false;
      }
      d, dropped := c.Pop(s[1..]);
      if dropped {
        nodes[s[0] - offset * BLOCKSZ] := null;
      } else {
        Repr := Repr + c.Repr;
      }
      tree := RootDel(tree, s);
      RootDelFields(t, s);
      Rejoined(s[0] - offset * BLOCKSZ);
    }

    lemma Whole()
      requires Valid() && tree.kids != []
      ensures nodes != null && nodes.Length == |tree.kids| == n * BLOCKSZ && offset == tree.offset
    {}

    lemma Covered(k: byte)
      requires Valid() && (nodes == null ==> offset == 255 && n == 0)
      ensures offset <= k / BLOCKSZ < offset + n <==> Covers(tree, k)
      ensures Child(tree, k).Node? ==> Covers(tree, k)
    {}
  }

  lemma NoTable(t: Tree, s: Bytes)
    requires WF(t) && t.Node? && t.kids == [] && s != []
    ensures Sound(t) && DelBelow(t, s) == t && Below(t, s) == None
  {
    assert Child(t, s[0]) == Nil;
  }

  lemma DroppedMeans(t: Tree, s: Bytes)
    requires WF(t) && t.Node? && Sound(t) && s != [] && RootDel(t, s).size < t.size
    ensures var u := RootDel(t, s); Sound(u) && u.size + 1 == t.size && u.data == t.data && (u.data.Some? || u.size > 0)
  {
    hide Del, Sound;
    ChildWF(t, s[0]);
    WFSound(t);
    DropChildSound(t, s[0]);
  }

  lemma RootDelFields(t: Tree, s: Bytes)
    requires Sound(t) && s != [] && Child(t, s[0]).Node?
    ensures Covers(t, s[0]) && WF(Child(t, s[0]))
    ensures var u := RootDel(t, s);
            && u.key == t.key && u.data == t.data && u.offset == t.offset
            && u.kids == t.kids[s[0] - t.offset * BLOCKSZ := Del(Child(t, s[0]), s[1..])]
            && (u.size < t.size <==> Del(Child(t, s[0]), s[1..]).Nil?)
  {
    ChildWF(t, s[0]);
  }

  /** An add that has to split the node. */
  lemma PutSplits(t: Tree, s: Bytes, d: Obj)
    requires WF(t) && t.Node? && NulFree(s) && Shared(t.key, s) < |t.key|
    ensures var m := Shared(t.key, s);
            && Sound(Split(t, m)) && Split(t, m).size == 1 && Lookup(t, s) == None
            && (m < |s| ==> s[m] != t.key[m])
            && Put(t, s, d) == if m == |s| then SetData(Split(t, m), Some(d))
                               else AddLeaf(Split(t, m), s[m], Leaf(s[m + 1..], d))
  {
    SplitSound(t, Shared(t.key, s));
    SharedMeans(t.key, s);
  }

  lemma SplitEntry(t: Tree, m: nat, k: byte)
    requires t.Node? && m < |t.key| && Sound(Split(t, m)) && k != t.key[m]
    ensures var u := Resized(Split(t, m), k / BLOCKSZ);
            && Table(Split(t, m)) && u.Node? && Covers(u, k) && Child(u, k) == Nil && u.size == Split(t, m).size
    ensures forall c :: AddLeaf(Split(t, m), k, c) == WithChild(Resized(Split(t, m), k / BLOCKSZ), k, c, Split(t, m).size + 1)
  {
    SplitChild(t, m, k);
    ResizedMeans(Split(t, m), k);
  }

  lemma SplitMeans(t: Tree, m: nat)
    requires t.Node? && m < |t.key|
    ensures var u, k := Split(t, m), t.key[m];
            && u.Node? && u.key == t.key[..m] && u.data == None && u.size == 1
            && u.offset == k / BLOCKSZ && |u.kids| == BLOCKSZ
            && forall i :: 0 <= i < BLOCKSZ ==>
                 u.kids[i] == if i == k % BLOCKSZ then Node(t.key[m + 1..], t.data, t.size, t.offset, t.kids) else Nil
  {}

  lemma SplitRow(c: CNode, a: array<CNode?>, k: nat, ts: seq<Tree>, R: set<object>)
    requires k < a.Length == |ts|
    requires forall i :: 0 <= i < a.Length ==> a[i] == (if i == k then c else null)
    requires forall i :: 0 <= i < a.Length ==> ts[i] == (if i == k then c.tree else Nil)
    requires c in R && c.Repr <= R && c.Valid() && c.Sized()
    ensures Row(a, ts, R)
  {
  }

  lemma {:induction false} SharedIs(a: Bytes, s: Bytes, m: nat)
    requires m <= |a| && m <= |s| && a[..m] == s[..m]
    requires m == |a| || m == |s| || a[m] != s[m]
    ensures Shared(a, s) == m
  {
    if m > 0 {
      SharedIs(a[1..], s[1..], m - 1);
    }
  }

  lemma MatchedLookup(t: Tree, s: Bytes)
    requires t.Node? && Shared(t.key, s) == |t.key|
    ensures Lookup(t, s) == Below(t, s[|t.key|..])
  {}

  /** What a child gives to an add or a pop. */
  lemma ChildMeans(t: Tree, k: byte)
    requires Sound(t)
    ensures Table(t)
    ensures Child(t, k).Node? ==> Covers(t, k) && WF(Child(t, k)) && Resized(t, k / BLOCKSZ) == t
  {
    ChildWF(t, k);
  }

  lemma ResizedMeans(t: Tree, k: byte)
    requires Sound(t)
    ensures var r := Resized(t, k / BLOCKSZ);
            r.Node? && Covers(r, k) && Child(r, k) == Child(t, k) && r.size == t.size
  {
    ResizedChild(t, k / BLOCKSZ, k);
    ResizedFields(t, k / BLOCKSZ);
  }

  ghost function Foot(c: CNode?): set<object>
    reads c
  {
    if c == null then {} else c.Repr
  }

  ghost predicate Moved(a: array<CNode?>, b: array<CNode?>, before: nat, after: nat)
    reads a, b
  {
    && b.Length == before * BLOCKSZ + a.Length + after * BLOCKSZ
    && forall i :: 0 <= i < b.Length ==>
         b[i] == if before * BLOCKSZ <= i < before * BLOCKSZ + a.Length then a[i - before * BLOCKSZ] else null
  }

  lemma EmptyRow(a: array<CNode?>, ts: seq<Tree>, R: set<object>)
    requires a.Length == |ts|
    requires forall i :: 0 <= i < a.Length ==> a[i] == null && ts[i] == Nil
    ensures Row(a, ts, R)
  {}

  lemma MovedRow(a: array<CNode?>, b: array<CNode?>, before: nat, after: nat, ts: seq<Tree>,
                 R: set<object>, S: set<object>)
    requires Row(a, ts, R) && Moved(a, b, before, after) && R <= S
    ensures Row(b, Nils(before * BLOCKSZ) + ts + Nils(after * BLOCKSZ), S)
  {
    var us := Nils(before * BLOCKSZ) + ts + Nils(after * BLOCKSZ);
    var p := before * BLOCKSZ;
    forall i | 0 <= i < b.Length ensures Held(b[i], us[i], S) {
      if p <= i < p + a.Length {
        assert Held(a[i - p], ts[i - p], R);
        HeldWithin(a[i - p], ts[i - p], R, S);
      }
    }
    forall i, j | 0 <= i < j < b.Length && b[i] != null && b[j] != null ensures Apart(b[i], b[j]) {
      assert Held(a[i - p], ts[i - p], R) && Held(a[j - p], ts[j - p], R);
      assert b[i] == a[i - p] && b[j] == a[j - p];
    }
  }

  lemma HeldWithin(c: CNode?, t: Tree, R: set<object>, S: set<object>)
    requires Held(c, t, R) && R <= S
    ensures Held(c, t, S)
  {}
}
