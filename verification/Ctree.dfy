/** The compact tree: a map from strings to values. */
module Ctree {
  import opened Common
  import opened CtreeTrie
  import opened CtreeOps
  import opened CtreeItems
  import opened CtreeNode
  import opened CtreeWalk

  class Ctree {
    var len: nat
    const top: CNode  // the table of the tree itself, as CT_node_resize sees it

    ghost predicate Valid()
      reads this, top, top.Repr
    {
      && this !in top.Repr && top.Valid() && WFRoot(top.tree)
      && (top.nodes == null ==> top.offset == 255 && top.n == 0)
      && len == |Contents()|
    }

    ghost function Contents(): map<Bytes, Obj>
      reads top
    {
      Entries(top.tree)
    }

    /** ct_new */
    constructor ()
      ensures Valid() && fresh(top) && fresh(top.Repr) && Contents() == map[]
    {
      len := 0;
      top := new CNode([], None);
      new;
      EmptyContents(top.tree);
    }

    /** ct_add */
    method Add(s: Bytes, d: Obj) returns (rc: int)
      requires Valid() && NulFree(s)
      modifies this, top.Repr
      ensures Valid() && fresh(top.Repr - old(top.Repr))
      ensures rc == if s == [] || s in old(Contents()) then CT_EXISTS else CT_OK
      ensures Contents() == if rc == CT_OK then old(Contents())[s := d] else old(Contents())
    {
      hide Entries, WFRoot, PutBelow, Sound, Lookup, Below;
      if s == [] {
        return CT_EXISTS;
      }
      RootMeans(top.tree);
      RootPut(top.tree, s, d);
      EntriesIsLookup(top.tree, s);
      RootLookup(top.tree, s);
      var changed;
      rc, changed := top.AddBelow(s, d);
      if rc == CT_OK {
        len := len + 1;
      }
    }

    /** ct_pop */
    method Pop(s: Bytes) returns (d: Option<Obj>)
      requires Valid() && NulFree(s)
      modifies this, top.Repr
      ensures Valid() && fresh(top.Repr - old(top.Repr))
      ensures d == if s in old(Contents()) then Some(old(Contents())[s]) else None
      ensures Contents() == old(Contents()) - {s}
    {
      hide Entries, WFRoot, RootDel, Sound, Lookup, Below;
      RootMeans(top.tree);
      EntriesIsLookup(top.tree, s);
      RootLookup(top.tree, s);
      if s == [] {
        NoValueHere(top.tree);
        return None;
      }
      RootDelEntries(top.tree, s);
      ghost var was := Contents();
      var changed;
      d, changed := top.PopBelow(s);
      if d.Some? {
        len := len - 1;
        assert was - {s} == Contents();
      }
    }

    /** ct_get, by way of ct_getaddr. */
    method Get(s: Bytes) returns (d: Option<Obj>)
      requires Valid() && NulFree(s)
      ensures d == if s in Contents() then Some(Contents()[s]) else None
    {
      hide Entries, WFRoot, Sound, Lookup, Below, Valid, CNode.Valid, Covers, Table, Child;
      Means(s);
      NilFindsNothing();
      top.Covered(if s == [] then 0 else s[0]);
      if s == [] || s[0] / BLOCKSZ < top.offset || s[0] / BLOCKSZ >= top.offset + top.n {
        return None;
      }
      top.Entry(s[0]);
      ChildMeans(top.tree, s[0]);
      var key: Bytes := s;
      var nd := top.nodes[s[0] - top.offset * BLOCKSZ];
      while nd != null && nd.key <= key[1..]
        invariant key != [] && NulFree(key)
        invariant nd != null ==> nd.Valid() && WF(nd.tree)
        invariant Lookup(top.tree, s) == Lookup(if nd == null then Nil else nd.tree, key[1..])
        decreases |key|
      {
        MatchedBelow(nd.tree, key[1..]);
        key := key[1 + |nd.key|..];
        if key == [] {
          return nd.data;
        }
        if nd.nodes == null {
          return None;
        }
        nd.Covered(key[0]);
        if key[0] / BLOCKSZ < nd.offset || key[0] / BLOCKSZ >= nd.offset + nd.n {
          return None;
        }
        nd.Entry(key[0]);
        ChildMeans(nd.tree, key[0]);
        nd := nd.nodes[key[0] - nd.offset * BLOCKSZ];
      }
      if nd != null {
        NotMatched(nd.tree, key[1..]);
      }
      return None;
    }

    /** ct_getn: the first m bytes of a buffer, which need not be a string. */
    method GetN(s: Bytes, m: nat) returns (d: Option<Obj>)
      requires Valid() && m <= |s|
      ensures d == if s[..m] in Contents() then Some(Contents()[s[..m]]) else None
    {
      hide Entries, WFRoot, Sound, Lookup, Below, Valid, CNode.Valid, Covers, Table, Child;
      Means(s[..m]);
      NilFindsNothing();
      if m == 0 {
        return None;
      }
      top.Covered(s[0]);
      if s[0] / BLOCKSZ < top.offset || s[0] / BLOCKSZ >= top.offset + top.n {
        return None;
      }
      top.Entry(s[0]);
      ChildMeans(top.tree, s[0]);
      var at, left, diff := 0, m, 1;
      var nd := top.nodes[s[0] - top.offset * BLOCKSZ];
      while nd != null
        invariant diff <= left && at + left == m && diff > 0
        invariant nd != null ==> nd.Valid() && WF(nd.tree)
        invariant Lookup(top.tree, s[..m]) == Lookup(if nd == null then Nil else nd.tree, s[at + diff..m])
        decreases left
      {
        at, left := at + diff, left - diff;
        if left < |nd.key| || nd.key != s[at..at + |nd.key|] {
          NotMatched(nd.tree, s[at..m]);
          return None;
        }
        assert nd.key <= s[at..m];
        MatchedBelow(nd.tree, s[at..m]);
        assert s[at..m][|nd.key|..] == s[at + |nd.key|..m];
        if |nd.key| == left {
          return nd.data;
        }
        if nd.nodes == null {
          return None;
        }
        var k := s[at + |nd.key|];
        nd.Covered(k);
        if k / BLOCKSZ < nd.offset || k / BLOCKSZ >= nd.offset + nd.n {
          return None;
        }
        nd.Entry(k);
        ChildMeans(nd.tree, k);
        diff := |nd.key| + 1;
        nd := nd.nodes[k - nd.offset * BLOCKSZ];
      }
      return None;
    }

    /** ct_items: every item in turn, until the callback stops the walk. */
    method Items(cb: Callback) returns (seen: seq<Item>, rc: int)
      requires Valid()
      ensures (seen, rc != 0) == Walk(cb, [], CtreeItems.Items(top.tree))
      ensures rc == 0 || rc == 1
      ensures Sorted(seen) && AllIn(seen, Contents())
      ensures rc == 0 ==> |seen| == len && AllOf(Contents(), seen)
    {
      hide Entries, WFRoot, Sound, Sorted, Valid, CNode.Valid, Walk, WalkTo, CtreeItems.Items;
      Means([]);
      RootFields();
      WalkSeesEntries(cb, top.tree);
      PrefixedEmpty(CtreeItems.Items(top.tree));
      WalkNode(cb, [], [], top.tree);
      WalkHere(cb, [], [], top.tree);
      var buffer := new Buffer(CT_BUF_SIZE);
      seen, rc := [], 0;
      if top.nodes != null {
        assert buffer.mem[..0] == [];
        seen, rc := WalkTable(top, [], 0, CT_BUF_SIZE, buffer, cb, [], []);
      }
    }

    ghost predicate Agrees(s: Bytes)
      reads top
    {
      Lookup(top.tree, s) == if s in Contents() then Some(Contents()[s]) else None
    }

    lemma RootFields()
      requires Valid()
      ensures top.tree.Node? && top.tree.key == [] && top.tree.data == None && len == |Entries(top.tree)|
    {}

    lemma Means(s: Bytes)
      requires Valid()
      ensures top.Valid() && Sound(top.tree) && (top.nodes == null ==> top.offset == 255 && top.n == 0)
      ensures Agrees(s)
      ensures Lookup(top.tree, s) == if s == [] then None else Lookup(Child(top.tree, s[0]), s[1..])
    {
      RootMeans(top.tree);
      RootLookup(top.tree, s);
      EntriesIsLookup(top.tree, s);
    }
  }

  lemma EmptyContents(t: Tree)
    requires t == Node([], None, 0, 0, [])
    ensures WFRoot(t) && Entries(t) == map[]
  {
    assert Items(t) == [];
  }

  /** What is left to look up once the key of a node is matched. */
  lemma MatchedBelow(t: Tree, s: Bytes)
    requires WF(t) && t.Node? && t.key <= s
    ensures Sound(t)
    ensures var rest := s[|t.key|..];
            && Lookup(t, s) == Below(t, rest)
            && Below(t, rest) == (if rest == [] then t.data else Lookup(Child(t, rest[0]), rest[1..]))
            && (t.kids == [] && rest != [] ==> Child(t, rest[0]) == Nil)
  {
    WFSound(t);
  }

  lemma NotMatched(t: Tree, s: Bytes)
    requires t.Node? && !(t.key <= s)
    ensures Lookup(t, s) == None
  {}

  lemma NilFindsNothing()
    ensures forall x :: Lookup(Nil, x) == None
  {}

  lemma NoValueHere(t: Tree)
    requires t.Node? && t.data == None
    ensures Below(t, []) == None
  {}
}
