/** Adding to and removing from a compact tree: which map results, and that the tree stays
    in its canonical form. */
module CtreeOps {
  import opened Common
  import opened CtreeTrie

  function Leaf(key: Bytes, d: Obj): Tree {
    Node(key, Some(d), 0, 0, [])
  }

  lemma LeafWF(key: Bytes, d: Obj)
    requires NulFree(key)
    ensures WF(Leaf(key, d))
  {}

  lemma LeafLookup(key: Bytes, d: Obj, s: Bytes)
    ensures Lookup(Leaf(key, d), s) == if s == key then Some(d) else None
  {
    if key <= s {
      var r := s[|key|..];
      assert s == key + r;
      assert Lookup(Leaf(key, d), s) == Below(Leaf(key, d), r);
      if s == key {
        assert r == [];
      } else {
        assert r != [] && Child(Leaf(key, d), r[0]) == Nil;
        NilLookup(r[1..]);
      }
    }
  }

  // ---- add ----

  /** CT_add: an existing value is not overwritten. */
  ghost function Put(t: Tree, s: Bytes, d: Obj): (r: Tree)
    requires WF(t) && t.Node? && NulFree(s)
    ensures r.Node?
    decreases |s|, 1
  {
    WFSound(t);
    var n := Shared(t.key, s);
    if n < |t.key| then
      SplitSound(t, n);
      if n == |s| then SetData(Split(t, n), Some(d))
      else AddLeaf(Split(t, n), s[n], Leaf(s[n + 1..], d))
    else
      PutBelow(t, s[n..], d)
  }

  /** The same once the key of the node has been matched, which is also what ct_add does. */
  ghost function PutBelow(t: Tree, s: Bytes, d: Obj): (r: Tree)
    requires Sound(t) && NulFree(s)
    ensures r.Node?
    decreases |s|, 0
  {
    if s == [] then
      (if t.data.Some? then t else SetData(t, Some(d)))
    else
      ChildWF(t, s[0]);
      if Child(t, s[0]).Node? then
        WFSound(Child(t, s[0]));
        WithChild(t, s[0], Put(Child(t, s[0]), s[1..], d), t.size)
      else
        AddLeaf(t, s[0], Leaf(s[1..], d))
  }

  function SetData(t: Tree, d: Option<Obj>): (r: Tree)
    requires t.Node?
    ensures r.Node?
  {
    Node(t.key, d, t.size, t.offset, t.kids)
  }

  lemma SetDataSound(t: Tree, d: Option<Obj>)
    requires Sound(t)
    ensures Sound(SetData(t, d))
  {
    assert Child(SetData(t, d), 0) == Child(t, 0);
  }

  lemma SetDataBelow(t: Tree, d: Option<Obj>, s: Bytes)
    requires t.Node?
    ensures Below(SetData(t, d), s) == if s == [] then d else Below(t, s)
  {
    if s != [] {
      assert Child(SetData(t, d), s[0]) == Child(t, s[0]);
    }
  }

  lemma SplitSound(t: Tree, n: nat)
    requires WF(t) && t.Node? && n < |t.key|
    ensures Sound(Split(t, n))
  {
    SplitTable(t, n);
    SplitFields(t, n);
    SplitKids(t, n);
  }

  /** What a lookup finds after an add. */
  function Added(old_value: Option<Obj>, d: Obj): Option<Obj> {
    if old_value.Some? then old_value else Some(d)
  }

  lemma {:induction false} PutLookup(t: Tree, s: Bytes, d: Obj, x: Bytes)
    requires WF(t) && t.Node? && NulFree(s)
    ensures Lookup(Put(t, s, d), x) == if x == s then Added(Lookup(t, s), d) else Lookup(t, x)
    decreases |s|, 2
  {
    var n := Shared(t.key, s);
    if n < |t.key| {
      PutSplitLookup(t, s, d, x);
    } else {
      WFSound(t);
      PutBelowKey(t, s[n..], d);
      PutThroughKey(t, Put(t, s, d), s, d, x);
      if t.key <= x {
        PutBelowLookup(t, s[n..], d, x[n..]);
      }
    }
  }

  lemma PutBelowKey(t: Tree, s: Bytes, d: Obj)
    requires Sound(t) && NulFree(s)
    ensures PutBelow(t, s, d).key == t.key
  {}

  /** Lookups in a node agree with lookups below its key. */
  lemma PutThroughKey(t: Tree, u: Tree, s: Bytes, d: Obj, x: Bytes)
    requires t.Node? && u.Node? && u.key == t.key <= s
    ensures var n := |t.key|;
            && Lookup(t, s) == Below(t, s[n..])
            && (t.key <= x ==> Lookup(t, x) == Below(t, x[n..]) && Lookup(u, x) == Below(u, x[n..]))
            && (!(t.key <= x) ==> Lookup(t, x) == Lookup(u, x) == None && x != s)
            && (t.key <= x ==> (x == s <==> x[n..] == s[n..]))
  {
    if t.key <= x && x[|t.key|..] == s[|t.key|..] {
      assert x == t.key + x[|t.key|..];
      assert s == t.key + s[|t.key|..];
    }
  }

  lemma PutSplitLookup(t: Tree, s: Bytes, d: Obj, x: Bytes)
    requires WF(t) && t.Node? && NulFree(s) && Shared(t.key, s) < |t.key|
    ensures Lookup(Put(t, s, d), x) == if x == s then Added(Lookup(t, s), d) else Lookup(t, x)
  {
    hide Split, AddLeaf, SetData, Shared, WF;
    var n := Shared(t.key, s);
    SharedMeans(t.key, s);
    var p := Split(t, n);
    SplitSound(t, n);
    SplitFields(t, n);
    SplitLookup(t, n, x);
    var u := Put(t, s, d);
    if n == |s| {
      SetDataFields(p, Some(d));
      PutThroughKey(p, u, s, d, x);
      if p.key <= x {
        SetDataBelow(p, Some(d), x[n..]);
      }
    } else {
      AddLeafBelow(p, s[n], Leaf(s[n + 1..], d), s[n..]);
      PutThroughKey(p, u, s, d, x);
      if p.key <= x {
        AddLeafBelow(p, s[n], Leaf(s[n + 1..], d), x[n..]);
        LeafAt(s, n, d, x);
      }
    }
  }

  lemma SharedMeans(a: Bytes, s: Bytes)
    ensures var n := Shared(a, s);
            && n <= |a| && n <= |s| && a[..n] == s[..n] && (n < |a| ==> !(a <= s))
            && (n == |a| ==> a <= s)
  {
  }

  lemma LeafAt(s: Bytes, n: nat, d: Obj, x: Bytes)
    requires n < |s| && s[..n] <= x
    ensures x != s[..n] && x[n] == s[n] ==>
              Lookup(Leaf(s[n + 1..], d), x[n..][1..]) == if x == s then Some(d) else None
    ensures x == s[..n] || x[n] != s[n] ==> x != s
  {
    if x != s[..n] && x[n] == s[n] {
      LeafLookup(s[n + 1..], d, x[n..][1..]);
      assert x[n..][1..] == x[n + 1..];
      assert x == s[..n] + [s[n]] + x[n + 1..];
      assert s == s[..n] + [s[n]] + s[n + 1..];
    }
  }

  lemma SetDataFields(t: Tree, d: Option<Obj>)
    requires t.Node?
    ensures var u := SetData(t, d); u.Node? && u.key == t.key && u.data == d && u.size == t.size && u.kids == t.kids
  {}

  lemma {:induction false} PutBelowLookup(t: Tree, s: Bytes, d: Obj, x: Bytes)
    requires Sound(t) && NulFree(s)
    ensures Below(PutBelow(t, s, d), x) == if x == s then Added(Below(t, s), d) else Below(t, x)
    decreases |s|, 1
  {
    if s == [] {
      SetDataBelow(t, Some(d), x);
    } else {
      ChildWF(t, s[0]);
      var c := Child(t, s[0]);
      if c.Node? {
        WFSound(c);
        var c' := Put(c, s[1..], d);
        if x != [] {
          WithChildChild(t, s[0], c', t.size, x[0]);
          if x[0] == s[0] {
            PutLookup(c, s[1..], d, x[1..]);
          }
        }
      } else {
        AddLeafBelow(t, s[0], Leaf(s[1..], d), x);
        if x != [] && x[0] == s[0] {
          LeafLookup(s[1..], d, x[1..]);
        }
      }
      if x != [] && x[0] == s[0] && x[1..] == s[1..] {
        assert x == [x[0]] + x[1..] && s == [s[0]] + s[1..];
      }
    }
  }

  lemma {:induction false} PutWF(t: Tree, s: Bytes, d: Obj)
    requires WF(t) && t.Node? && NulFree(s)
    ensures WF(Put(t, s, d))
    decreases |s|, 2
  {
    WFSound(t);
    var n := Shared(t.key, s);
    if n < |t.key| {
      PutSplitWF(t, s, d);
    } else {
      PutBelowSound(t, s[n..], d);
      SoundWF(Put(t, s, d));
    }
  }

  lemma PutSplitWF(t: Tree, s: Bytes, d: Obj)
    requires WF(t) && t.Node? && NulFree(s) && Shared(t.key, s) < |t.key|
    ensures WF(Put(t, s, d))
  {
    hide Split, AddLeaf, SetData, Shared, WF, Sound;
    var n := Shared(t.key, s);
    SplitSound(t, n);
    SplitFields(t, n);
    var p := Split(t, n);
    if n == |s| {
      SetDataSound(p, Some(d));
      SetDataFields(p, Some(d));
    } else {
      LeafWF(s[n + 1..], d);
      SplitChild(t, n, s[n]);
      SharedDiffers(t.key, s);
      AddLeafSound(p, s[n], Leaf(s[n + 1..], d));
    }
    SoundWF(Put(t, s, d));
  }

  lemma SharedDiffers(a: Bytes, s: Bytes)
    ensures var n := Shared(a, s); n < |a| && n < |s| ==> a[n] != s[n]
  {}

  lemma {:induction false} PutBelowSound(t: Tree, s: Bytes, d: Obj)
    requires Sound(t) && NulFree(s)
    ensures var u := PutBelow(t, s, d);
            && Sound(u) && u.key == t.key && u.size >= t.size
            && (s == [] ==> u.data.Some? && u.kids == t.kids && u.size == t.size)
            && (s != [] ==> u.data == t.data && u.kids != [] && u.size > 0)
    decreases |s|, 1
  {
    if s == [] {
      SetDataSound(t, Some(d));
    } else {
      ChildWF(t, s[0]);
      var c := Child(t, s[0]);
      if c.Node? {
        PutWF(c, s[1..], d);
        PutChildSound(t, s[0], Put(c, s[1..], d));
      } else {
        LeafWF(s[1..], d);
        AddLeafSound(t, s[0], Leaf(s[1..], d));
        AddLeafBelow(t, s[0], Leaf(s[1..], d), []);
      }
    }
  }

  lemma PutChildSound(t: Tree, k: nat, c: Tree)
    requires Sound(t) && Covers(t, k) && k > 0 && Child(t, k).Node? && c.Node? && WF(c)
    ensures var u := WithChild(t, k, c, t.size);
            Sound(u) && u.key == t.key && u.data == t.data && u.size == t.size && u.kids != []
  {
    WithChildTable(t, k, c, t.size);
    WithChildKids(t, k, c, t.size);
    WithChildFields(t, k, c, t.size);
  }

  // ---- merging a node with its only child ----

  /** The index of the first child from m on. */
  function FirstFrom(kids: seq<Tree>, m: nat): (i: nat)
    requires m <= |kids|
    ensures m <= i <= |kids| && (i < |kids| ==> kids[i].Node?)
    ensures forall j :: m <= j < i ==> kids[j] == Nil
    decreases |kids| - m
  {
    if m == |kids| || kids[m].Node? then m else FirstFrom(kids, m + 1)
  }

  predicate Mergeable(t: Tree) {
    t.Node? && t.size == 1 && t.data == None && FirstFrom(t.kids, 0) < |t.kids| && t.offset * BLOCKSZ + |t.kids| <= 256
  }

  /** CT_merge_node */
  function Merge(t: Tree): Tree
    requires Mergeable(t)
  {
    var i := FirstFrom(t.kids, 0);
    var c := t.kids[i];
    Node(t.key + [Char(t, i)] + c.key, c.data, c.size, c.offset, c.kids)
  }

  lemma {:induction false} CountFirst(kids: seq<Tree>, m: nat)
    requires m <= |kids| && CountTo(kids, m) >= 1
    ensures FirstFrom(kids, 0) < m
  {
    if FirstFrom(kids, 0) >= m {
      CountNils(kids, m);
    }
  }

  lemma MergeableSound(t: Tree)
    requires Sound(t) && t.size == 1 && t.data == None
    ensures Mergeable(t)
  {
    CountFirst(t.kids, |t.kids|);
  }

  lemma MergeWF(t: Tree)
    requires Sound(t) && Mergeable(t)
    ensures WF(Merge(t)) && Merge(t).Node?
  {
    var i := FirstFrom(t.kids, 0);
    var c := t.kids[i];
    assert Child(t, Char(t, i)) == c;
    ChildWF(t, Char(t, i));
    WFSound(c);
    RekeyWF(c, t.key + [Char(t, i)] + c.key);
  }

  lemma OnlyChild(t: Tree, k: nat)
    requires Sound(t) && Mergeable(t)
    ensures Child(t, k) == if k == Char(t, FirstFrom(t.kids, 0)) then t.kids[FirstFrom(t.kids, 0)] else Nil
  {
    var i := FirstFrom(t.kids, 0);
    if Covers(t, k) && k != Char(t, i) {
      CountOne(t.kids, |t.kids|, i, k - t.offset * BLOCKSZ);
    }
  }

  /** Merging keeps what is stored. */
  lemma MergeLookup(t: Tree, x: Bytes)
    requires Sound(t) && Mergeable(t)
    ensures Lookup(Merge(t), x) == Lookup(t, x)
  {
    hide Sound, WF;
    var i := FirstFrom(t.kids, 0);
    var c, u := t.kids[i], Merge(t);
    var p := t.key + [Char(t, i)];
    if t.key <= x {
      var r := x[|t.key|..];
      if r != [] {
        OnlyChild(t, r[0]);
        assert Lookup(t, x) == Lookup(Child(t, r[0]), r[1..]);
        MergedPrefix(t.key, Char(t, i), c.key, x);
        if r[0] == Char(t, i) && c.key <= r[1..] {
          BelowOfSame(u, c, x[|u.key|..]);
        }
      } else {
        assert !(u.key <= x);
      }
    } else {
      assert !(u.key <= x) by { PrefixOfPrefix(t.key, [Char(t, i)] + c.key, x); }
    }
  }

  lemma PrefixOfPrefix(a: Bytes, b: Bytes, x: Bytes)
    ensures a + b <= x ==> a <= x
  {}

  lemma MergedPrefix(a: Bytes, b: byte, c: Bytes, x: Bytes)
    requires a <= x && |a| < |x|
    ensures a + [b] + c <= x <==> x[|a|] == b && c <= x[|a|..][1..]
    ensures a + [b] + c <= x ==> x[|a + [b] + c|..] == x[|a|..][1..][|c|..]
  {
    var y := x[|a|..][1..];
    assert x == a + [x[|a|]] + y;
    if a + [b] + c <= x {
      assert (a + [b] + c)[|a|] == b;
      assert y[..|c|] == c;
    }
    if x[|a|] == b && c <= y {
      assert x == a + [b] + c + y[|c|..];
    }
  }

  // ---- pop ----

  /** CT_pop: Nil when the node itself goes. */
  ghost function Del(t: Tree, s: Bytes): Tree
    requires WF(t) && t.Node?
    decreases |s|, 1
  {
    WFSound(t);
    if !(t.key <= s) then t
    else if s == t.key then
      (if t.size == 0 then Nil else Closed(SetData(t, None)))
    else
      DelBelow(t, s[|t.key|..])
  }

  /** One child less or a child changed; CT_dec_node follows when there is one less. */
  ghost function DelBelow(t: Tree, s: Bytes): (r: Tree)
    requires Sound(t) && s != []
    decreases |s|, 0
  {
    ChildWF(t, s[0]);
    var c := Child(t, s[0]);
    if c.Nil? then t
    else
      var c' := Del(c, s[1..]);
      if c'.Nil? then Closed(Emptied(WithChild(t, s[0], Nil, t.size - 1)))
      else WithChild(t, s[0], c', t.size)
  }

  /** ct_pop: the root keeps its table and is never merged. */
  ghost function RootDel(t: Tree, s: Bytes): (r: Tree)
    requires Sound(t) && s != []
    ensures r.Node?
  {
    ChildWF(t, s[0]);
    var c := Child(t, s[0]);
    if c.Nil? then t
    else
      var c' := Del(c, s[1..]);
      WithChild(t, s[0], c', if c'.Nil? then t.size - 1 else t.size)
  }

  lemma DelBelowMeans(t: Tree, s: Bytes)
    requires Sound(t) && s != []
    ensures DelBelow(t, s) == if RootDel(t, s).size < t.size then Closed(Emptied(RootDel(t, s))) else RootDel(t, s)
  {
    hide Closed, Emptied, Del;
    ChildWF(t, s[0]);
  }

  function Emptied(t: Tree): (r: Tree)
    requires t.Node?
    ensures r.Node?
  {
    if t.size == 0 then Node(t.key, t.data, t.size, t.offset, []) else t
  }

  function Closed(t: Tree): (r: Tree)
    requires t.Node?
    ensures r.Node?
  {
    if Mergeable(t) then Merge(t) else t
  }

  lemma ClosedLookup(t: Tree, x: Bytes)
    requires Sound(t)
    ensures Lookup(Closed(t), x) == Lookup(t, x)
  {
    if Mergeable(t) {
      MergeLookup(t, x);
    }
  }

  lemma ClosedWF(t: Tree)
    requires t.Node? && Sound(t) && (t.data.Some? || t.size >= 1) && (t.kids == [] <==> t.size == 0)
    ensures WF(Closed(t))
  {
    hide Merge, WF, Sound;
    if t.size == 1 && t.data == None {
      MergeableSound(t);
      MergeWF(t);
    } else {
      SoundWF(t);
    }
  }

  lemma EmptiedSound(t: Tree)
    requires Sound(t)
    ensures Sound(Emptied(t)) && (Emptied(t).kids == [] ==> Emptied(t).size == 0)
    ensures Emptied(t).data == t.data && Emptied(t).size == t.size && Emptied(t).key == t.key
    ensures Emptied(t).size == 0 ==> Emptied(t).kids == []
  {}

  lemma EmptiedBelow(t: Tree, x: Bytes)
    requires Sound(t)
    ensures Below(Emptied(t), x) == Below(t, x)
  {
    if t.size == 0 && x != [] {
      if Covers(t, x[0]) {
        CountZero(t.kids, |t.kids|, x[0] - t.offset * BLOCKSZ);
      }
      assert Child(t, x[0]) == Child(Emptied(t), x[0]) == Nil;
    }
  }

  lemma {:induction false} DelLookup(t: Tree, s: Bytes, x: Bytes)
    requires WF(t) && t.Node?
    ensures Lookup(Del(t, s), x) == if x == s then None else Lookup(t, x)
    decreases |s|, 2
  {
    WFSound(t);
    if t.key <= s {
      if s == t.key {
        DelHereLookup(t, x);
      } else {
        DelBelowLookup(t, s[|t.key|..], x);
        assert s == t.key + s[|t.key|..];
      }
    }
  }

  lemma DelHereLookup(t: Tree, x: Bytes)
    requires WF(t) && t.Node?
    ensures Lookup(Del(t, t.key), x) == if x == t.key then None else Lookup(t, x)
  {
    hide WF, Merge, Mergeable, SetData;
    WFSound(t);
    var u := SetData(t, None);
    SetDataFields(t, None);
    SetDataSound(t, None);
    assert t.key[|t.key|..] == [];
    if t.key <= x {
      var r := x[|t.key|..];
      assert x == t.key + r;
      SetDataBelow(t, None, r);
      if t.size == 0 && r != [] {
        assert Child(t, r[0]) == Nil;
      }
    }
    if t.size != 0 {
      ClosedLookup(u, x);
    }
  }

  lemma {:induction false} DelBelowLookup(t: Tree, s: Bytes, x: Bytes)
    requires Sound(t) && s != []
    ensures Lookup(DelBelow(t, s), x) == if x == t.key + s then None else Lookup(t, x)
    decreases |s|, 1
  {
    ChildWF(t, s[0]);
    var c := Child(t, s[0]);
    if c.Nil? {
      NothingThere(t, s);
    } else {
      WFSound(c);
      var c' := Del(c, s[1..]);
      if t.key <= x && x[|t.key|..] != [] && x[|t.key|..][0] == s[0] {
        DelLookup(c, s[1..], x[|t.key|..][1..]);
      }
      if c'.Nil? {
        DropChildLookup(t, s, x);
      } else {
        SwapChildLookup(t, s, c', t.size, x);
      }
    }
  }

  lemma NothingThere(t: Tree, s: Bytes)
    requires t.Node? && s != [] && Child(t, s[0]) == Nil
    ensures Lookup(t, t.key + s) == None
  {
    assert (t.key + s)[|t.key|..] == s;
    assert Lookup(t, t.key + s) == Below(t, s) == Lookup(Child(t, s[0]), s[1..]);
  }

  /** A child is replaced by one that stores everything but s. */
  lemma SwapChildLookup(t: Tree, s: Bytes, c: Tree, size: nat, x: Bytes)
    requires t.Node? && s != [] && Covers(t, s[0])
    requires t.key <= x && x[|t.key|..] != [] && x[|t.key|..][0] == s[0] ==>
               var y := x[|t.key|..][1..];
               Lookup(c, y) == if y == s[1..] then None else Lookup(Child(t, s[0]), y)
    ensures Lookup(WithChild(t, s[0], c, size), x) == if x == t.key + s then None else Lookup(t, x)
  {
    hide WithChild;
    var u := WithChild(t, s[0], c, size);
    WithChildFields(t, s[0], c, size);
    assert (t.key + s)[|t.key|..] == s;
    if t.key <= x {
      var r := x[|t.key|..];
      assert x == t.key + r;
      if r != [] {
        WithChildChild(t, s[0], c, size, r[0]);
        assert r == [r[0]] + r[1..] && s == [s[0]] + s[1..];
      }
    }
  }

  lemma DropChildSound(t: Tree, k: nat)
    requires Sound(t) && Covers(t, k) && k > 0 && Child(t, k).Node? && t.size > 0
    ensures Sound(WithChild(t, k, Nil, t.size - 1))
  {
    NilWF();
    WithChildTable(t, k, Nil, t.size - 1);
    WithChildKids(t, k, Nil, t.size - 1);
    WithChildFields(t, k, Nil, t.size - 1);
  }

  lemma DropChildLookup(t: Tree, s: Bytes, x: Bytes)
    requires t.Node? && Sound(t) && s != [] && Child(t, s[0]).Node? && t.size > 0 && Covers(t, s[0])
    requires t.key <= x && x[|t.key|..] != [] && x[|t.key|..][0] == s[0] ==>
               var y := x[|t.key|..][1..];
               None == if y == s[1..] then None else Lookup(Child(t, s[0]), y)
    ensures Lookup(Closed(Emptied(WithChild(t, s[0], Nil, t.size - 1))), x) ==
            if x == t.key + s then None else Lookup(t, x)
  {
    hide WF, Sound, Merge, Mergeable, Closed, Emptied, WithChild;
    ChildWF(t, s[0]);
    DropChildSound(t, s[0]);
    var u := WithChild(t, s[0], Nil, t.size - 1);
    SwapChildLookup(t, s, Nil, t.size - 1, x);
    EmptiedSound(u);
    if u.key <= x {
      EmptiedBelow(u, x[|u.key|..]);
    }
    assert Lookup(Emptied(u), x) == Lookup(u, x);
    ClosedLookup(Emptied(u), x);
  }

  lemma {:induction false} DelWF(t: Tree, s: Bytes)
    requires WF(t) && t.Node?
    ensures WF(Del(t, s))
    decreases |s|, 2
  {
    NilWF();
    WFSound(t);
    if t.key <= s {
      if s == t.key {
        if t.size != 0 {
          DelHereWF(t);
        }
      } else {
        DelBelowWF(t, s[|t.key|..]);
      }
    }
  }

  lemma DelHereWF(t: Tree)
    requires WF(t) && t.Node? && t.size != 0
    ensures WF(Closed(SetData(t, None)))
  {
    WFSound(t);
    SetDataSound(t, None);
    SetDataFields(t, None);
    hide WF, Closed;
    ClosedWF(SetData(t, None));
  }

  lemma {:induction false} DelBelowWF(t: Tree, s: Bytes)
    requires WF(t) && t.Node? && Sound(t) && s != []
    ensures WF(DelBelow(t, s)) && DelBelow(t, s).Node?
    decreases |s|, 1
  {
    WFSound(t);
    ChildWF(t, s[0]);
    var c := Child(t, s[0]);
    if c.Node? {
      DelWF(c, s[1..]);
      if Del(c, s[1..]).Nil? {
        DropChildWF(t, s[0]);
      } else {
        PutChildSound(t, s[0], Del(c, s[1..]));
        SoundWF(DelBelow(t, s));
      }
    }
  }

  lemma DropChildWF(t: Tree, k: nat)
    requires WF(t) && t.Node? && Covers(t, k) && k > 0 && Child(t, k).Node? && t.size > 0
    ensures WF(Closed(Emptied(WithChild(t, k, Nil, t.size - 1))))
  {
    hide WF, Closed, Sound, Merge, Mergeable;
    WFSound(t);
    DropChildSound(t, k);
    WithChildFields(t, k, Nil, t.size - 1);
    EmptiedSound(WithChild(t, k, Nil, t.size - 1));
    ClosedWF(Emptied(WithChild(t, k, Nil, t.size - 1)));
  }
}
