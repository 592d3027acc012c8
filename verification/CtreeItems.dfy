/** The items of a compact tree in the order of ct_items, and the map the tree stands for. */
module CtreeItems {
  import opened Common
  import opened CtreeTrie
  import opened CtreeOps

  type Item = (Bytes, Obj)

  /** Unsigned byte-lexicographic order. */
  predicate Less(a: Bytes, b: Bytes) {
    b != [] && (a == [] || a[0] < b[0] || (a[0] == b[0] && Less(a[1..], b[1..])))
  }

  /** The first difference decides, and a string comes before its continuations. */
  lemma {:induction false} LessMeans(a: Bytes, b: Bytes)
    ensures Less(a, b) <==> exists k :: 0 <= k <= |a| && k < |b| && a[..k] == b[..k] && (k < |a| ==> a[k] < b[k])
    decreases |a|
  {
    if a != [] && b != [] && a[0] == b[0] {
      LessMeans(a[1..], b[1..]);
      forall k | 0 < k <= |a| && k < |b| ensures a[..k] == b[..k] <==> a[1..][..k - 1] == b[1..][..k - 1] {
        assert a[..k] == [a[0]] + a[1..][..k - 1] && b[..k] == [b[0]] + b[1..][..k - 1];
      }
      FirstDifference(a, b);
    } else if b != [] {
      assert a[..0] == b[..0];
    }
  }

  lemma FirstDifference(a: Bytes, b: Bytes)
    requires a != [] && b != [] && a[0] == b[0]
    ensures (exists k :: 0 <= k <= |a| && k < |b| && a[..k] == b[..k] && (k < |a| ==> a[k] < b[k])) <==>
            (exists k :: 0 <= k <= |a[1..]| && k < |b[1..]| && a[1..][..k] == b[1..][..k] && (k < |a[1..]| ==> a[1..][k] < b[1..][k]))
  {
    forall k | 0 <= k <= |a| && k < |b| && a[..k] == b[..k] && (k < |a| ==> a[k] < b[k])
      ensures 0 < k && a[1..][..k - 1] == b[1..][..k - 1]
    {
      assert a[1..][..k - 1] == a[..k][1..] && b[1..][..k - 1] == b[..k][1..];
    }
    forall k | 0 <= k <= |a[1..]| && k < |b[1..]| && a[1..][..k] == b[1..][..k] && (k < |a[1..]| ==> a[1..][k] < b[1..][k])
      ensures a[..k + 1] == b[..k + 1]
    {
      assert a[..k + 1] == [a[0]] + a[1..][..k] && b[..k + 1] == [b[0]] + b[1..][..k];
    }
  }

  predicate Sorted(xs: seq<Item>) {
    forall i, j :: 0 <= i < j < |xs| ==> Less(xs[i].0, xs[j].0)
  }

  function Prefixed(p: Bytes, xs: seq<Item>): (r: seq<Item>)
    ensures |r| == |xs| && forall i :: 0 <= i < |xs| ==> r[i] == (p + xs[i].0, xs[i].1)
  {
    seq(|xs|, i requires 0 <= i < |xs| => (p + xs[i].0, xs[i].1))
  }

  function Here(d: Option<Obj>): seq<Item> {
    if d.Some? then [([], d.value)] else []
  }

  /** The byte written for child i. */
  function CharByte(t: Tree, i: nat): byte
    requires t.Node?
  {
    Char(t, i) % 256
  }

  function Items(t: Tree): seq<Item>
    decreases t, 0, 1
  {
    if t.Nil? then [] else Prefixed(t.key, BelowItems(t))
  }

  /** The items of a node without its key. */
  function BelowItems(t: Tree): seq<Item>
    requires t.Node?
    decreases t, 0, 0
  {
    Here(t.data) + ItemsTo(t, |t.kids|)
  }

  function ItemsTo(t: Tree, m: nat): seq<Item>
    requires t.Node? && m <= |t.kids|
    decreases t, 0, 0, m
  {
    if m == 0 then [] else ItemsTo(t, m - 1) + Prefixed([CharByte(t, m - 1)], Items(t.kids[m - 1]))
  }

  // ---- order ----

  lemma {:induction false} LessPrefixed(p: Bytes, a: Bytes, b: Bytes)
    requires Less(a, b)
    ensures Less(p + a, p + b)
  {
    if p == [] {
      assert p + a == a && p + b == b;
    } else {
      LessPrefixed(p[1..], a, b);
      assert (p + a)[1..] == p[1..] + a && (p + b)[1..] == p[1..] + b;
    }
  }

  lemma PrefixedSorted(p: Bytes, xs: seq<Item>)
    requires Sorted(xs)
    ensures Sorted(Prefixed(p, xs))
  {
    forall i, j | 0 <= i < j < |xs| ensures Less(p + xs[i].0, p + xs[j].0) {
      LessPrefixed(p, xs[i].0, xs[j].0);
    }
  }

  /** The children before m come with smaller first bytes. */
  lemma {:induction false} FirstBytes(t: Tree, m: nat)
    requires t.Node? && m <= |t.kids| && t.offset * BLOCKSZ + |t.kids| <= 256
    ensures forall i :: 0 <= i < |ItemsTo(t, m)| ==> ItemsTo(t, m)[i].0 != [] && ItemsTo(t, m)[i].0[0] < Char(t, m)
    decreases m
  {
    if m > 0 {
      FirstBytes(t, m - 1);
    }
  }

  lemma {:induction false} ItemsSorted(t: Tree)
    requires WF(t)
    ensures Sorted(Items(t))
    decreases t, 0, 2
  {
    if t.Node? {
      WFSound(t);
      BelowSorted(t);
      PrefixedSorted(t.key, BelowItems(t));
    }
  }

  lemma {:induction false} BelowSorted(t: Tree)
    requires Sound(t)
    ensures Sorted(BelowItems(t))
    decreases t, 0, 1
  {
    ToSorted(t, |t.kids|);
    FirstBytes(t, |t.kids|);
  }

  lemma {:induction false} ToSorted(t: Tree, m: nat)
    requires Sound(t) && m <= |t.kids|
    ensures Sorted(ItemsTo(t, m))
    decreases t, 0, 0, m
  {
    if m > 0 {
      ToSorted(t, m - 1);
      ItemsSorted(t.kids[m - 1]);
      PrefixedSorted([CharByte(t, m - 1)], Items(t.kids[m - 1]));
      FirstBytes(t, m - 1);
    }
  }

  lemma {:induction false} LessIrreflexive(a: Bytes)
    ensures !Less(a, a)
  {
    if a != [] {
      LessIrreflexive(a[1..]);
    }
  }

  // ---- the items are what can be looked up ----

  predicate Has(xs: seq<Item>, s: Bytes, d: Obj) {
    exists i :: 0 <= i < |xs| && xs[i] == (s, d)
  }

  lemma HasConcat(xs: seq<Item>, ys: seq<Item>, s: Bytes, d: Obj)
    ensures Has(xs + ys, s, d) <==> Has(xs, s, d) || Has(ys, s, d)
  {
    var zs := xs + ys;
    if Has(xs, s, d) {
      var i :| 0 <= i < |xs| && xs[i] == (s, d);
      assert zs[i] == (s, d);
    }
    if Has(ys, s, d) {
      var i :| 0 <= i < |ys| && ys[i] == (s, d);
      assert zs[|xs| + i] == (s, d);
    }
    if Has(zs, s, d) {
      var i :| 0 <= i < |zs| && zs[i] == (s, d);
      assert if i < |xs| then xs[i] == (s, d) else ys[i - |xs|] == (s, d);
    }
  }

  lemma HasPrefixed(p: Bytes, xs: seq<Item>, s: Bytes, d: Obj)
    ensures Has(Prefixed(p, xs), s, d) <==> p <= s && Has(xs, s[|p|..], d)
  {
    var zs := Prefixed(p, xs);
    if Has(zs, s, d) {
      var i :| 0 <= i < |zs| && zs[i] == (s, d);
      assert s == p + xs[i].0;
      assert xs[i] == (s[|p|..], d);
    }
    if p <= s && Has(xs, s[|p|..], d) {
      var i :| 0 <= i < |xs| && xs[i] == (s[|p|..], d);
      assert s == p + s[|p|..];
      assert zs[i] == (s, d);
    }
  }

  lemma {:induction false} ItemsLookup(t: Tree, s: Bytes, d: Obj)
    requires WF(t)
    ensures Has(Items(t), s, d) <==> Lookup(t, s) == Some(d)
    decreases t, 0, 3
  {
    if t.Node? {
      WFSound(t);
      NodeItemsLookup(t, s, d);
    }
  }

  lemma {:induction false} NodeItemsLookup(t: Tree, s: Bytes, d: Obj)
    requires Sound(t)
    ensures Has(Items(t), s, d) <==> Lookup(t, s) == Some(d)
    decreases t, 0, 2
  {
    HasPrefixed(t.key, BelowItems(t), s, d);
    if t.key <= s {
      BelowItemsLookup(t, s[|t.key|..], d);
    }
  }

  lemma {:induction false} BelowItemsLookup(t: Tree, s: Bytes, d: Obj)
    requires Sound(t)
    ensures Has(BelowItems(t), s, d) <==> Below(t, s) == Some(d)
    decreases t, 0, 1
  {
    HasConcat(Here(t.data), ItemsTo(t, |t.kids|), s, d);
    HasHere(t.data, s, d);
    ItemsToLookup(t, |t.kids|, s, d);
  }

  lemma HasHere(v: Option<Obj>, s: Bytes, d: Obj)
    ensures Has(Here(v), s, d) <==> s == [] && v == Some(d)
  {
    if v == Some(d) {
      assert Here(v)[0] == ([], d);
    }
  }

  lemma {:induction false} ItemsToLookup(t: Tree, m: nat, s: Bytes, d: Obj)
    requires Sound(t) && m <= |t.kids|
    ensures Has(ItemsTo(t, m), s, d) <==>
              s != [] && t.offset * BLOCKSZ <= s[0] < t.offset * BLOCKSZ + m && Lookup(Child(t, s[0]), s[1..]) == Some(d)
    decreases t, 0, 0, m
  {
    if m > 0 {
      var c, b := t.kids[m - 1], CharByte(t, m - 1);
      ItemsToLookup(t, m - 1, s, d);
      HasConcat(ItemsTo(t, m - 1), Prefixed([b], Items(c)), s, d);
      HasPrefixed([b], Items(c), s, d);
      assert b == Char(t, m - 1) && Child(t, b) == c;
      if s != [] && s[0] == b {
        ItemsLookup(c, s[1..], d);
        assert [b] <= s;
      }
    }
  }

  // ---- the map a tree stands for ----

  ghost function Keys(t: Tree): set<Bytes> {
    set i | 0 <= i < |Items(t)| :: Items(t)[i].0
  }

  ghost function Entries(t: Tree): map<Bytes, Obj> {
    map s | s in Keys(t) && Lookup(t, s).Some? :: Lookup(t, s).value
  }

  lemma EntriesIsLookup(t: Tree, s: Bytes)
    requires Sound(t)
    ensures s in Entries(t) <==> Lookup(t, s).Some?
    ensures s in Entries(t) ==> Lookup(t, s) == Some(Entries(t)[s])
  {
    hide Items, Lookup, Sound;
    if Lookup(t, s).Some? {
      var d := Lookup(t, s).value;
      NodeItemsLookup(t, s, d);
      var i :| 0 <= i < |Items(t)| && Items(t)[i] == (s, d);
      assert s == Items(t)[i].0;
    }
  }

  /** Every stored key is listed exactly once, with its value, in strictly increasing order. */
  lemma ItemsListEntries(t: Tree)
    requires Sound(t)
    ensures Sorted(Items(t)) && |Items(t)| == |Entries(t)|
    ensures forall s, d :: Has(Items(t), s, d) <==> s in Entries(t) && Entries(t)[s] == d
  {
    hide Items, Lookup, Sound, Entries, Sorted, Less, Has;
    NodeSorted(t);
    forall s, d ensures Has(Items(t), s, d) <==> s in Entries(t) && Entries(t)[s] == d {
      NodeItemsLookup(t, s, d);
      EntriesIsLookup(t, s);
    }
    SortedDistinct(Items(t));
    DistinctCount(Items(t));
    SameKeys(t);
    assert |Entries(t)| == |Entries(t).Keys|;
  }

  lemma NodeSorted(t: Tree)
    requires Sound(t)
    ensures Sorted(Items(t))
  {
    hide Sorted, BelowItems;
    BelowSorted(t);
    PrefixedSorted(t.key, BelowItems(t));
  }

  predicate Distinct(xs: seq<Item>) {
    forall i, j :: 0 <= i < j < |xs| ==> xs[i].0 != xs[j].0
  }

  lemma SortedDistinct(xs: seq<Item>)
    requires Sorted(xs)
    ensures Distinct(xs)
  {
    forall i, j | 0 <= i < j < |xs| ensures xs[i].0 != xs[j].0 {
      LessIrreflexive(xs[i].0);
    }
  }

  ghost function KeysOf(xs: seq<Item>): set<Bytes> {
    set i | 0 <= i < |xs| :: xs[i].0
  }

  lemma {:induction false} DistinctCount(xs: seq<Item>)
    requires Distinct(xs)
    ensures |KeysOf(xs)| == |xs|
  {
    if xs != [] {
      var n := |xs| - 1;
      DistinctCount(xs[..n]);
      assert KeysOf(xs) == KeysOf(xs[..n]) + {xs[n].0};
      assert xs[n].0 !in KeysOf(xs[..n]);
    }
  }

  lemma SameKeys(t: Tree)
    requires Sound(t)
    ensures KeysOf(Items(t)) == Entries(t).Keys
  {
    hide Items, Lookup, Sound;
    forall s | s in KeysOf(Items(t)) ensures s in Entries(t) {
      var i :| 0 <= i < |Items(t)| && Items(t)[i].0 == s;
      assert Has(Items(t), s, Items(t)[i].1);
      NodeItemsLookup(t, s, Items(t)[i].1);
    }
  }

  /** Two trees that find the same, but for one key, stand for maps that differ there only. */
  lemma EntriesUpdate(t: Tree, u: Tree, s: Bytes)
    requires Sound(t) && Sound(u)
    requires forall x :: x != s ==> Lookup(u, x) == Lookup(t, x)
    ensures Entries(u) == if Lookup(u, s).Some? then Entries(t)[s := Lookup(u, s).value] else Entries(t) - {s}
  {
    hide Entries, Lookup, Sound;
    forall x ensures (x in Entries(u) <==> Lookup(u, x).Some?) && (x in Entries(t) <==> Lookup(t, x).Some?) {
      EntriesIsLookup(t, x);
      EntriesIsLookup(u, x);
    }
    forall x | x in Entries(u) ensures Lookup(u, x) == Some(Entries(u)[x]) {
      EntriesIsLookup(u, x);
    }
    forall x | x in Entries(t) ensures Lookup(t, x) == Some(Entries(t)[x]) {
      EntriesIsLookup(t, x);
    }
  }

  // ---- the root ----

  /** ct_add on the map. */
  lemma RootPut(t: Tree, s: Bytes, d: Obj)
    requires WFRoot(t) && NulFree(s) && s != []
    ensures WFRoot(PutBelow(t, s, d))
    ensures Entries(PutBelow(t, s, d)) == if s in Entries(t) then Entries(t) else Entries(t)[s := d]
  {
    hide Entries, Sound, PutBelow, Lookup, Below, WFRoot;
    RootMeans(t);
    PutBelowSound(t, s, d);
    var u := PutBelow(t, s, d);
    RootFrom(u);
    forall x ensures Lookup(u, x) == if x == s then Added(Lookup(t, s), d) else Lookup(t, x) {
      PutBelowLookup(t, s, d, x);
      RootLookup(t, x);
      RootLookup(t, s);
      RootLookup(u, x);
    }
    EntriesUpdate(t, u, s);
    EntriesIsLookup(t, s);
  }

  lemma RootMeans(t: Tree)
    requires WFRoot(t)
    ensures Sound(t) && t.key == [] && t.data == None
  {
    RootSound(t);
  }

  lemma RootFrom(t: Tree)
    requires Sound(t) && t.key == [] && t.data == None
    ensures WFRoot(t)
  {}

  lemma RootLookup(t: Tree, x: Bytes)
    requires t.Node? && t.key == []
    ensures Lookup(t, x) == Below(t, x)
  {
    assert x[0..] == x;
  }

  lemma RootDelSound(t: Tree, s: Bytes)
    requires WFRoot(t) && s != []
    ensures WFRoot(RootDel(t, s))
  {
    hide WF, Sound, Del, WithChild, WFRoot;
    RootMeans(t);
    ChildWF(t, s[0]);
    var c := Child(t, s[0]);
    if c.Node? {
      DelWF(c, s[1..]);
      if Del(c, s[1..]).Nil? {
        DropChildSound(t, s[0]);
        WithChildFields(t, s[0], Nil, t.size - 1);
      } else {
        PutChildSound(t, s[0], Del(c, s[1..]));
      }
      RootFrom(RootDel(t, s));
    }
  }

  lemma RootDelLookup(t: Tree, s: Bytes, x: Bytes)
    requires WFRoot(t) && s != []
    ensures Lookup(RootDel(t, s), x) == if x == s then None else Lookup(t, x)
  {
    hide WF, Sound, Del, WithChild, WFRoot, Below;
    RootMeans(t);
    ChildWF(t, s[0]);
    var c := Child(t, s[0]);
    assert t.key + s == s;
    if c.Nil? {
      NothingThere(t, s);
    } else {
      var c' := Del(c, s[1..]);
      if x != [] {
        assert x[|t.key|..] == x;
        DelLookup(c, s[1..], x[1..]);
        NilLookup(x[1..]);
      }
      SwapChildLookup(t, s, c', if c'.Nil? then t.size - 1 else t.size, x);
    }
  }

  /** ct_pop on the map. */
  lemma RootDelEntries(t: Tree, s: Bytes)
    requires WFRoot(t) && s != []
    ensures WFRoot(RootDel(t, s))
    ensures Entries(RootDel(t, s)) == Entries(t) - {s}
  {
    hide Entries, Sound, RootDel, Lookup, WFRoot;
    RootMeans(t);
    RootDelSound(t, s);
    var u := RootDel(t, s);
    RootMeans(u);
    forall x ensures Lookup(u, x) == if x == s then None else Lookup(t, x) {
      RootDelLookup(t, s, x);
    }
    EntriesUpdate(t, u, s);
  }
}
