/** A compact tree over byte strings as a value, and what the tree means.

    A node carries a part of the key, perhaps a value, and a table of children.  The table
    covers whole blocks of BLOCKSZ bytes from block `offset` on; it is absent (`kids == []`)
    when the node has no children. */
module CtreeTrie {
  import opened Common

  const BLOCKSZ: nat := 32

  type Obj = nat

  datatype Tree = Nil | Node(key: Bytes, data: Option<Obj>, size: nat, offset: nat, kids: seq<Tree>)

  // ---- the table of children ----

  predicate Covers(t: Tree, k: nat)
    requires t.Node?
  {
    t.offset * BLOCKSZ <= k < t.offset * BLOCKSZ + |t.kids|
  }

  function Child(t: Tree, k: nat): Tree
    requires t.Node?
  {
    if Covers(t, k) then t.kids[k - t.offset * BLOCKSZ] else Nil
  }

  /** The byte that child i stands for. */
  function Char(t: Tree, i: nat): nat
    requires t.Node?
  {
    i + t.offset * BLOCKSZ
  }

  function Nils(n: nat): (r: seq<Tree>)
    ensures |r| == n && forall i :: 0 <= i < n ==> r[i] == Nil
  {
    seq(n, _ => Nil)
  }

  /** The table grown so that it covers block pos. */
  function Resized(t: Tree, pos: nat): Tree
    requires t.Node?
  {
    if t.kids == [] then t.(offset := pos, kids := Nils(BLOCKSZ))
    else if pos < t.offset then t.(offset := pos, kids := Nils((t.offset - pos) * BLOCKSZ) + t.kids)
    else if pos >= t.offset + |t.kids| / BLOCKSZ then
      t.(kids := t.kids + Nils((pos - t.offset - |t.kids| / BLOCKSZ + 1) * BLOCKSZ))
    else t
  }

  function WithChild(t: Tree, k: nat, c: Tree, size: nat): (r: Tree)
    requires t.Node? && Covers(t, k)
    ensures r.Node?
  {
    Node(t.key, t.data, size, t.offset, t.kids[k - t.offset * BLOCKSZ := c])
  }

  function CountTo(kids: seq<Tree>, m: nat): nat
    requires m <= |kids|
  {
    if m == 0 then 0 else CountTo(kids, m - 1) + if kids[m - 1].Node? then 1 else 0
  }

  function Count(kids: seq<Tree>): nat {
    CountTo(kids, |kids|)
  }

  // ---- the invariant ----

  predicate NulFree(s: Bytes) {
    forall i :: 0 <= i < |s| ==> s[i] != 0
  }

  /** The table covers whole blocks of existing bytes and has no child for the zero byte. */
  predicate Table(t: Tree)
    requires t.Node?
  {
    && |t.kids| % BLOCKSZ == 0 && t.offset * BLOCKSZ + |t.kids| <= 256
    && Child(t, 0) == Nil
    && t.size == Count(t.kids)
  }

  /** Every node below the root has a value or branches. */
  ghost predicate WF(t: Tree) {
    t.Node? ==>
      && NulFree(t.key) && Table(t)
      && (t.kids == [] <==> t.size == 0)
      && (t.data.Some? || t.size >= 2)
      && forall i :: 0 <= i < |t.kids| ==> WF(t.kids[i])
  }

  /** The root has no key and no value, and keeps its table when it is empty. */
  ghost predicate WFRoot(t: Tree) {
    && t.Node? && t.key == [] && t.data == None && Table(t)
    && forall i :: 0 <= i < |t.kids| ==> WF(t.kids[i])
  }

  // ---- lookup ----

  function Lookup(t: Tree, s: Bytes): Option<Obj>
    decreases |s|, 1
  {
    if t.Nil? || !(t.key <= s) then None else Below(t, s[|t.key|..])
  }

  /** What is stored for s once the key of the node has been matched. */
  function Below(t: Tree, s: Bytes): Option<Obj>
    requires t.Node?
    decreases |s|, 0
  {
    if s == [] then t.data else Lookup(Child(t, s[0]), s[1..])
  }

  lemma NilLookup(x: Bytes)
    ensures Lookup(Nil, x) == None
  {}

  // ---- growing the table ----

  lemma {:induction false} CountNils(kids: seq<Tree>, m: nat)
    requires m <= |kids| && forall i :: 0 <= i < m ==> kids[i] == Nil
    ensures CountTo(kids, m) == 0
  {
    if m > 0 {
      CountNils(kids, m - 1);
    }
  }

  lemma {:induction false} CountPrefix(a: seq<Tree>, b: seq<Tree>, m: nat)
    requires m <= |a|
    ensures CountTo(a + b, m) == CountTo(a, m)
  {
    if m > 0 {
      CountPrefix(a, b, m - 1);
    }
  }

  lemma {:induction false} CountConcat(a: seq<Tree>, b: seq<Tree>, m: nat)
    requires m <= |b|
    ensures CountTo(a + b, |a| + m) == Count(a) + CountTo(b, m)
    decreases m
  {
    if m == 0 {
      CountPrefix(a, b, |a|);
    } else {
      CountConcat(a, b, m - 1);
    }
  }

  lemma {:induction false} CountUpdate(kids: seq<Tree>, i: nat, c: Tree, m: nat)
    requires i < |kids| && m <= |kids|
    ensures CountTo(kids[i := c], m) ==
            CountTo(kids, m) + if i < m then (if c.Node? then 1 else 0) - (if kids[i].Node? then 1 else 0) else 0
    decreases m
  {
    if m > 0 {
      CountUpdate(kids, i, c, m - 1);
    }
  }

  lemma {:induction false} CountZero(kids: seq<Tree>, m: nat, i: nat)
    requires i < m <= |kids| && CountTo(kids, m) == 0
    ensures kids[i] == Nil
    decreases m
  {
    if i < m - 1 {
      CountZero(kids, m - 1, i);
    }
  }

  lemma {:induction false} CountAtLeast(kids: seq<Tree>, m: nat, i: nat)
    requires i < m <= |kids| && kids[i].Node?
    ensures CountTo(kids, m) >= 1
    decreases m
  {
    if i < m - 1 {
      CountAtLeast(kids, m - 1, i);
    }
  }

  /** With a count of one, all the others are absent. */
  lemma {:induction false} CountOne(kids: seq<Tree>, m: nat, i: nat, j: nat)
    requires i < m <= |kids| && j < m && kids[i].Node? && CountTo(kids, m) == 1 && i != j
    ensures kids[j] == Nil
    decreases m
  {
    if i == m - 1 {
      CountZero(kids, m - 1, j);
    } else if j < m - 1 {
      if kids[m - 1].Node? {
        CountAtLeast(kids, m - 1, i);
      }
      CountOne(kids, m - 1, i, j);
    } else if kids[j].Node? {
      CountAtLeast(kids, m - 1, i);
    }
  }

  lemma ResizedCount(t: Tree, pos: nat)
    requires t.Node? && Table(t) && pos < 8
    ensures Count(Resized(t, pos).kids) == Count(t.kids)
  {
    if t.kids == [] {
      CountNils(Nils(BLOCKSZ), |Nils(BLOCKSZ)|);
    } else if pos < t.offset {
      var z := Nils((t.offset - pos) * BLOCKSZ);
      CountNils(z, |z|);
      CountConcat(z, t.kids, |t.kids|);
    } else if pos >= t.offset + |t.kids| / BLOCKSZ {
      var z := Nils((pos - t.offset - |t.kids| / BLOCKSZ + 1) * BLOCKSZ);
      CountNils(z, |z|);
      CountConcat(t.kids, z, |z|);
    }
  }

  /** Resizing keeps every child where it is and makes room for the block. */
  lemma ResizedChild(t: Tree, pos: nat, k: nat)
    requires t.Node? && Table(t) && pos < 8
    ensures Child(Resized(t, pos), k) == Child(t, k)
    ensures k / BLOCKSZ == pos ==> Covers(Resized(t, pos), k)
  {}

  lemma ResizedShape(t: Tree, pos: nat)
    requires t.Node? && Table(t) && pos < 8
    ensures var r := Resized(t, pos);
            |r.kids| % BLOCKSZ == 0 && r.offset * BLOCKSZ + |r.kids| <= 256 && r.kids != []
  {}

  lemma ResizedTable(t: Tree, pos: nat)
    requires t.Node? && Table(t) && pos < 8
    ensures Table(Resized(t, pos)) && Resized(t, pos).size == t.size
  {
    ResizedCount(t, pos);
    ResizedChild(t, pos, 0);
    ResizedShape(t, pos);
  }

  lemma ResizedKids(t: Tree, pos: nat)
    requires t.Node? && forall i :: 0 <= i < |t.kids| ==> WF(t.kids[i])
    ensures forall i :: 0 <= i < |Resized(t, pos).kids| ==> WF(Resized(t, pos).kids[i])
  {
    hide WF, Nils;
    assert WF(Nil) by { NilWF(); }
    var r := Resized(t, pos);
    forall i | 0 <= i < |r.kids| ensures WF(r.kids[i]) {
      assert r.kids[i] == Nil || exists j :: 0 <= j < |t.kids| && r.kids[i] == t.kids[j];
    }
  }

  lemma NilWF()
    ensures WF(Nil)
  {}

  // ---- splitting and merging ----

  /** How many leading bytes two strings share. */
  function Shared(a: Bytes, b: Bytes): (n: nat)
    ensures n <= |a| && n <= |b| && a[..n] == b[..n]
    ensures n < |a| && n < |b| ==> a[n] != b[n]
  {
    if a == [] || b == [] || a[0] != b[0] then 0 else 1 + Shared(a[1..], b[1..])
  }

  /** The node cut in two behind the first n bytes of its key. */
  function Split(t: Tree, n: nat): Tree
    requires t.Node? && n < |t.key|
  {
    var k := t.key[n];
    Node(t.key[..n], None, 1, k / BLOCKSZ,
         Nils(BLOCKSZ)[k % BLOCKSZ := t.(key := t.key[n + 1..])])
  }

  lemma SplitChild(t: Tree, n: nat, k: nat)
    requires t.Node? && n < |t.key|
    ensures Child(Split(t, n), k) == if k == t.key[n] then t.(key := t.key[n + 1..]) else Nil
    ensures Covers(Split(t, n), t.key[n])
  {}

  /** Splitting keeps what is stored. */
  lemma SplitLookup(t: Tree, n: nat, s: Bytes)
    requires t.Node? && n < |t.key|
    ensures Lookup(Split(t, n), s) == Lookup(t, s)
  {
    hide Split;
    assert Split(t, n).key == t.key[..n] && Split(t, n).data == None && Split(t, n).Node? by { SplitFields(t, n); }
    if t.key[..n] <= s && |s| > n {
      var r := s[n..];
      assert Lookup(Split(t, n), s) == Lookup(Child(Split(t, n), r[0]), r[1..]);
      SplitChild(t, n, r[0]);
      var c := t.(key := t.key[n + 1..]);
      assert t.key == t.key[..n] + [t.key[n]] + c.key;
      if r[0] == t.key[n] {
        assert s == t.key[..n] + [t.key[n]] + r[1..];
        assert c.key <= r[1..] <==> t.key <= s;
        if t.key <= s {
          assert r[1..][|c.key|..] == s[|t.key|..];
          BelowOfSame(c, t, s[|t.key|..]);
        }
      } else {
        assert s[n] != t.key[n];
        assert !(t.key <= s);
      }
    } else {
      ShorterPrefix(t.key, s, n);
    }
  }

  lemma ShorterPrefix(a: Bytes, s: Bytes, n: nat)
    requires n < |a|
    ensures a <= s ==> a[..n] <= s && |s| > n
  {}

  lemma SplitFields(t: Tree, n: nat)
    requires t.Node? && n < |t.key|
    ensures var p := Split(t, n);
            p.Node? && p.key == t.key[..n] && p.data == None && p.size == 1 && p.kids != []
  {}

  /** Below the key only the value and the table matter. */
  lemma BelowOfSame(a: Tree, b: Tree, s: Bytes)
    requires a.Node? && b.Node? && a.data == b.data && a.offset == b.offset && a.kids == b.kids
    ensures Below(a, s) == Below(b, s)
  {
    if s != [] {
      assert Child(a, s[0]) == Child(b, s[0]);
    }
  }

  lemma SplitTable(t: Tree, n: nat)
    requires t.Node? && n < |t.key| && NulFree(t.key)
    ensures Table(Split(t, n))
  {
    var p := Split(t, n);
    SplitChild(t, n, 0);
    CountNils(Nils(BLOCKSZ), |Nils(BLOCKSZ)|);
    CountUpdate(Nils(BLOCKSZ), t.key[n] % BLOCKSZ, t.(key := t.key[n + 1..]), |Nils(BLOCKSZ)|);
  }

  lemma RekeyWF(t: Tree, key: Bytes)
    requires t.Node? && WF(t) && NulFree(key)
    ensures WF(t.(key := key))
  {
    assert Table(t.(key := key)) by {
      assert Child(t.(key := key), 0) == Child(t, 0);
    }
  }

  lemma SplitKids(t: Tree, n: nat)
    requires t.Node? && n < |t.key| && WF(t)
    ensures forall i :: 0 <= i < |Split(t, n).kids| ==> WF(Split(t, n).kids[i])
  {
    RekeyWF(t, t.key[n + 1..]);
    NilWF();
    hide WF;
  }

  /** Child k attached to a table that has none there. */
  function AddLeaf(t: Tree, k: nat, c: Tree): Tree
    requires t.Node? && Table(t) && k < 256
  {
    ResizedChild(t, k / BLOCKSZ, k);
    WithChild(Resized(t, k / BLOCKSZ), k, c, t.size + 1)
  }

  lemma WithChildChild(t: Tree, k: nat, c: Tree, size: nat, j: nat)
    requires t.Node? && Covers(t, k)
    ensures Child(WithChild(t, k, c, size), j) == if j == k then c else Child(t, j)
  {}

  lemma WithChildTable(t: Tree, k: nat, c: Tree, size: nat)
    requires t.Node? && Covers(t, k) && k > 0 && Table(t)
    requires size == t.size + (if c.Node? then 1 else 0) - (if Child(t, k).Node? then 1 else 0)
    ensures Table(WithChild(t, k, c, size))
  {
    CountUpdate(t.kids, k - t.offset * BLOCKSZ, c, |t.kids|);
    WithChildChild(t, k, c, size, 0);
  }

  lemma WithChildKids(t: Tree, k: nat, c: Tree, size: nat)
    requires t.Node? && Covers(t, k) && WF(c)
    requires forall i :: 0 <= i < |t.kids| ==> WF(t.kids[i])
    ensures forall i :: 0 <= i < |WithChild(t, k, c, size).kids| ==> WF(WithChild(t, k, c, size).kids[i])
  {
    hide WF;
  }

  /** A node like WF without asking for a value or a branch. */
  ghost predicate Sound(t: Tree) {
    && t.Node? && NulFree(t.key) && Table(t)
    && forall i :: 0 <= i < |t.kids| ==> WF(t.kids[i])
  }

  lemma SoundWF(t: Tree)
    requires Sound(t) && (t.data.Some? || t.size >= 2) && (t.kids == [] <==> t.size == 0)
    ensures WF(t)
  {}

  lemma WFSound(t: Tree)
    requires WF(t) && t.Node?
    ensures Sound(t) && (t.data.Some? || t.size >= 2) && (t.kids == [] <==> t.size == 0)
  {}

  lemma RootSound(t: Tree)
    requires WFRoot(t)
    ensures Sound(t)
  {}

  lemma ChildWF(t: Tree, k: nat)
    requires Sound(t)
    ensures WF(Child(t, k))
    ensures Child(t, k).Node? ==> Covers(t, k) && t.size > 0 && t.kids != [] && k > 0
  {
    NilWF();
    if Child(t, k).Node? {
      CountAtLeast(t.kids, |t.kids|, k - t.offset * BLOCKSZ);
    }
  }

  lemma AddLeafSound(t: Tree, k: nat, c: Tree)
    requires Sound(t) && 0 < k < 256 && WF(c) && c.Node? && Child(t, k) == Nil
    ensures Sound(AddLeaf(t, k, c)) && AddLeaf(t, k, c).kids != [] && AddLeaf(t, k, c).size == t.size + 1
  {
    hide WF, Resized, WithChild;
    var r := Resized(t, k / BLOCKSZ);
    ResizedFields(t, k / BLOCKSZ);
    ResizedTable(t, k / BLOCKSZ);
    ResizedKids(t, k / BLOCKSZ);
    ResizedChild(t, k / BLOCKSZ, k);
    WithChildTable(r, k, c, t.size + 1);
    WithChildKids(r, k, c, t.size + 1);
    WithChildFields(r, k, c, t.size + 1);
  }

  lemma ResizedFields(t: Tree, pos: nat)
    requires t.Node?
    ensures var r := Resized(t, pos); r.Node? && r.key == t.key && r.data == t.data && r.size == t.size
  {}

  lemma WithChildFields(t: Tree, k: nat, c: Tree, size: nat)
    requires t.Node? && Covers(t, k)
    ensures var u := WithChild(t, k, c, size);
            u.Node? && u.key == t.key && u.data == t.data && u.size == size && |u.kids| == |t.kids| > 0
  {}

  lemma AddLeafBelow(t: Tree, k: nat, c: Tree, s: Bytes)
    requires t.Node? && Table(t) && 0 < k < 256
    ensures AddLeaf(t, k, c).Node? && AddLeaf(t, k, c).key == t.key && AddLeaf(t, k, c).data == t.data
    ensures Below(AddLeaf(t, k, c), s) == if s != [] && s[0] == k then Lookup(c, s[1..]) else Below(t, s)
  {
    hide Resized, WithChild;
    var r := Resized(t, k / BLOCKSZ);
    ResizedFields(t, k / BLOCKSZ);
    ResizedChild(t, k / BLOCKSZ, k);
    WithChildFields(r, k, c, t.size + 1);
    if s != [] {
      ResizedChild(t, k / BLOCKSZ, s[0]);
      WithChildChild(r, k, c, t.size + 1, s[0]);
    }
  }
}
