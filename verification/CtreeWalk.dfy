/** Walking over all items of a compact tree with the key rebuilt in one growing buffer. */
module CtreeWalk {
  import opened Common
  import opened CtreeTrie
  import opened CtreeItems
  import opened CtreeNode

  const CT_BUF_SIZE: nat := 128

  /** A callback: what it has seen before and the item it is called with; true ends the walk. */
  type Callback = (seq<Item>, Item) -> bool

  /** The calls made for the items xs, and whether the last one ended the walk. */
  function Walk(cb: Callback, seen: seq<Item>, xs: seq<Item>): (seq<Item>, bool)
    decreases |xs|
  {
    if xs == [] then (seen, false)
    else if cb(seen, xs[0]) then (seen + [xs[0]], true)
    else Walk(cb, seen + [xs[0]], xs[1..])
  }

  lemma {:induction false} WalkConcat(cb: Callback, seen: seq<Item>, xs: seq<Item>, ys: seq<Item>)
    ensures Walk(cb, seen, xs + ys) ==
            if Walk(cb, seen, xs).1 then Walk(cb, seen, xs) else Walk(cb, Walk(cb, seen, xs).0, ys)
    decreases |xs|
  {
    if xs == [] {
      assert xs + ys == ys;
    } else {
      assert (xs + ys)[1..] == xs[1..] + ys;
      if !cb(seen, xs[0]) {
        WalkConcat(cb, seen + [xs[0]], xs[1..], ys);
      }
    }
  }

  /** The first k calls do not end the walk. */
  ghost predicate GoesOn(cb: Callback, seen: seq<Item>, xs: seq<Item>, k: nat)
    requires k <= |xs|
  {
    forall i :: 0 <= i < k ==> !cb(seen + xs[..i], xs[i])
  }

  /** The callback is called for a prefix of the items, in order: for all of them unless it ended
      the walk, and then not again. */
  lemma {:induction false} WalkPrefix(cb: Callback, seen: seq<Item>, xs: seq<Item>) returns (k: nat)
    ensures k <= |xs| && Walk(cb, seen, xs).0 == seen + xs[..k]
    ensures Walk(cb, seen, xs).1 ==> k > 0 && cb(seen + xs[..k - 1], xs[k - 1])
    ensures !Walk(cb, seen, xs).1 ==> k == |xs|
    ensures GoesOn(cb, seen, xs, if Walk(cb, seen, xs).1 then k - 1 else k)
    decreases |xs|
  {
    if xs == [] {
      k := 0;
    } else if cb(seen, xs[0]) {
      k := 1;
      assert seen + xs[..0] == seen;
    } else {
      k := WalkPrefix(cb, seen + [xs[0]], xs[1..]);
      k := k + 1;
      assert forall i :: 0 < i <= k ==> seen + xs[..i] == seen + [xs[0]] + xs[1..][..i - 1];
      assert seen + xs[..0] == seen;
    }
  }

  ghost predicate AllIn(xs: seq<Item>, m: map<Bytes, Obj>) {
    forall i :: 0 <= i < |xs| ==> xs[i].0 in m && m[xs[i].0] == xs[i].1
  }

  ghost predicate AllOf(m: map<Bytes, Obj>, xs: seq<Item>) {
    forall s :: s in m ==> (s, m[s]) in xs
  }

  lemma ItemsAreEntries(t: Tree)
    requires Sound(t)
    ensures AllIn(Items(t), Entries(t)) && AllOf(Entries(t), Items(t)) && |Items(t)| == |Entries(t)| && Sorted(Items(t))
  {
    hide Entries, Items, Sound, Sorted;
    ItemsListEntries(t);
    var xs := Items(t);
    forall i | 0 <= i < |xs| ensures xs[i].0 in Entries(t) && Entries(t)[xs[i].0] == xs[i].1 {
      assert Has(xs, xs[i].0, xs[i].1);
    }
    forall s | s in Entries(t) ensures (s, Entries(t)[s]) in xs {
      assert Has(xs, s, Entries(t)[s]);
    }
  }

  /** What a walk over a tree has seen: entries, in strictly increasing order of their keys, and
      all of them unless the callback ended the walk. */
  lemma WalkSeesEntries(cb: Callback, t: Tree)
    requires Sound(t)
    ensures var w := Walk(cb, [], Items(t));
            && Sorted(w.0) && AllIn(w.0, Entries(t))
            && (!w.1 ==> |w.0| == |Entries(t)| && AllOf(Entries(t), w.0))
  {
    hide Entries, Items, Walk, Sound, Less, AllOf, GoesOn;
    ItemsAreEntries(t);
    var xs := Items(t);
    var k := WalkPrefix(cb, [], xs);
    assert Walk(cb, [], xs).0 == [] + xs[..k] == xs[..k];
    assert xs[..|xs|] == xs;
  }

  /** A block of memory that realloc may move. */
  class Buffer {
    var mem: array<byte>

    constructor (sz: nat)
      ensures fresh(mem) && mem.Length == sz
    {
      mem := new byte[sz];
    }

    /** realloc, also to less: what fits of the old bytes is kept. */
    method Realloc(sz: nat)
      modifies this
      ensures fresh(mem) && mem.Length == sz
      ensures forall i :: 0 <= i < sz && i < old(mem).Length ==> mem[i] == old(mem[i])
    {
      var tmp := new byte[sz];
      forall i | 0 <= i < sz && i < mem.Length {
        tmp[i] := mem[i];
      }
      mem := tmp;
    }

    /** memcpy */
    method Write(at: nat, s: Bytes)
      requires at + |s| <= mem.Length
      modifies mem
      ensures mem[..at + |s|] == old(mem[..at]) + s
    {
      forall i | 0 <= i < |s| {
        mem[at + i] := s[i];
      }
    }
  }

  lemma PrefixedTwice(p: Bytes, q: Bytes, xs: seq<Item>)
    ensures Prefixed(p, Prefixed(q, xs)) == Prefixed(p + q, xs)
  {
    forall i | 0 <= i < |xs| ensures p + (q + xs[i].0) == p + q + xs[i].0 {}
  }

  lemma PrefixedEmpty(xs: seq<Item>)
    ensures Prefixed([], xs) == xs
  {
    assert forall i :: 0 <= i < |xs| ==> [] + xs[i].0 == xs[i].0;
  }

  lemma PrefixedConcat(p: Bytes, xs: seq<Item>, ys: seq<Item>)
    ensures Prefixed(p, xs + ys) == Prefixed(p, xs) + Prefixed(p, ys)
  {}

  /** The calls made for a node below the path p, up to child m. */
  function WalkTo(cb: Callback, seen: seq<Item>, p: Bytes, t: Tree, m: nat): (seq<Item>, bool)
    requires t.Node? && m <= |t.kids|
  {
    Walk(cb, seen, Prefixed(p + t.key, Here(t.data) + ItemsTo(t, m)))
  }

  lemma WalkNode(cb: Callback, seen: seq<Item>, p: Bytes, t: Tree)
    requires t.Node?
    ensures Walk(cb, seen, Prefixed(p, Items(t))) == WalkTo(cb, seen, p, t, |t.kids|)
  {
    PrefixedTwice(p, t.key, BelowItems(t));
  }

  lemma WalkHere(cb: Callback, seen: seq<Item>, p: Bytes, t: Tree)
    requires t.Node?
    ensures WalkTo(cb, seen, p, t, 0) ==
            if t.data.None? then (seen, false)
            else (seen + [(p + t.key, t.data.value)], cb(seen, (p + t.key, t.data.value)))
  {
    var xs := Prefixed(p + t.key, Here(t.data) + ItemsTo(t, 0));
    if t.data.Some? {
      assert p + t.key + [] == p + t.key;
      assert xs == [(p + t.key, t.data.value)];
      assert Walk(cb, seen + [xs[0]], xs[1..]) == (seen + [xs[0]], false);
    } else {
      assert xs == [];
    }
  }

  lemma WalkChild(cb: Callback, seen: seq<Item>, p: Bytes, t: Tree, m: nat)
    requires t.Node? && m < |t.kids|
    ensures var w := WalkTo(cb, seen, p, t, m);
            WalkTo(cb, seen, p, t, m + 1) ==
            if w.1 then w else Walk(cb, w.0, Prefixed(p + t.key + [CharByte(t, m)], Items(t.kids[m])))
  {
    var q, b, c := p + t.key, [CharByte(t, m)], Items(t.kids[m]);
    var a := Here(t.data) + ItemsTo(t, m);
    assert Here(t.data) + ItemsTo(t, m + 1) == a + Prefixed(b, c);
    PrefixedConcat(q, a, Prefixed(b, c));
    PrefixedTwice(q, b, c);
    WalkConcat(cb, seen, Prefixed(q, a), Prefixed(q + b, c));
  }

  lemma WalkStopped(cb: Callback, seen: seq<Item>, p: Bytes, t: Tree, m: nat, k: nat)
    requires t.Node? && m <= k <= |t.kids| && WalkTo(cb, seen, p, t, m).1
    ensures WalkTo(cb, seen, p, t, k) == WalkTo(cb, seen, p, t, m)
    decreases k
  {
    if m < k {
      WalkStopped(cb, seen, p, t, m, k - 1);
      WalkChild(cb, seen, p, t, k - 1);
    }
  }

  lemma WalkNil(cb: Callback, seen: seq<Item>, p: Bytes)
    ensures Walk(cb, seen, Prefixed(p, Items(Nil))) == (seen, false)
  {}

  /** CT_items: the first `len` bytes of the buffer are the path to the node and `bufferSz` is what
      the caller believes the buffer to hold. */
  method WalkItems(nd: CNode, len: nat, bufferSz: nat, buffer: Buffer, cb: Callback, seen0: seq<Item>)
      returns (seen: seq<Item>, rc: int)
    requires nd.Valid() && WF(nd.tree)
    requires buffer !in nd.Repr && buffer.mem !in nd.Repr
    requires len <= bufferSz <= buffer.mem.Length
    modifies buffer, buffer.mem
    ensures (seen, rc != 0) == Walk(cb, seen0, Prefixed(old(buffer.mem[..len]), CtreeItems.Items(nd.tree)))
    ensures rc == 0 || rc == 1
    ensures bufferSz <= buffer.mem.Length && buffer.mem[..len] == old(buffer.mem[..len])
    ensures buffer.mem == old(buffer.mem) || fresh(buffer.mem)
    decreases nd.tree
  {
    hide CNode.Valid, WF, WalkTo, Walk, Prefixed, CtreeItems.Items;
    ghost var p := buffer.mem[..len];
    WalkNode(cb, seen0, p, nd.tree);
    WalkHere(cb, seen0, p, nd.tree);
    var sz, at := bufferSz, len;
    if |nd.key| + len + 1 > sz {
      sz := ((|nd.key| + len) / CT_BUF_SIZE + 1) * CT_BUF_SIZE;
      buffer.Realloc(sz);
    }
    buffer.Write(len, nd.key);
    at := at + |nd.key|;
    ghost var q := p + nd.key;
    assert buffer.mem[..at] == q;
    seen, rc := seen0, 0;
    if nd.data.Some? {
      var item := (buffer.mem[..at], nd.data.value);
      seen := seen + [item];
      if cb(seen0, item) {
        WalkStopped(cb, seen0, p, nd.tree, 0, |nd.tree.kids|);
        return seen, 1;
      }
    }
    if nd.nodes != null {
      WFSound(nd.tree);
      seen, rc := WalkTable(nd, p, at, sz, buffer, cb, seen0, seen);
    }
    assert buffer.mem[..len] == q[..len];
  }

  /** The part of CT_items behind the node's own item; `p` is the path to the node. */
  method WalkTable(nd: CNode, ghost p: Bytes, at: nat, sz: nat, buffer: Buffer, cb: Callback,
                   ghost seen0: seq<Item>, seen1: seq<Item>)
      returns (seen: seq<Item>, rc: int)
    requires nd.Valid() && Sound(nd.tree) && nd.nodes != null
    requires buffer !in nd.Repr && buffer.mem !in nd.Repr
    requires at < sz <= buffer.mem.Length && buffer.mem[..at] == p + nd.tree.key
    requires (seen1, false) == WalkTo(cb, seen0, p, nd.tree, 0)
    modifies buffer, buffer.mem
    ensures (seen, rc != 0) == WalkTo(cb, seen0, p, nd.tree, |nd.tree.kids|)
    ensures rc == 0 || rc == 1
    ensures sz <= buffer.mem.Length && buffer.mem[..at] == old(buffer.mem[..at])
    ensures buffer.mem == old(buffer.mem) || fresh(buffer.mem)
    decreases nd.tree, 0
  {
    hide CNode.Valid, WF, WalkTo, Walk, Prefixed, CtreeItems.Items;
    nd.Whole();
    seen, rc := seen1, 0;
    var i := 0;
    while i < nd.n * BLOCKSZ
      invariant i <= |nd.tree.kids| && rc == 0
      invariant (seen, false) == WalkTo(cb, seen0, p, nd.tree, i)
      invariant sz <= buffer.mem.Length && buffer.mem[..at] == p + nd.tree.key
      invariant buffer.mem == old(buffer.mem) || fresh(buffer.mem)
      decreases |nd.tree.kids| - i
    {
      WalkChild(cb, seen0, p, nd.tree, i);
      seen, rc := WalkEntry(nd, i, p + nd.tree.key, at, sz, buffer, cb, seen);
      if rc != 0 {
        WalkStopped(cb, seen0, p, nd.tree, i + 1, |nd.tree.kids|);
        return;
      }
      i := i + 1;
    }
  }

  method WalkEntry(nd: CNode, i: nat, ghost q: Bytes, at: nat, sz: nat, buffer: Buffer, cb: Callback, seen0: seq<Item>)
      returns (seen: seq<Item>, rc: int)
    requires nd.Valid() && Sound(nd.tree) && i < |nd.tree.kids|
    requires buffer !in nd.Repr && buffer.mem !in nd.Repr
    requires at < sz <= buffer.mem.Length && buffer.mem[..at] == q
    modifies buffer, buffer.mem
    ensures (seen, rc != 0) == Walk(cb, seen0, Prefixed(q + [CharByte(nd.tree, i)], CtreeItems.Items(nd.tree.kids[i])))
    ensures rc == 0 || rc == 1
    ensures sz <= buffer.mem.Length && buffer.mem[..at] == q
    ensures buffer.mem == old(buffer.mem) || fresh(buffer.mem)
    decreases nd.tree, 0, 0
  {
    hide CNode.Valid, WF, Walk, Prefixed, CtreeItems.Items;
    nd.Whole();
    nd.Entry(i + nd.offset * BLOCKSZ);
    var c := nd.nodes[i];
    seen, rc := seen0, 0;
    if c == null {
      WalkNil(cb, seen, q + [CharByte(nd.tree, i)]);
      return;
    }
    buffer.mem[at] := (i + nd.offset * BLOCKSZ) % 256;
    assert buffer.mem[..at + 1] == q + [CharByte(nd.tree, i)];
    seen, rc := WalkItems(c, at + 1, sz, buffer, cb, seen);
    assert buffer.mem[..at] == buffer.mem[..at + 1][..at];
  }
}
