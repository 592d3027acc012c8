/** The bytes of a slot of the buffer file.

    A slot starts with a zero word and the id of its series; points follow, and the rest is filled
    with end marks, at least one.  The old format has the id, a count and the points. */
module BufferSlots {
  import opened Common
  import opened Files
  import opened Words

  const END_MARK: nat := 0xFFFF_FFFF_FFFF_FFFF
  const MAX_ID: nat := 0xFFFF_FFFF

  datatype Point = Point(ts: nat, val: Bytes)

  /** Time stamps are less than the end mark; a value has eight bytes. */
  predicate IsPoint(p: Point) {
    p.ts < END_MARK && |p.val| == 8
  }

  predicate ArePoints(ps: seq<Point>) {
    forall i :: 0 <= i < |ps| ==> IsPoint(ps[i])
  }

  function EncPoint(p: Point): (b: Bytes)
    requires IsPoint(p)
    ensures |b| == 16
  {
    Le(p.ts, 8) + p.val
  }

  function EncPoints(ps: seq<Point>): (b: Bytes)
    requires ArePoints(ps)
    ensures |b| == 16 * |ps|
  {
    if ps == [] then [] else EncPoint(ps[0]) + EncPoints(ps[1..])
  }

  function Marks(n: nat): (b: Bytes)
    ensures |b| == n && forall i :: 0 <= i < n ==> b[i] == 255
  {
    seq(n, _ => 255)
  }

  /** siridb_buffer_is_valid_size */
  predicate IsSize(size: nat) {
    size >= 512 && size % 512 == 0 && size <= 1048576
  }

  /** There is room for the points and an end mark. */
  predicate FitsIn(ps: seq<Point>, size: nat) {
    ArePoints(ps) && 16 * |ps| + 16 <= size
  }

  function Slot(id: nat, ps: seq<Point>, size: nat): (b: Bytes)
    requires id <= MAX_ID && FitsIn(ps, size)
    ensures |b| == size
  {
    Zeros(4) + Le(id, 4) + EncPoints(ps) + Marks(size - 8 - 16 * |ps|)
  }

  function OldSlot(id: nat, ps: seq<Point>, tail: Bytes): (b: Bytes)
    requires id <= MAX_ID && ArePoints(ps)
    ensures |b| == 12 + 16 * |ps| + |tail|
  {
    Le(id, 4) + Le(|ps|, 8) + EncPoints(ps) + tail
  }

  // ---- reading ----

  /** The loop of siridb_buffer_load over the points; None when there is no end mark. */
  function ReadPoints(b: Bytes): Option<seq<Point>> {
    if |b| < 8 then None
    else if FromLe(b[..8]) == END_MARK then Some([])
    else if |b| < 16 then None
    else
      var rest := ReadPoints(b[16..]);
      if rest.None? then None else Some([Point(FromLe(b[..8]), b[8..16])] + rest.value)
  }

  lemma Span8()
    ensures Span(8) == END_MARK + 1 && Span(4) == MAX_ID + 1
  {
    assert Span(2) == 256 * Span(1);
    assert Span(4) == 256 * 256 * Span(2);
    assert Span(6) == 256 * 256 * Span(4);
  }

  lemma {:induction false} MarksValue(n: nat)
    ensures FromLe(Marks(n)) == Span(n) - 1
  {
    if n > 0 {
      MarksValue(n - 1);
      assert Marks(n)[1..] == Marks(n - 1);
    }
  }

  lemma {:induction false} ReadEncPoints(ps: seq<Point>, n: nat)
    requires ArePoints(ps) && n >= 8
    ensures ReadPoints(EncPoints(ps) + Marks(n)) == Some(ps)
    decreases |ps|
  {
    hide FromLe, Le;
    var b := EncPoints(ps) + Marks(n);
    Span8();
    if ps == [] {
      assert EncPoints(ps) == [] && b == Marks(n);
      assert b[..8] == Marks(8);
      MarksValue(8);
    } else {
      var p := ps[0];
      LeRoundTrip(p.ts, 8);
      assert b[..8] == Le(p.ts, 8) && b[8..16] == p.val;
      assert b[16..] == EncPoints(ps[1..]) + Marks(n);
      ReadEncPoints(ps[1..], n);
      assert [p] + ps[1..] == ps && p == Point(p.ts, p.val);
    }
  }

  /** A slot gives back its id and its points. */
  lemma ReadSlot(id: nat, ps: seq<Point>, size: nat)
    requires id <= MAX_ID && FitsIn(ps, size)
    ensures var b := Slot(id, ps, size);
            b[..4] == Zeros(4) && FromLe(b[4..8]) == id && ReadPoints(b[8..]) == Some(ps)
  {
    hide FromLe, Le, EncPoints, ReadPoints;
    var b := Slot(id, ps, size);
    Span8();
    LeRoundTrip(id, 4);
    ReadEncPoints(ps, size - 8 - 16 * |ps|);
    assert b[4..8] == Le(id, 4);
    assert b[8..] == EncPoints(ps) + Marks(size - 8 - 16 * |ps|);
  }

  lemma {:induction false} EncPointAt(ps: seq<Point>, k: nat)
    requires ArePoints(ps) && k < |ps|
    ensures EncPoints(ps)[16 * k..16 * k + 16] == EncPoint(ps[k])
    decreases |ps|
  {
    if k > 0 {
      EncPointAt(ps[1..], k - 1);
      assert EncPoints(ps)[16 * k..16 * k + 16] == EncPoints(ps[1..])[16 * (k - 1)..16 * (k - 1) + 16];
    }
  }

  /** The bytes of a slot: four zeros, the id, and for each point its time and its value; words have
      their least byte first, and the rest is 255. */
  lemma SlotLayout(id: nat, ps: seq<Point>, size: nat, k: nat)
    requires id <= MAX_ID && FitsIn(ps, size) && k < |ps|
    ensures var b, at := Slot(id, ps, size), 8 + 16 * k;
            && (forall i :: 0 <= i < 4 ==> b[i] == 0 && b[4 + i] == id / Span(i) % 256)
            && (forall i :: 0 <= i < 8 ==> b[at + i] == ps[k].ts / Span(i) % 256 && b[at + 8 + i] == ps[k].val[i])
            && (forall i :: 8 + 16 * |ps| <= i < size ==> b[i] == 255)
  {
    hide Le, Span, EncPoints;
    EncPointAt(ps, k);
    var b, at := Slot(id, ps, size), 8 + 16 * k;
    assert b[8..8 + 16 * |ps|] == EncPoints(ps);
    var point := b[at..at + 16];
    assert point == EncPoints(ps)[16 * k..16 * k + 16];
    assert forall i :: 0 <= i < 16 ==> point[i] == b[at + i];
    forall i | 0 <= i < 4 ensures b[4 + i] == id / Span(i) % 256 {
      LeByte(id, 4, i);
    }
    forall i | 0 <= i < 8 ensures Le(ps[k].ts, 8)[i] == ps[k].ts / Span(i) % 256 {
      LeByte(ps[k].ts, 8, i);
    }
  }

  lemma {:induction false} EncAppend(ps: seq<Point>, p: Point)
    requires ArePoints(ps) && IsPoint(p)
    ensures EncPoints(ps + [p]) == EncPoints(ps) + EncPoint(p)
    decreases |ps|
  {
    if ps == [] {
      assert [] + [p] == [p] && [p][1..] == [];
      assert EncPoints([p]) == EncPoint(p) + [];
    } else {
      assert (ps + [p])[1..] == ps[1..] + [p];
      EncAppend(ps[1..], p);
    }
  }

  /** Writing a point behind the others takes the place of end marks. */
  lemma SlotAppend(id: nat, ps: seq<Point>, p: Point, size: nat)
    requires id <= MAX_ID && IsPoint(p) && FitsIn(ps + [p], size) && FitsIn(ps, size)
    ensures var b, at := Slot(id, ps, size), 8 + 16 * |ps|;
            b[..at] + EncPoint(p) + b[at + 16..] == Slot(id, ps + [p], size)
  {
    hide Le, EncPoints, EncPoint;
    EncAppend(ps, p);
    var b, at := Slot(id, ps, size), 8 + 16 * |ps|;
    assert b[..at] == Zeros(4) + Le(id, 4) + EncPoints(ps);
    assert b[at + 16..] == Marks(size - 24 - 16 * |ps|);
  }

  /** The front of a slot is a smaller slot, when the points still fit. */
  lemma SlotShrink(id: nat, ps: seq<Point>, size: nat, less: nat)
    requires id <= MAX_ID && less <= size && FitsIn(ps, less)
    ensures FitsIn(ps, size) && Slot(id, ps, size)[..less] == Slot(id, ps, less)
  {
    hide Le, EncPoints;
  }

  /** More end marks behind a slot make it a larger slot. */
  lemma SlotGrow(id: nat, ps: seq<Point>, size: nat, more: nat)
    requires id <= MAX_ID && size <= more && FitsIn(ps, size)
    ensures FitsIn(ps, more) && Slot(id, ps, size) + Marks(more - size) == Slot(id, ps, more)
  {
    hide Le, EncPoints;
    assert Marks(size - 8 - 16 * |ps|) + Marks(more - size) == Marks(more - 8 - 16 * |ps|);
  }
}
